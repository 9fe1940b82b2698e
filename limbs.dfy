/** The representation of a UInt256: four 64-bit limbs, least significant
    first, standing for the number Σ data[i]·2^(64·i). */
module Limbs {
  import opened Words

  /** 2^64, one more than the largest uint64_t. */
  const BASE: nat := 0x1_0000_0000_0000_0000
  /** 2^256: every result is reduced modulo this. */
  const MODULUS: nat := 0x1_0000_0000_0000_0000_0000_0000_0000_0000_0000_0000_0000_0000_0000_0000_0000_0000
  /** 2^64 - 1, the largest uint64_t. */
  const MAX_U64: nat := 0xFFFF_FFFF_FFFF_FFFF

  /** A uint64_t. */
  type U64 = x: int | 0 <= x < 0x1_0000_0000_0000_0000

  /** The `data` array of a UInt256: exactly four limbs. */
  type Limbs = s: seq<U64> | |s| == 4 witness [0, 0, 0, 0]

  /** The C struct UInt256 (passed and returned by value). */
  datatype UInt256 = UInt256(data: Limbs)

  /** Σ ds[i]·2^(64·i): the number a little-endian run of limbs stands for. */
  function ValueOf(ds: seq<U64>): nat
  {
    if ds == [] then 0 else ds[0] + BASE * ValueOf(ds[1..])
  }

  /** The number a UInt256 stands for. */
  function ToNat(v: UInt256): (n: nat)
    ensures n < MODULUS
  {
    ValueOfBound(v.data);
    Pow2Of256();
    ValueOf(v.data)
  }

  lemma {:induction false} ValueOfBound(ds: seq<U64>)
    ensures ValueOf(ds) < Pow2(64 * |ds|)
  {
    if ds != [] {
      var p := Pow2(64 * (|ds| - 1));
      ValueOfBound(ds[1..]);
      assert Pow2(64 * |ds|) == p * BASE by {
        WeightStep(|ds| - 1);
      }
      LimbBoundStep(ds[0], ValueOf(ds[1..]), p);
    }
  }

  lemma LimbBoundStep(d: nat, v: nat, p: nat)
    requires d < BASE && v < p
    ensures d + BASE * v < BASE * p
  {
  }

  /** ToNat written out limb by limb. */
  lemma ToNatExpand(v: UInt256)
    ensures ToNat(v) == v.data[0] + BASE * (v.data[1] + BASE * (v.data[2] + BASE * v.data[3]))
  {
    var d := v.data;
    assert ValueOf(d[3..]) == d[3] by {
      assert d[3..][1..] == [];
    }
    ValueOfSuffix(d, 2);
    ValueOfSuffix(d, 1);
    ValueOfSuffix(d, 0);
    assert d[0..] == d;
  }

  /** The value of the limbs from index i upwards: limb i plus 2^64 times the rest. */
  lemma ValueOfSuffix(ds: seq<U64>, i: nat)
    requires i < |ds|
    ensures ValueOf(ds[i..]) == ds[i] + BASE * ValueOf(ds[i + 1..])
  {
    assert ds[i..][1..] == ds[i + 1..];
  }

  /** Two values with the same number are the same value. */
  lemma ToNatInjective(a: UInt256, b: UInt256)
    requires ToNat(a) == ToNat(b)
    ensures a == b
  {
    ToNatExpand(a);
    ToNatExpand(b);
    var x, y := a.data, b.data;
    DigitsUnique(x[0], x[1], x[2], x[3], y[0], y[1], y[2], y[3]);
    assert x == y;
  }

  lemma DigitsUnique(x0: U64, x1: U64, x2: U64, x3: U64, y0: U64, y1: U64, y2: U64, y3: U64)
    requires x0 + BASE * (x1 + BASE * (x2 + BASE * x3)) == y0 + BASE * (y1 + BASE * (y2 + BASE * y3))
    ensures x0 == y0 && x1 == y1 && x2 == y2 && x3 == y3
  {
    var hx, hy := x1 + BASE * (x2 + BASE * x3), y1 + BASE * (y2 + BASE * y3);
    DivModUnique(x0 + BASE * hx, BASE, hx, x0);
    DivModUnique(y0 + BASE * hy, BASE, hy, y0);
    var gx, gy := x2 + BASE * x3, y2 + BASE * y3;
    DivModUnique(x1 + BASE * gx, BASE, gx, x1);
    DivModUnique(y1 + BASE * gy, BASE, gy, y1);
    DivModUnique(x2 + BASE * x3, BASE, x3, x2);
    DivModUnique(y2 + BASE * y3, BASE, y3, y2);
  }

  /** Bit k of limb e is bit 64·e + k of the number the limbs stand for. */
  lemma {:induction false} LimbBit(ds: seq<U64>, e: nat, k: nat)
    requires e < |ds| && k < 64
    ensures Bit(ValueOf(ds), 64 * e + k) == Bit(ds[e], k)
  {
    ValueOfSuffix(ds, 0);
    assert ds[0..] == ds;
    if e == 0 {
      BitOfLimbSplit(ValueOf(ds), ds[0], ValueOf(ds[1..]), k);
    } else {
      BitOfLimbSplit(ValueOf(ds), ds[0], ValueOf(ds[1..]), 64 * e + k);
      LimbBit(ds[1..], e - 1, k);
      assert ds[1..][e - 1] == ds[e];
    }
  }

  /** The bits of x + 2^64 * y: those of x below 64, those of y above. */
  lemma BitOfLimbSplit(v: nat, x: nat, y: nat, k: nat)
    requires x < BASE && v == x + BASE * y
    ensures k < 64 ==> Bit(v, k) == Bit(x, k)
    ensures k >= 64 ==> Bit(v, k) == Bit(y, k - 64)
  {
    Pow2Of64();
    BitOfSum(x, y, 64, k);
  }

  /** Each further limb weighs 2^64 times more. */
  lemma WeightStep(i: nat)
    ensures Pow2(64 * (i + 1)) == Pow2(64 * i) * BASE
  {
    Pow2Add(64 * i, 64);
    Pow2Of64();
  }

  /** Appending a limb at the most significant end adds it at weight 2^(64·|ds|). */
  lemma {:induction false} ValueOfAppend(ds: seq<U64>, d: U64)
    ensures ValueOf(ds + [d]) == ValueOf(ds) + Pow2(64 * |ds|) * d
  {
    if ds == [] {
      assert ValueOf([d]) == d + BASE * ValueOf([d][1..]);
      assert [d][1..] == [];
    } else {
      var rest := ds[1..];
      assert (ds + [d])[1..] == rest + [d];
      ValueOfAppend(rest, d);
      WeightStep(|rest|);
      AppendStep(ds[0], ValueOf(rest), Pow2(64 * |rest|), d);
    }
  }

  lemma AppendStep(d0: nat, v: nat, w: nat, d: nat)
    ensures d0 + BASE * (v + w * d) == (d0 + BASE * v) + (w * BASE) * d
  {
  }
}
