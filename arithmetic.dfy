/** uint256_add, uint256_leftshift and uint256_mul: arithmetic modulo 2^256. */
module Arithmetic {
  import opened Words
  import opened Limbs
  import opened Digits
  import opened Construct
  import opened Text

  function CarryBit(c: bool): nat
  {
    if c then 1 else 0
  }

  // ---------------------------------------------------------------------------
  // uint256_add

  /** uint256_add: limb by limb from the least significant, each limb sum wrapping
      modulo 2^64 and passing a carry to the next limb. The carry out of a limb
      is detected as in the source (the wrapped sum is below the left limb), plus
      the one case the source misses: with a carry in, a sum equal to the left limb
      (right limb 2^64 - 1) has also wrapped. */
  method Add(left: UInt256, right: UInt256) returns (sum: UInt256)
    ensures ToNat(sum) == (ToNat(left) + ToNat(right)) % MODULUS
  {
    var data: seq<U64> := [0, 0, 0, 0];
    var overflowed := false;
    for i := 0 to 4
      invariant |data| == 4
      invariant ValueOf(data[..i]) + Pow2(64 * i) * CarryBit(overflowed)
             == ValueOf(left.data[..i]) + ValueOf(right.data[..i])
    {
      var carryIn := overflowed;
      var limbSum;
      limbSum, overflowed := AddLimb(left.data[i], right.data[i], carryIn);
      PrefixStep(data, left.data, right.data, i, limbSum, carryIn, overflowed);
      data := data[i := limbSum];
    }
    sum := UInt256(data);
    WholeSum(data, left.data, right.data, CarryBit(overflowed), Pow2(64 * 4));
    assert Pow2(64 * 4) == MODULUS by {
      Pow2Of256();
    }
    DivModOf(ToNat(left) + ToNat(right), MODULUS, CarryBit(overflowed), ToNat(sum));
  }

  /** One pass of the addition loop: the two limbs and the carry in are added,
      wrapping modulo 2^64. The carry out is set when the wrapped sum is below the
      left limb or, the case the source misses, equal to it after a carry in. */
  method AddLimb(leftval: U64, rightval: U64, carryIn: bool) returns (sum: U64, carryOut: bool)
    ensures sum + BASE * CarryBit(carryOut) == leftval + rightval + CarryBit(carryIn)
  {
    sum := (leftval + rightval) % BASE;
    carryOut := false;
    if carryIn {
      sum := (sum + 1) % BASE;
    }
    if sum < leftval || (carryIn && sum == leftval) {
      carryOut := true;
    }
    LimbCarry(leftval, rightval, carryIn, sum, carryOut);
  }

  /** Once every limb is summed, the prefixes are the whole limb sequences. */
  lemma WholeSum(data: seq<U64>, l: seq<U64>, r: seq<U64>, c: nat, w: nat)
    requires |data| == |l| == |r|
    requires ValueOf(data[..|data|]) + w * c == ValueOf(l[..|l|]) + ValueOf(r[..|r|])
    ensures ValueOf(data) + w * c == ValueOf(l) + ValueOf(r)
  {
    assert data[..|data|] == data && l[..|l|] == l && r[..|r|] == r;
  }

  /** The limb step of the corrected addition: the wrapped limb and the carry
      out together are the exact sum of the two limbs and the carry in. */
  lemma LimbCarry(l: U64, r: U64, carryIn: bool, s: U64, carryOut: bool)
    requires s == if carryIn then ((l + r) % BASE + 1) % BASE else (l + r) % BASE
    requires carryOut == (s < l || (carryIn && s == l))
    ensures s + BASE * CarryBit(carryOut) == l + r + CarryBit(carryIn)
  {
    if l + r < BASE {
      DivModUnique(l + r, BASE, 0, l + r);
    } else {
      DivModUnique(l + r, BASE, 1, l + r - BASE);
    }
    if carryIn {
      var t := (l + r) % BASE + 1;
      if t < BASE {
        DivModUnique(t, BASE, 0, t);
      } else {
        DivModUnique(t, BASE, 1, t - BASE);
      }
    }
  }

  /** One iteration of the addition loop keeps its invariant. */
  lemma PrefixStep(data: seq<U64>, l: seq<U64>, r: seq<U64>, i: nat, s: U64, carryIn: bool, carryOut: bool)
    requires |data| == 4 && |l| == 4 && |r| == 4 && i < 4
    requires ValueOf(data[..i]) + Pow2(64 * i) * CarryBit(carryIn) == ValueOf(l[..i]) + ValueOf(r[..i])
    requires s + BASE * CarryBit(carryOut) == l[i] + r[i] + CarryBit(carryIn)
    ensures ValueOf(data[i := s][..i + 1]) + Pow2(64 * (i + 1)) * CarryBit(carryOut)
         == ValueOf(l[..i + 1]) + ValueOf(r[..i + 1])
  {
    ValueOfPrefix(data[i := s], i);
    ValueOfPrefix(l, i);
    ValueOfPrefix(r, i);
    assert data[i := s][..i] == data[..i];
    WeightStep(i);
    CarryAlgebra(ValueOf(data[..i]), ValueOf(l[..i]), ValueOf(r[..i]), Pow2(64 * i),
                 s, CarryBit(carryIn), CarryBit(carryOut), l[i], r[i]);
  }

  /** One more limb of a prefix adds it at weight 2^(64·i). */
  lemma ValueOfPrefix(ds: seq<U64>, i: nat)
    requires i < |ds|
    ensures ValueOf(ds[..i + 1]) == ValueOf(ds[..i]) + Pow2(64 * i) * ds[i]
  {
    assert ds[..i + 1] == ds[..i] + [ds[i]];
    ValueOfAppend(ds[..i], ds[i]);
  }

  lemma CarryAlgebra(vd: nat, vl: nat, vr: nat, w: nat, s: nat, c: nat, c': nat, x: nat, y: nat)
    requires vd + w * c == vl + vr
    requires s + BASE * c' == x + y + c
    ensures (vd + w * s) + (w * BASE) * c' == (vl + w * x) + (vr + w * y)
  {
    calc {
      (vd + w * s) + (w * BASE) * c';
      vd + w * (s + BASE * c');
      vd + w * (x + y + c);
      (vd + w * c) + w * x + w * y;
    }
  }

  /** One limb of uint256_add as the source writes it: the carry out is signalled
      only when the wrapped sum is below the left limb. With a carry in and a right
      limb of 2^64 - 1 the sum comes back equal to the left limb and the carry is
      lost; otherwise the limb step is exact. */
  function AddLimbAsWritten(leftval: U64, rightval: U64, overflowed: bool): (r: (U64, bool))
    ensures !(overflowed && rightval == MAX_U64) ==>
              r.0 + BASE * CarryBit(r.1) == leftval + rightval + CarryBit(overflowed)
    ensures overflowed && rightval == MAX_U64 ==> r.0 == leftval && !r.1
  {
    var sum := (leftval + rightval) % BASE;
    var sum' := if overflowed then (sum + 1) % BASE else sum;
    AsWrittenCarry(leftval, rightval, overflowed, sum');
    (sum', sum' < leftval)
  }

  lemma AsWrittenCarry(l: U64, r: U64, carryIn: bool, s: nat)
    requires s == if carryIn then ((l + r) % BASE + 1) % BASE else (l + r) % BASE
    ensures !(carryIn && r == MAX_U64) ==> s + BASE * CarryBit(s < l) == l + r + CarryBit(carryIn)
    ensures carryIn && r == MAX_U64 ==> s == l
  {
    if carryIn && r == MAX_U64 {
      DivModUnique(l + r, BASE, if l == 0 then 0 else 1, if l == 0 then MAX_U64 else l - 1);
      DivModUnique((l + r) % BASE + 1, BASE, if l == 0 then 1 else 0, l);
    } else {
      LimbCarry(l, r, carryIn, s, s < l || (carryIn && s == l));
    }
  }

  /** The loop of uint256_add as written, from limb i on: the limbs it writes and
      the carry it ends with. */
  function AddLoopAsWritten(left: Limbs, right: Limbs, i: nat, overflowed: bool): (r: (seq<U64>, bool))
    requires i <= 4
    ensures |r.0| == 4 - i
    decreases 4 - i
  {
    if i == 4 then ([], overflowed)
    else
      var (sum, carry) := AddLimbAsWritten(left[i], right[i], overflowed);
      var (rest, out) := AddLoopAsWritten(left, right, i + 1, carry);
      ([sum] + rest, out)
  }

  /** uint256_add exactly as written. */
  function AddAsWritten(left: UInt256, right: UInt256): UInt256
  {
    UInt256(AddLoopAsWritten(left.data, right.data, 0, false).0)
  }

  /** Running the loop as written from limb i, no limb receives a carry while
      its right limb is 2^64 - 1. */
  predicate NoCarryMeetsMax(left: Limbs, right: Limbs, i: nat, overflowed: bool)
    requires i <= 4
    decreases 4 - i
  {
    i == 4 ||
    (!(overflowed && right[i] == MAX_U64) &&
     NoCarryMeetsMax(left, right, i + 1, AddLimbAsWritten(left[i], right[i], overflowed).1))
  }

  /** The loop as written, run from limb i, adds exactly: the limbs it writes and
      its final carry make up the sum of the limbs from i on and the carry in. */
  predicate ExactFrom(left: Limbs, right: Limbs, i: nat, overflowed: bool)
    requires i <= 4
  {
    var r := AddLoopAsWritten(left, right, i, overflowed);
    ValueOf(r.0) + Pow2(64 * (4 - i)) * CarryBit(r.1)
      == ValueOf(left[i..]) + ValueOf(right[i..]) + CarryBit(overflowed)
  }

  /** Where no limb receives a carry while its right limb is 2^64 - 1, the loop as
      written adds exactly. */
  lemma {:induction false} AddLoopAsWrittenExact(left: Limbs, right: Limbs, i: nat, overflowed: bool)
    requires i <= 4
    requires NoCarryMeetsMax(left, right, i, overflowed)
    ensures ExactFrom(left, right, i, overflowed)
    decreases 4 - i
  {
    if i == 4 {
      assert left[4..] == [] && right[4..] == [];
    } else {
      var carry := AddLimbAsWritten(left[i], right[i], overflowed).1;
      AddLoopAsWrittenExact(left, right, i + 1, carry);
      LoopStepExact(left, right, i, overflowed);
    }
  }

  /** The loop as written from limb i, given that it is exact from limb i + 1 on
      and that limb i does not meet a carry with a right limb of 2^64 - 1. */
  lemma LoopStepExact(left: Limbs, right: Limbs, i: nat, overflowed: bool)
    requires i < 4 && !(overflowed && right[i] == MAX_U64)
    requires ExactFrom(left, right, i + 1, AddLimbAsWritten(left[i], right[i], overflowed).1)
    ensures ExactFrom(left, right, i, overflowed)
  {
    var (sum, carry) := AddLimbAsWritten(left[i], right[i], overflowed);
    var (rest, out) := AddLoopAsWritten(left, right, i + 1, carry);
    assert 4 - (i + 1) == 3 - i;
    ExactStep(left, right, i, overflowed, sum, carry, rest, out);
  }

  /** One limb of the loop as written, when that limb's step is exact. */
  lemma ExactStep(left: Limbs, right: Limbs, i: nat, overflowed: bool, sum: U64, carry: bool, rest: seq<U64>, out: bool)
    requires i < 4
    requires sum + BASE * CarryBit(carry) == left[i] + right[i] + CarryBit(overflowed)
    requires ValueOf(rest) + Pow2(64 * (3 - i)) * CarryBit(out)
          == ValueOf(left[i + 1..]) + ValueOf(right[i + 1..]) + CarryBit(carry)
    ensures ValueOf([sum] + rest) + Pow2(64 * (4 - i)) * CarryBit(out)
         == ValueOf(left[i..]) + ValueOf(right[i..]) + CarryBit(overflowed)
  {
    var w, vr, vl1, vr1 := Pow2(64 * (3 - i)), ValueOf(rest), ValueOf(left[i + 1..]), ValueOf(right[i + 1..]);
    assert ValueOf([sum] + rest) == sum + BASE * vr by {
      assert ([sum] + rest)[1..] == rest;
    }
    ValueOfSuffix(left, i);
    ValueOfSuffix(right, i);
    assert Pow2(64 * (4 - i)) == w * BASE by {
      WeightStep(3 - i);
      assert 3 - i + 1 == 4 - i;
    }
    LoopAlgebra(vr, w, CarryBit(out), sum, CarryBit(carry), vl1, vr1, left[i], right[i], CarryBit(overflowed));
  }

  lemma LoopAlgebra(vr: nat, w: nat, o: nat, s: nat, c': nat, vl1: nat, vr1: nat, x: nat, y: nat, c: nat)
    requires vr + w * o == vl1 + vr1 + c'
    requires s + BASE * c' == x + y + c
    ensures (s + BASE * vr) + (w * BASE) * o == (x + BASE * vl1) + (y + BASE * vr1) + c
  {
    calc {
      (s + BASE * vr) + (w * BASE) * o;
      s + BASE * (vr + w * o);
      s + BASE * (vl1 + vr1 + c');
      (s + BASE * c') + BASE * vl1 + BASE * vr1;
    }
  }

  /** When no right limb above i is 2^64 - 1, and limb i is not either when a
      carry comes in, no carry can meet a right limb of 2^64 - 1. */
  lemma {:induction false} NoMaxAbove(left: Limbs, right: Limbs, i: nat, overflowed: bool)
    requires i <= 4
    requires overflowed && i < 4 ==> right[i] != MAX_U64
    requires forall k | i < k < 4 :: right[k] != MAX_U64
    ensures NoCarryMeetsMax(left, right, i, overflowed)
    decreases 4 - i
  {
    if i < 4 {
      NoMaxAbove(left, right, i + 1, AddLimbAsWritten(left[i], right[i], overflowed).1);
    }
  }

  /** uint256_add as written (AddAsWritten) is right whenever none of the upper
      three limbs of the right operand is 2^64 - 1. */
  lemma AddAsWrittenExactWhen(left: UInt256, right: UInt256)
    requires forall k | 1 <= k < 4 :: right.data[k] != MAX_U64
    ensures ToNat(AddAsWritten(left, right)) == (ToNat(left) + ToNat(right)) % MODULUS
  {
    NoMaxAbove(left.data, right.data, 0, false);
    var (ds, out) := AddLoopAsWritten(left.data, right.data, 0, false);
    assert ValueOf(ds) + MODULUS * CarryBit(out) == ToNat(left) + ToNat(right) by {
      AddLoopAsWrittenExact(left.data, right.data, 0, false);
      assert left.data[0..] == left.data && right.data[0..] == right.data;
      assert Pow2(64 * (4 - 0)) == MODULUS by {
        Pow2Of256();
      }
    }
    assert ToNat(AddAsWritten(left, right)) == ValueOf(ds) < MODULUS;
    DivModOf(ToNat(left) + ToNat(right), MODULUS, CarryBit(out), ValueOf(ds));
  }

  /** 1 + (2^128 - 1) is 2^128, yet uint256_add as written returns 0: the carry out of
      limb 0 reaches limb 1, whose right limb is 2^64 - 1, and is dropped there. */
  lemma AddAsWrittenLosesCarry()
    ensures var a, b := UInt256([1, 0, 0, 0]), UInt256([MAX_U64, MAX_U64, 0, 0]);
      && (ToNat(a) + ToNat(b)) % MODULUS == 0x1_0000_0000_0000_0000_0000_0000_0000_0000
      && ToNat(AddAsWritten(a, b)) == 0
  {
    var a, b := UInt256([1, 0, 0, 0]), UInt256([MAX_U64, MAX_U64, 0, 0]);
    ToNatExpand(a);
    ToNatExpand(b);
    var (s0, c1) := AddLimbAsWritten(1, MAX_U64, false);
    assert s0 == 0 && c1;
    var (s1, c2) := AddLimbAsWritten(0, MAX_U64, true);
    assert s1 == 0 && !c2;
    assert AddAsWritten(a, b).data == [0, 0, 0, 0];
    ToNatExpand(AddAsWritten(a, b));
  }

  // ---------------------------------------------------------------------------
  // uint256_leftshift

  /** An `unsigned` (32-bit) shift count. */
  type U32 = x: int | 0 <= x < 0x1_0000_0000

  /** Character k of the 256-digit binary string `bits` after the in-place
      shift by s: the digit s places to its right, or '0' past the end. */
  function ShiftedDigit(bits: string, s: nat, k: nat): char
    requires |bits| == 256 && k < 256
  {
    if k + s < 256 then bits[k + s] else '0'
  }

  /** uint256_leftshift: the value is written out as 256 binary digits, most
      significant first, into a buffer of 257 characters; the digits are shifted
      left by `shift` places in place; the result is parsed back with
      uint256_create_from_bin. */
  method LeftShift(val: UInt256, shift: U32) returns (result: UInt256)
    ensures ToNat(result) == ToNat(val) * Pow2(shift) % MODULUS
    ensures shift == 0 ==> result == val
    ensures shift >= 256 ==> ToNat(result) == 0
  {
    var bin := new char[257];
    bin[256] := '\0';
    WriteBinary(val, bin);
    ghost var n := ToNat(val);
    ShiftDigits(bin, shift);
    ghost var m := n * Pow2(shift) % MODULUS;
    ShiftedFixed(n, shift, bin[..256]);
    ReparseFixed(m);
    result := CreateFromBin(bin[..256]);
    if shift == 0 {
      ShiftByZero(val, result);
    }
    if shift >= 256 {
      ShiftPastWidth(n, shift);
    }
  }

  /** The first loop of uint256_leftshift: for each limb from the least
      significant, its 64 bits are peeled off by halving a copy of the limb and
      written as '0'/'1' from the right end of the buffer leftwards. */
  method WriteBinary(val: UInt256, bin: array<char>)
    requires bin.Length == 257
    modifies bin
    ensures bin[..256] == Fixed(ToNat(val), 256, Bin)
    ensures bin[256] == old(bin[256])
  {
    var place := 255;
    var data := val.data;
    ghost var n := ToNat(val);
    // The source also tests `val.data > 0` here, which compares an array with a
    // null pointer and always holds.
    for i := 0 to 4
      invariant place == 255 - 64 * i
      invariant forall e | i <= e < 4 :: data[e] == val.data[e]
      invariant forall k | 256 - 64 * i <= k < 256 :: bin[k] == DigitChar(Bit(n, 255 - k), Bin)
      invariant bin[256] == old(bin[256])
    {
      for j := 0 to 64
        invariant data[i] == Shr(val.data[i], j)
        invariant forall e | i < e < 4 :: data[e] == val.data[e]
        invariant forall k | place - j < k < 256 :: bin[k] == DigitChar(Bit(n, 255 - k), Bin)
        invariant bin[256] == old(bin[256])
      {
        BinaryDigit(val, i, j, data[i]);
        if data[i] % 2 == 1 {
          bin[place - j] := '1';
        } else {
          bin[place - j] := '0';
        }
        data := data[i := data[i] / 2];
      }
      place := place - 64;
    }
    FixedFromBits(bin[..256], n);
  }

  /** The second loop of uint256_leftshift: digit i takes the digit `shift`
      places to its right, or '0' past the end. The index i + shift is computed
      in 32-bit unsigned arithmetic; when it wraps it lands on a digit already
      set to '0'. */
  method ShiftDigits(bin: array<char>, shift: U32)
    requires bin.Length == 257
    modifies bin
    ensures forall k | 0 <= k < 256 :: bin[k] == ShiftedDigit(old(bin[..256]), shift, k)
    ensures bin[256] == old(bin[256])
  {
    ghost var bits := bin[..256];
    for i := 0 to 256
      invariant forall k | i <= k < 256 :: bin[k] == bits[k]
      invariant bin[256] == old(bin[256])
      invariant forall k | 0 <= k < i :: bin[k] == ShiftedDigit(bits, shift, k)
    {
      var at := (i + shift) % 0x1_0000_0000;
      WrappedIndex(i, shift, at);
      if at < 256 {
        bin[i] := bin[at];
      } else {
        bin[i] := '0';
      }
    }
  }

  /** Halving limb i of val j times leaves bit 64·i + j of the value as its
      lowest bit. */
  lemma BinaryDigit(val: UInt256, i: nat, j: nat, x: nat)
    requires i < 4 && j < 64 && x == Shr(val.data[i], j)
    ensures DigitChar(Bit(ToNat(val), 255 - (255 - 64 * i - j)), Bin) == if x % 2 == 1 then '1' else '0'
    ensures x / 2 == Shr(val.data[i], j + 1)
  {
    assert 255 - (255 - 64 * i - j) == 64 * i + j;
    LimbBit(val.data, i, j);
    BitOfShr(val.data[i], j, 0);
    ShrStep(val.data[i], j);
  }

  /** A 256-character string whose character k is bit 255 - k of n is the
      256-digit binary numeral of n. */
  lemma FixedFromBits(bits: string, n: nat)
    requires |bits| == 256
    requires forall k | 0 <= k < 256 :: bits[k] == DigitChar(Bit(n, 255 - k), Bin)
    ensures bits == Fixed(n, 256, Bin)
  {
    forall k | 0 <= k < 256
      ensures bits[k] == Fixed(n, 256, Bin)[k]
    {
      FixedBit(n, 256, 255 - k);
    }
  }

  /** The wrapped index i + shift is the true sum, at or above i, when that is
      below 256; otherwise it is 256 or more, or it has wrapped below i onto a
      digit whose shifted value is '0'. */
  lemma WrappedIndex(i: nat, shift: U32, at: nat)
    requires i < 256 && at == (i + shift) % 0x1_0000_0000
    ensures i + shift < 256 ==> at == i + shift
    ensures i + shift >= 256 && at < 256 ==> at < i && at + shift >= 256
  {
    if i + shift < 0x1_0000_0000 {
      DivModUnique(i + shift, 0x1_0000_0000, 0, i + shift);
    } else {
      DivModUnique(i + shift, 0x1_0000_0000, 1, i + shift - 0x1_0000_0000);
    }
  }

  /** The shifted digit string is the 256-digit binary numeral of n·2^s mod 2^256. */
  lemma ShiftedFixed(n: nat, s: nat, out: string)
    requires |out| == 256
    requires forall k | 0 <= k < 256 :: out[k] == ShiftedDigit(Fixed(n, 256, Bin), s, k)
    ensures out == Fixed(n * Pow2(s) % MODULUS, 256, Bin)
  {
    var bits, m := Fixed(n, 256, Bin), n * Pow2(s) % MODULUS;
    forall k | 0 <= k < 256
      ensures out[k] == Fixed(m, 256, Bin)[k]
    {
      ShiftedChar(bits, n, s, k, m);
    }
  }

  lemma ShiftedChar(bits: string, n: nat, s: nat, k: nat, m: nat)
    requires bits == Fixed(n, 256, Bin) && k < 256 && m == n * Pow2(s) % MODULUS
    ensures ShiftedDigit(bits, s, k) == Fixed(m, 256, Bin)[k]
  {
    var j := 255 - k;
    assert Fixed(m, 256, Bin)[k] == DigitChar(Bit(m, j), Bin) by {
      FixedBit(m, 256, j);
    }
    assert Bit(m, j) == if j >= s then Bit(n, j - s) else 0 by {
      ShiftBits(n, s, j);
    }
    if k + s < 256 {
      assert bits[k + s] == DigitChar(Bit(n, j - s), Bin) by {
        FixedBit(n, 256, j - s);
      }
    }
  }

  /** Bit j of n·2^s mod 2^256 is bit j - s of n, or 0 below s. */
  lemma ShiftBits(n: nat, s: nat, j: nat)
    requires j < 256
    ensures Bit(n * Pow2(s) % MODULUS, j) == if j >= s then Bit(n, j - s) else 0
  {
    if s <= 256 {
      var y := n % Pow2(256 - s);
      assert n * Pow2(s) % MODULUS == 0 + Pow2(s) * y by {
        assert Pow2(256) == MODULUS by {
          Pow2Of256();
        }
        MulPow2ModAt(n, s, 256, MODULUS);
      }
      BitOfSum(0, y, s, j);
      if j >= s {
        BitOfMod(n, 256 - s, j - s);
      } else {
        BitOfZero(j);
      }
    } else {
      ShiftPastWidth(n, s);
      BitOfZero(j);
    }
  }

  /** Shifting by 256 places or more leaves nothing. */
  lemma ShiftPastWidth(n: nat, s: nat)
    requires s >= 256
    ensures n * Pow2(s) % MODULUS == 0
  {
    var p := Pow2(s - 256);
    assert Pow2(s) == MODULUS * p by {
      Pow2Of256();
      Pow2Add(256, s - 256);
    }
    MulAssoc(n, MODULUS, p);
    DivModUnique(n * Pow2(s), MODULUS, n * p, 0);
  }

  lemma MulAssoc(x: nat, y: nat, z: nat)
    ensures x * (y * z) == (x * z) * y
  {
  }

  /** Shifting by 0 places gives back the value itself. */
  lemma ShiftByZero(val: UInt256, r: UInt256)
    requires ToNat(r) == ToNat(val) * Pow2(0) % MODULUS
    ensures r == val
  {
    DivModUnique(ToNat(val), MODULUS, 0, ToNat(val));
    ToNatInjective(r, val);
  }

  /** The 256-digit binary numeral of m < 2^256 parses back to m. */
  lemma ReparseFixed(m: nat)
    requires m < MODULUS
    ensures AllDigits(Fixed(m, 256, Bin), Bin)
    ensures Value(Fixed(m, 256, Bin), Bin) % MODULUS == m
  {
    Pow2Of256();
    FixedValue(m, 256, Bin);
    DivModUnique(m, MODULUS, 0, m);
  }

  // ---------------------------------------------------------------------------
  // uint256_mul

  /** uint256_mul: shift-and-add over the 256 bits of the right operand. */
  method Mul(left: UInt256, right: UInt256) returns (product: UInt256)
    ensures ToNat(product) == ToNat(left) * ToNat(right) % MODULUS
  {
    product := CreateFromU64(0);
    ghost var a, b := ToNat(left), ToNat(right);
    for i := 0 to 256
      invariant ToNat(product) == ShiftAddProduct(a, b, i)
    {
      if BitIsSet(right, i) != 0 {
        var shifted := LeftShift(left, i);
        product := Add(product, shifted);
      }
    }
    ShiftAddProductFull(a, b);
  }

  /** The product after the first i steps of shift-and-add: for every set bit k
      of b below i, a shifted left by k is added, modulo 2^256. */
  function ShiftAddProduct(a: nat, b: nat, i: nat): nat
  {
    if i == 0 then 0
    else
      var p := ShiftAddProduct(a, b, i - 1);
      if Bit(b, i - 1) == 1 then (p + a * Pow2(i - 1) % MODULUS) % MODULUS else p
  }

  /** After i steps the shift-and-add product is a times the low i bits of b,
      modulo 2^256. */
  lemma {:induction false} ShiftAddProductValue(a: nat, b: nat, i: nat)
    ensures ShiftAddProduct(a, b, i) == a * LowBits(b, i) % MODULUS
  {
    if i > 0 {
      ShiftAddProductValue(a, b, i - 1);
      MulStep(a, LowBits(b, i - 1), Pow2(i - 1), Bit(b, i - 1),
              ShiftAddProduct(a, b, i - 1), ShiftAddProduct(a, b, i));
    }
  }

  /** All 256 steps multiply a by the whole of b < 2^256. */
  lemma ShiftAddProductFull(a: nat, b: nat)
    requires b < MODULUS
    ensures ShiftAddProduct(a, b, 256) == a * b % MODULUS
  {
    ShiftAddProductValue(a, b, 256);
    ModPow2(b, 256);
    Pow2Of256();
    DivModUnique(b, MODULUS, 0, b);
  }

  /** One step of shift-and-add: adding a * p when the bit is set keeps the
      product equal to a times the bits seen so far. */
  lemma MulStep(a: nat, low: nat, p: nat, bit: nat, before: nat, after: nat)
    requires bit < 2
    requires before == a * low % MODULUS
    requires bit == 1 ==> after == (before + a * p % MODULUS) % MODULUS
    requires bit == 0 ==> after == before
    ensures after == a * (low + bit * p) % MODULUS
  {
    if bit == 1 {
      ModAdd(a * low, a * p, MODULUS);
      assert a * (low + bit * p) == a * low + a * p;
      DivModUnique(before, MODULUS, 0, before);
    }
  }
}
