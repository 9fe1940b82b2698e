/** Construction from machine words and the limb and bit accessors of uint256.c. */
module Construct {
  import opened Words
  import opened Limbs

  /** uint256_create_from_u64: val in the least significant limb, zeros above. */
  function CreateFromU64(val: U64): (r: UInt256)
    ensures ToNat(r) == val
    ensures r.data[0] == val && r.data[1] == 0 && r.data[2] == 0 && r.data[3] == 0
  {
    var r := UInt256([val, 0, 0, 0]);
    ToNatExpand(r);
    r
  }

  /** uint256_create: copies the four limbs of `data`, index for index.
      (The C result starts uninitialised; here it starts at zero, which no
      caller can observe since every limb is overwritten.) */
  method Create(data: array<U64>) returns (r: UInt256)
    requires data.Length == 4
    ensures r.data == data[..]
    ensures ToNat(r) == data[0] + BASE * (data[1] + BASE * (data[2] + BASE * data[3]))
  {
    var limbs: seq<U64> := [0, 0, 0, 0];
    for i := 0 to 4
      invariant |limbs| == 4
      invariant limbs[..i] == data[..i]
    {
      limbs := limbs[i := data[i]];
    }
    assert limbs == limbs[..4];
    r := UInt256(limbs);
    ToNatExpand(r);
  }

  /** uint256_get_bits: limb `index`, which holds bits 64·index .. 64·index + 63
      of the value. An index above 3 is outside the C array, so it is excluded. */
  function GetBits(val: UInt256, index: nat): (bits: U64)
    requires index < 4
    ensures forall k | 0 <= k < 64 :: Bit(bits, k) == Bit(ToNat(val), 64 * index + k)
  {
    LimbBits(val, index);
    val.data[index]
  }

  lemma LimbBits(val: UInt256, e: nat)
    requires e < 4
    ensures forall k | 0 <= k < 64 :: Bit(val.data[e], k) == Bit(ToNat(val), 64 * e + k)
  {
    forall k | 0 <= k < 64
      ensures Bit(val.data[e], k) == Bit(ToNat(val), 64 * e + k)
    {
      LimbBit(val.data, e, k);
    }
  }

  lemma Pow2Below(k: nat, n: nat)
    requires k < n
    ensures Pow2(k) < Pow2(n)
  {
    Pow2Monotone(k, n - 1);
  }

  /** `x & (1UL << k)`: the single-bit mask 2^k when bit k of x is set, else 0. */
  function MaskBit(x: U64, k: nat): (r: U64)
    requires k < 64
    ensures r == 0 || r == Pow2(k)
    ensures r != 0 <==> Bit(x, k) == 1
  {
    Pow2Below(k, 64);
    Pow2Of64();
    AndPow2(x, k);
    And(x, Pow2(k))
  }

  /** uint256_bit_is_set, with the masked limb returned as the 64-bit value it is:
      nonzero exactly when bit `index` of the value is 1. An index above 255 is
      outside the limb array, so it is excluded. */
  function BitIsSet(val: UInt256, index: nat): (r: U64)
    requires index < 256
    ensures r == 0 || r == Pow2(index % 64)
    ensures r != 0 <==> Bit(ToNat(val), index) == 1
  {
    var element := index / 64;
    LimbBit(val.data, element, index % 64);
    MaskBit(val.data[element], index % 64)
  }

  /** The C conversion of a uint64_t to the 32-bit `int` return type
      (reduction modulo 2^32, read as two's complement, as GCC and Clang do). */
  function ToInt32(x: U64): int
  {
    var low := x % 0x1_0000_0000;
    if low < 0x8000_0000 then low else low - 0x1_0000_0000
  }

  /** uint256_bit_is_set exactly as written: the 64-bit mask is returned through `int`,
      so a set bit at position 32..63 of its limb comes back as 0. */
  function BitIsSetAsWritten(val: UInt256, index: nat): (r: int)
    requires index < 256
    ensures r != 0 <==> Bit(ToNat(val), index) == 1 && index % 64 < 32
  {
    MaskAsInt32(index % 64);
    ToInt32(BitIsSet(val, index))
  }

  /** 2^k survives the conversion to `int` exactly when k < 32. */
  lemma MaskAsInt32(k: nat)
    requires k < 64
    ensures Pow2(k) < BASE
    ensures ToInt32(0) == 0
    ensures ToInt32(Pow2(k)) != 0 <==> k < 32
  {
    Pow2Below(k, 64);
    Pow2Of64();
    if k < 32 {
      LowMask(k);
    } else {
      HighMask(k);
    }
  }

  lemma LowMask(k: nat)
    requires k < 32
    ensures Pow2(k) % 0x1_0000_0000 == Pow2(k)
  {
    Pow2Below(k, 32);
    Pow2Of32();
    DivModUnique(Pow2(k), 0x1_0000_0000, 0, Pow2(k));
  }

  lemma HighMask(k: nat)
    requires 32 <= k
    ensures Pow2(k) % 0x1_0000_0000 == 0
  {
    assert Pow2(k) == Pow2(k - 32) * 0x1_0000_0000 by {
      Pow2Of32();
      Pow2AddKnown(32, 0x1_0000_0000, k - 32);
    }
    DivModUnique(Pow2(k), 0x1_0000_0000, Pow2(k - 32), 0);
  }

  lemma Pow2AddKnown(a: nat, pa: nat, b: nat)
    requires Pow2(a) == pa
    ensures Pow2(a + b) == Pow2(b) * pa
  {
    Pow2Add(a, b);
  }

  /** Bit 32 of 2^32 is set, yet the source's bit test reports it clear. */
  lemma BitIsSetAsWrittenMissesBit32()
    ensures Bit(ToNat(CreateFromU64(0x1_0000_0000)), 32) == 1
    ensures BitIsSetAsWritten(CreateFromU64(0x1_0000_0000), 32) == 0
  {
    assert Bit(0x1_0000_0000, 32) == 1 by {
      Pow2Of32();
      BitOfSum(0, 1, 32, 32);
    }
  }
}
