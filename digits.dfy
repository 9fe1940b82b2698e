/** Digit strings in base 2 and base 16: what `strtoul` reads from them and
    what `sprintf("%lx")` and `sprintf("%016lx")` write. */
module Digits {
  import opened Words

  /** The two bases the UInt256 text conversions use. */
  datatype Radix = Bin | Hex {
    /** Bits per digit. */
    function Bits(): nat
    {
      if Bin? then 1 else 4
    }

    function Base(): nat
    {
      if Bin? then 2 else 16
    }

    /** Digits per 64-bit limb. */
    function GroupLen(): nat
    {
      if Bin? then 64 else 16
    }
  }

  /** A character strtoul accepts as a digit in this base (either case for hex). */
  predicate IsDigit(c: char, rx: Radix)
  {
    match rx
    case Bin => c == '0' || c == '1'
    case Hex => '0' <= c <= '9' || 'a' <= c <= 'f' || 'A' <= c <= 'F'
  }

  /** The characters sprintf's %lx writes. */
  predicate IsLowerHexDigit(c: char)
  {
    '0' <= c <= '9' || 'a' <= c <= 'f'
  }

  predicate AllDigits(s: string, rx: Radix)
  {
    forall k | 0 <= k < |s| :: IsDigit(s[k], rx)
  }

  function DigitValue(c: char, rx: Radix): (d: nat)
    requires IsDigit(c, rx)
    ensures d < rx.Base()
  {
    if c <= '9' then c as int - '0' as int
    else if c <= 'F' then c as int - 'A' as int + 10
    else c as int - 'a' as int + 10
  }

  /** A string of '0's is worth 0. */
  lemma {:induction false} ZeroDigits(s: string, rx: Radix)
    requires forall k | 0 <= k < |s| :: s[k] == '0'
    ensures AllDigits(s, rx) && Value(s, rx) == 0
  {
    if s != [] {
      ZeroDigits(s[..|s| - 1], rx);
    }
  }

  /** The lower-case digit for d. */
  function DigitChar(d: nat, rx: Radix): (c: char)
    requires d < rx.Base()
    ensures IsDigit(c, rx) && IsLowerHexDigit(c) && DigitValue(c, rx) == d
  {
    if d < 10 then ('0' as int + d) as char else ('a' as int + d - 10) as char
  }

  /** The number a digit string stands for, most significant digit first
      (strtoul on a string of valid digits; the empty string gives 0). */
  function Value(s: string, rx: Radix): nat
    requires AllDigits(s, rx)
  {
    if s == [] then 0 else Value(s[..|s| - 1], rx) * rx.Base() + DigitValue(s[|s| - 1], rx)
  }

  /** sprintf("%lx", x): lower-case hex digits of x without leading zeros ("0" for zero). */
  function Unpadded(x: nat): (s: string)
    ensures |s| > 0
  {
    if x < 16 then [DigitChar(x, Hex)] else Unpadded(x / 16) + [DigitChar(x % 16, Hex)]
  }

  /** The digits of Unpadded(x) are lower-case hex digits that spell x, and the
      first one is '0' only when x is zero. */
  lemma {:induction false} UnpaddedValue(x: nat)
    ensures AllDigits(Unpadded(x), Hex) && Value(Unpadded(x), Hex) == x
    ensures forall k | 0 <= k < |Unpadded(x)| :: IsLowerHexDigit(Unpadded(x)[k])
    ensures x > 0 <==> Unpadded(x)[0] != '0'
  {
    var s := Unpadded(x);
    if x >= 16 {
      UnpaddedValue(x / 16);
      assert s[..|s| - 1] == Unpadded(x / 16);
    }
  }

  /** The w lowest digits of x, zero-padded: sprintf("%016lx", x) is Fixed(x, 16, Hex). */
  function Fixed(x: nat, w: nat, rx: Radix): (s: string)
    ensures |s| == w
  {
    if w == 0 then [] else Fixed(x / rx.Base(), w - 1, rx) + [DigitChar(x % rx.Base(), rx)]
  }

  /** Fixed writes only lower-case digits of its base. */
  lemma {:induction false} FixedDigits(x: nat, w: nat, rx: Radix)
    ensures AllDigits(Fixed(x, w, rx), rx)
    ensures forall k | 0 <= k < w :: IsLowerHexDigit(Fixed(x, w, rx)[k])
  {
    if w > 0 {
      FixedDigits(x / rx.Base(), w - 1, rx);
    }
  }

  lemma BaseIsPow2(rx: Radix)
    ensures rx.Base() == Pow2(rx.Bits()) && rx.Bits() * rx.GroupLen() == 64
  {
    assert Pow2(1) == 2 && Pow2(4) == 16;
  }

  lemma {:induction false} ValueBound(s: string, rx: Radix)
    requires AllDigits(s, rx)
    ensures Value(s, rx) < Pow2(rx.Bits() * |s|)
  {
    if s != [] {
      var n := |s|;
      ValueBound(s[..n - 1], rx);
      Pow2Step(rx, n - 1);
      DigitBoundStep(Value(s[..n - 1], rx), DigitValue(s[n - 1], rx), Pow2(rx.Bits() * (n - 1)), rx.Base());
    }
  }

  lemma DigitBoundStep(v: nat, d: nat, p: nat, b: nat)
    requires v < p && d < b
    ensures v * b + d < p * b
  {
    MulBounds(p - v, b);
  }

  /** Appending digits: the value of a + b is a's value shifted past b's digits, plus b's value. */
  lemma {:induction false} ValueConcat(a: string, b: string, rx: Radix)
    requires AllDigits(a, rx) && AllDigits(b, rx)
    ensures AllDigits(a + b, rx)
    ensures Value(a + b, rx) == Value(a, rx) * Pow2(rx.Bits() * |b|) + Value(b, rx)
  {
    if b == [] {
      assert a + b == a;
      assert Pow2(rx.Bits() * |b|) == 1;
    } else {
      var n := |b|;
      var b', c := b[..n - 1], b[n - 1];
      assert b == b' + [c];
      assert a + b == (a + b') + [c];
      ValueConcat(a, b', rx);
      ValueSnoc(a + b', c, rx);
      ValueSnoc(b', c, rx);
      Pow2Step(rx, n - 1);
      ConcatStep(Value(a, rx), Value(b', rx), Pow2(rx.Bits() * (n - 1)), rx.Base(), DigitValue(c, rx));
    }
  }

  /** One more digit on the right: the value so far times the base, plus the digit. */
  lemma ValueSnoc(s: string, c: char, rx: Radix)
    requires AllDigits(s, rx) && IsDigit(c, rx)
    ensures AllDigits(s + [c], rx)
    ensures Value(s + [c], rx) == Value(s, rx) * rx.Base() + DigitValue(c, rx)
  {
    assert (s + [c])[..|s|] == s;
  }

  lemma ConcatStep(va: nat, vb: nat, p: nat, base: nat, d: nat)
    ensures (va * p + vb) * base + d == va * (p * base) + (vb * base + d)
  {
  }

  /** Fixed(x, w) spells out x when x has at most w digits. */
  lemma {:induction false} FixedValue(x: nat, w: nat, rx: Radix)
    requires x < Pow2(rx.Bits() * w)
    ensures AllDigits(Fixed(x, w, rx), rx) && Value(Fixed(x, w, rx), rx) == x
  {
    FixedDigits(x, w, rx);
    if w > 0 {
      var s, base := Fixed(x, w, rx), rx.Base();
      var q := x / base;
      assert q < Pow2(rx.Bits() * (w - 1)) by {
        Pow2Step(rx, w - 1);
        QuotientBound(x, base, Pow2(rx.Bits() * (w - 1)));
      }
      FixedValue(q, w - 1, rx);
      FixedLast(x, w, rx);
      ValueSnoc(Fixed(q, w - 1, rx), DigitChar(x % base, rx), rx);
    }
  }

  /** One more digit is Bits() more bits. */
  lemma Pow2Step(rx: Radix, n: nat)
    ensures Pow2(rx.Bits() * (n + 1)) == Pow2(rx.Bits() * n) * rx.Base()
  {
    BaseIsPow2(rx);
    assert rx.Bits() * n + rx.Bits() == rx.Bits() * (n + 1);
    Pow2Add(rx.Bits() * n, rx.Bits());
  }

  lemma QuotientBound(x: nat, b: nat, p: nat)
    requires b > 0 && x < p * b
    ensures x / b < p
  {
    MulBounds(x / b - p, b);
  }

  /** Character w - 1 - j of the w-digit binary string of x is bit j of x. */
  lemma {:induction false} FixedBit(x: nat, w: nat, j: nat)
    requires j < w
    ensures Fixed(x, w, Bin)[w - 1 - j] == DigitChar(Bit(x, j), Bin)
  {
    if j > 0 {
      FixedBit(x / 2, w - 1, j - 1);
    }
  }

  /** x has at most w hex digits when x < 16^w. */
  lemma {:induction false} UnpaddedLength(x: nat, w: nat)
    requires 0 < w && x < Pow2(4 * w)
    ensures |Unpadded(x)| <= w
  {
    if x >= 16 {
      assert w > 1;
      Pow2Step(Hex, w - 1);
      QuotientBound(x, 16, Pow2(4 * (w - 1)));
      UnpaddedLength(x / 16, w - 1);
    }
  }

  /** Writing a number n with a nonzero high part a above w hex digits b is writing
      a without padding and b padded to w digits. */
  lemma {:induction false} UnpaddedSplit(a: nat, b: nat, w: nat, n: nat)
    requires a > 0 && b < Pow2(4 * w) && n == a * Pow2(4 * w) + b
    ensures Unpadded(n) == Unpadded(a) + Fixed(b, w, Hex)
  {
    if w > 0 {
      var p := Pow2(4 * (w - 1));
      Pow2Step(Hex, w - 1);
      SplitStep(a, b, p, Pow2(4 * w), n);
      UnpaddedSplit(a, b / 16, w - 1, n / 16);
      SplitJoin(Unpadded(a), n, b, w);
    } else {
      assert Pow2(4 * w) == 1;
      assert n == a;
      assert Fixed(b, w, Hex) == [];
      assert Unpadded(a) + [] == Unpadded(a);
    }
  }

  /** Putting the last hex digit back on both sides of the split. */
  lemma SplitJoin(u: string, n: nat, b: nat, w: nat)
    requires n >= 16 && w > 0 && n % 16 == b % 16
    requires Unpadded(n / 16) == u + Fixed(b / 16, w - 1, Hex)
    ensures Unpadded(n) == u + Fixed(b, w, Hex)
  {
    UnpaddedLast(n);
    FixedLast(b, w, Hex);
    SeqAssoc(u, Fixed(b / 16, w - 1, Hex), [DigitChar(b % 16, Hex)]);
  }

  /** The last digit of x >= 16 written in hex. */
  lemma UnpaddedLast(x: nat)
    requires x >= 16
    ensures Unpadded(x) == Unpadded(x / 16) + [DigitChar(x % 16, Hex)]
  {
  }

  lemma FixedLast(x: nat, w: nat, rx: Radix)
    requires w > 0
    ensures Fixed(x, w, rx) == Fixed(x / rx.Base(), w - 1, rx) + [DigitChar(x % rx.Base(), rx)]
  {
  }

  lemma SeqAssoc(x: string, y: string, z: string)
    ensures (x + y) + z == x + (y + z)
  {
  }

  /** Dividing a * 16p + b by 16 splits off the last hex digit of b. */
  lemma SplitStep(a: nat, b: nat, p: nat, q: nat, n: nat)
    requires a > 0 && q == p * 16 && b < q && n == a * q + b
    ensures n >= 16 && b / 16 < p
    ensures n / 16 == a * p + b / 16 && n % 16 == b % 16
  {
    MulBounds(a, q);
    assert a * q == 16 * (a * p);
    DivModUnique(n, 16, a * p + b / 16, b % 16);
    QuotientBound(b, 16, p);
  }
}
