/** Conversions between UInt256 values and digit strings:
    uint256_create_from_hex, uint256_create_from_bin and uint256_format_as_hex. */
module Text {
  import opened Words
  import opened Limbs
  import opened Digits

  /** How many digits are left of an n-digit string once i limbs have been cut
      off its right end, g digits at a time (the last cut takes whatever is left). */
  function Remaining(n: nat, g: nat, i: nat): (m: nat)
    ensures m <= n
  {
    if i == 0 then n
    else
      var m := Remaining(n, g, i - 1);
      if m > g then m - g else 0
  }

  /** strtoul on at most one limb's worth of digits: the result fits in 64 bits. */
  function ParseLimb(s: string, rx: Radix): (r: U64)
    requires AllDigits(s, rx) && |s| <= rx.GroupLen()
    ensures r == Value(s, rx)
  {
    ValueBound(s, rx);
    BaseIsPow2(rx);
    Pow2Monotone(rx.Bits() * |s|, 64);
    Pow2Of64();
    Value(s, rx)
  }

  /** Limb i of the parsed value: the i-th group of GroupLen digits counted from
      the right end of s (the leftmost group may be shorter; past it, empty). */
  function Group(s: string, rx: Radix, i: nat): U64
    requires AllDigits(s, rx)
  {
    var hi, lo := Remaining(|s|, rx.GroupLen(), i), Remaining(|s|, rx.GroupLen(), i + 1);
    ParseLimb(s[lo..hi], rx)
  }

  /** The value uint256_create_from_hex / uint256_create_from_bin build from s. */
  function FromDigits(s: string, rx: Radix): UInt256
    requires AllDigits(s, rx)
  {
    UInt256([Group(s, rx, 0), Group(s, rx, 1), Group(s, rx, 2), Group(s, rx, 3)])
  }

  /** The value of the digits still to be parsed once i limbs have been cut off. */
  function Rest(s: string, rx: Radix, i: nat): nat
    requires AllDigits(s, rx)
  {
    Value(s[..Remaining(|s|, rx.GroupLen(), i)], rx)
  }

  /** Cutting limb i off the digits left: their value is that limb plus 2^64
      times the value of what is left after it. */
  lemma GroupStep(s: string, rx: Radix, i: nat)
    requires AllDigits(s, rx)
    ensures Rest(s, rx, i) == Group(s, rx, i) + BASE * Rest(s, rx, i + 1)
  {
    var g := rx.GroupLen();
    var hi, lo := Remaining(|s|, g, i), Remaining(|s|, g, i + 1);
    assert lo == if hi > g then hi - g else 0;
    var high, low := s[..lo], s[lo..hi];
    assert s[..hi] == high + low;
    if hi > g {
      CutValue(high, low, rx);
    } else {
      assert high == [];
      assert high + low == low;
    }
  }

  /** A full group of digits below a: the group is the low limb, a the rest. */
  lemma CutValue(a: string, b: string, rx: Radix)
    requires AllDigits(a, rx) && AllDigits(b, rx) && |b| == rx.GroupLen()
    ensures AllDigits(a + b, rx)
    ensures Value(a + b, rx) == Value(b, rx) + BASE * Value(a, rx)
  {
    ValueConcat(a, b, rx);
    BaseIsPow2(rx);
    Pow2Of64();
  }

  /** The parsed value is the number the digits stand for, modulo 2^256:
      digits beyond the 256th bit are dropped. */
  lemma FromDigitsValue(s: string, rx: Radix)
    requires AllDigits(s, rx)
    ensures ToNat(FromDigits(s, rx)) == Value(s, rx) % MODULUS
  {
    var r := FromDigits(s, rx);
    var g0, g1, g2, g3 := Group(s, rx, 0), Group(s, rx, 1), Group(s, rx, 2), Group(s, rx, 3);
    assert r.data == [g0, g1, g2, g3];
    var v1, v2, v3, v4 := Rest(s, rx, 1), Rest(s, rx, 2), Rest(s, rx, 3), Rest(s, rx, 4);
    assert v1 == g1 + BASE * v2 by { GroupStep(s, rx, 1); }
    FirstGroup(s, rx);
    assert v2 == g2 + BASE * v3 by { GroupStep(s, rx, 2); }
    assert v3 == g3 + BASE * v4 by { GroupStep(s, rx, 3); }
    ToNatExpand(r);
    LimbChain(Value(s, rx), v1, v2, v3, v4, g0, g1, g2, g3);
  }

  /** The first limb cut: the whole string is limb 0 plus 2^64 times what is left. */
  lemma FirstGroup(s: string, rx: Radix)
    requires AllDigits(s, rx)
    ensures Value(s, rx) == Group(s, rx, 0) + BASE * Rest(s, rx, 1)
  {
    GroupStep(s, rx, 0);
    RestZero(s, rx);
  }

  lemma RestZero(s: string, rx: Radix)
    requires AllDigits(s, rx)
    ensures Rest(s, rx, 0) == Value(s, rx)
  {
    assert s[..|s|] == s;
  }

  lemma LimbChain(v0: nat, v1: nat, v2: nat, v3: nat, v4: nat, g0: U64, g1: U64, g2: U64, g3: U64)
    requires v0 == g0 + BASE * v1 && v1 == g1 + BASE * v2 && v2 == g2 + BASE * v3 && v3 == g3 + BASE * v4
    ensures v0 % MODULUS == g0 + BASE * (g1 + BASE * (g2 + BASE * g3))
  {
    var low := g0 + BASE * (g1 + BASE * (g2 + BASE * g3));
    assert low < MODULUS;
    assert v0 == low + MODULUS * v4;
    DivModUnique(v0, MODULUS, v4, low);
  }

  /** The loop shared by uint256_create_from_hex and uint256_create_from_bin:
      a working copy `str` of the digits loses one group of digits from its right
      end per limb, and strtoul of that group becomes the limb. */
  method ParseGroups(digits: string, rx: Radix) returns (result: UInt256)
    requires AllDigits(digits, rx)
    ensures result == FromDigits(digits, rx)
  {
    var str := digits;
    var data: seq<U64> := [0, 0, 0, 0];
    for i := 0 to 4
      invariant |data| == 4
      invariant str == digits[..Remaining(|digits|, rx.GroupLen(), i)]
      invariant i > 0 ==> data[0] == Group(digits, rx, 0)
      invariant i > 1 ==> data[1] == Group(digits, rx, 1)
      invariant i > 2 ==> data[2] == Group(digits, rx, 2)
      invariant i > 3 ==> data[3] == Group(digits, rx, 3)
    {
      var limb;
      limb, str := CutGroup(digits, rx, i, str);
      data := data[i := limb];
    }
    result := UInt256(data);
  }

  /** The body of the parsing loop, on the digits left, `str`: more than one
      group's worth and the rightmost group is parsed and cut off; none and the
      limb is 0; otherwise all of `str` is parsed and emptied. The limb is limb i
      of the parsed value, and what stays is the digits left for limb i + 1. */
  method CutGroup(ghost digits: string, rx: Radix, ghost i: nat, str: string) returns (limb: U64, rest: string)
    requires AllDigits(digits, rx)
    requires str == digits[..Remaining(|digits|, rx.GroupLen(), i)]
    ensures limb == Group(digits, rx, i)
    ensures rest == digits[..Remaining(|digits|, rx.GroupLen(), i + 1)]
  {
    var g := rx.GroupLen();
    ghost var hi, lo := Remaining(|digits|, g, i), Remaining(|digits|, g, i + 1);
    if |str| > g {
      var rightmost := str[|str| - g..];
      assert rightmost == digits[lo..hi];
      limb := ParseLimb(rightmost, rx);
      rest := str[..|str| - g];
    } else if |str| == 0 {
      limb := 0;
      rest := str;
      assert digits[lo..hi] == [];
    } else {
      assert str == digits[lo..hi];
      limb := ParseLimb(str, rx);
      rest := [];
    }
  }

  datatype Option<T> = None | Some(value: T)

  /** One pass of the parsing loop exactly as written: `rightmost` is a null
      pointer, so the first branch copies the rightmost group through null. None
      stands for that fault; the other two branches are those of CutGroup. */
  function CutGroupAsWritten(str: string, rx: Radix): Option<(U64, string)>
    requires AllDigits(str, rx)
  {
    if |str| > rx.GroupLen() then None
    else if |str| == 0 then Some((0, str))
    else Some((ParseLimb(str, rx), []))
  }

  /** On the digits left before pass i, a pass as written faults exactly when
      more than one group is left, and otherwise agrees with the corrected pass:
      it gives limb i and leaves the digits for limb i + 1. */
  lemma CutGroupAsWrittenAgrees(digits: string, rx: Radix, i: nat)
    requires AllDigits(digits, rx)
    ensures var str := digits[..Remaining(|digits|, rx.GroupLen(), i)];
      var r := CutGroupAsWritten(str, rx);
      && (r.None? <==> |str| > rx.GroupLen())
      && (r.Some? ==> r.value == (Group(digits, rx, i), digits[..Remaining(|digits|, rx.GroupLen(), i + 1)]))
  {
    var g, hi := rx.GroupLen(), Remaining(|digits|, rx.GroupLen(), i);
    if hi <= g {
      assert Remaining(|digits|, g, i + 1) == 0;
      assert digits[0..hi] == digits[..hi];
      assert digits[..0] == [];
    }
  }

  /** Passes i .. 3 of the parsing loop as written, on the digits `str` still to
      be parsed, after limbs `data` have been filled; None once a pass faults. */
  function PassesAsWritten(str: string, rx: Radix, i: nat, data: seq<U64>): (r: Option<seq<U64>>)
    requires AllDigits(str, rx) && i <= 4 && |data| == i
    ensures r.Some? ==> |r.value| == 4
    decreases 4 - i
  {
    if i == 4 then Some(data)
    else
      match CutGroupAsWritten(str, rx)
      case None => None
      case Some((limb, rest)) => PassesAsWritten(rest, rx, i + 1, data + [limb])
  }

  /** uint256_create_from_hex / uint256_create_from_bin as written: the parse
      faults exactly when there is more than one group of digits, and otherwise
      gives the same value as the corrected parse. */
  function ParseAsWritten(s: string, rx: Radix): (r: Option<UInt256>)
    requires AllDigits(s, rx)
    ensures r.None? <==> |s| > rx.GroupLen()
    ensures r.Some? ==> r.value == FromDigits(s, rx)
  {
    PassesAsWrittenValue(s, rx);
    match PassesAsWritten(s, rx, 0, [])
    case None => None
    case Some(data) => Some(UInt256(data))
  }

  /** The four passes as written fault on the first one when there is more than
      one group of digits, and otherwise fill in the limbs of FromDigits. */
  lemma PassesAsWrittenValue(s: string, rx: Radix)
    requires AllDigits(s, rx)
    ensures |s| > rx.GroupLen() ==> PassesAsWritten(s, rx, 0, []) == None
    ensures |s| <= rx.GroupLen() ==> && PassesAsWritten(s, rx, 0, []).Some?
                                      && PassesAsWritten(s, rx, 0, []).value == FromDigits(s, rx).data
  {
    if |s| <= rx.GroupLen() {
      var v := Value(s, rx);
      assert CutGroupAsWritten(s, rx) == Some((v, []));
      assert [] + [v] == [v];
      assert PassesAsWritten(s, rx, 0, []) == PassesAsWritten([], rx, 1, [v]);
      PassesOnEmpty(rx, 1, [v]);
      ShortDigits(s, rx);
    }
  }

  /** Once every digit is parsed, the remaining passes set the remaining limbs to 0. */
  lemma {:induction false} PassesOnEmpty(rx: Radix, i: nat, data: seq<U64>)
    requires i <= 4 && |data| == i
    ensures var r := PassesAsWritten([], rx, i, data);
      r.Some? && r.value[..i] == data && forall k | i <= k < 4 :: r.value[k] == 0
    decreases 4 - i
  {
    if i < 4 {
      assert CutGroupAsWritten([], rx) == Some((0, []));
      PassesOnEmpty(rx, i + 1, data + [0]);
      assert (data + [0])[..i] == data;
    }
  }

  /** At most one group of digits: limb 0 is their value and the others are 0. */
  lemma ShortDigits(s: string, rx: Radix)
    requires AllDigits(s, rx) && |s| <= rx.GroupLen()
    ensures FromDigits(s, rx).data == [Value(s, rx), 0, 0, 0]
  {
    var g := rx.GroupLen();
    assert Remaining(|s|, g, 1) == 0;
    assert Remaining(|s|, g, 2) == 0 && Remaining(|s|, g, 3) == 0 && Remaining(|s|, g, 4) == 0;
    assert s[0..|s|] == s;
    assert s[0..0] == [];
  }

  /** "10000000000000000" (2^64, 17 hex digits) has limbs [0, 1, 0, 0], yet the
      first pass of the parsing loop as written already faults on it. */
  lemma ParseAsWrittenFaults()
    ensures AllDigits("10000000000000000", Hex)
    ensures FromDigits("10000000000000000", Hex).data == [0, 1, 0, 0]
    ensures CutGroupAsWritten("10000000000000000", Hex) == None
  {
    var s := "10000000000000000";
    assert AllDigits(s, Hex);
    assert Remaining(17, 16, 1) == 1 && Remaining(17, 16, 2) == 0;
    assert Remaining(17, 16, 3) == 0 && Remaining(17, 16, 4) == 0;
    assert Group(s, Hex, 0) == 0 by {
      ZeroDigits(s[1..17], Hex);
    }
    assert Group(s, Hex, 1) == 1 by {
      assert s[0..1] == "1";
      assert Value("1", Hex) == Value([], Hex) * 16 + 1;
    }
    assert Group(s, Hex, 2) == 0 && Group(s, Hex, 3) == 0 by {
      assert s[0..0] == [];
    }
  }

  /** uint256_create_from_hex: 16 hex digits (either case) per limb, from the right. */
  method CreateFromHex(hex: string) returns (result: UInt256)
    requires AllDigits(hex, Hex)
    ensures result == FromDigits(hex, Hex)
    ensures ToNat(result) == Value(hex, Hex) % MODULUS
  {
    result := ParseGroups(hex, Hex);
    FromDigitsValue(hex, Hex);
  }

  /** uint256_create_from_bin: 64 binary digits per limb, from the right. */
  method CreateFromBin(bin: string) returns (result: UInt256)
    requires AllDigits(bin, Bin)
    ensures result == FromDigits(bin, Bin)
    ensures ToNat(result) == Value(bin, Bin) % MODULUS
  {
    result := ParseGroups(bin, Bin);
    FromDigitsValue(bin, Bin);
  }

  /** uint256_format_as_hex: the limbs from the most significant down, the first
      nonzero one unpadded and every later one padded to 16 digits, written into a
      buffer of 4·16 + 1 characters; "0" when every limb is zero. The result is the
      plain lower-case hex numeral of the value, and always fits the buffer. */
  method FormatAsHex(val: UInt256) returns (hex: string)
    ensures hex == Unpadded(ToNat(val))
    ensures |hex| <= 64
  {
    var buffer := new char[4 * 16 + 1];
    var len := 0;
    var padded := false;
    var i := 3;
    while i >= 0
      invariant -1 <= i <= 3
      invariant 0 <= len <= 16 * (3 - i)
      invariant !padded ==> len == 0 && ValueOf(val.data[i + 1..]) == 0
      invariant padded ==> ValueOf(val.data[i + 1..]) > 0
      invariant padded ==> buffer[..len] == Unpadded(ValueOf(val.data[i + 1..]))
    {
      var value := val.data[i];
      ghost var high, next := ValueOf(val.data[i + 1..]), ValueOf(val.data[i..]);
      FormatStep(val.data, i, padded);
      var buf: string;
      if !padded {
        if value != 0 {
          buf := Unpadded(value);
          padded := true;
        } else {
          buf := "";
        }
      } else {
        buf := Fixed(value, 16, Hex);
      }
      CopyAt(buffer, len, buf);
      len := len + |buf|;
      buffer[len] := '\0';
      assert padded ==> buffer[..len] == Unpadded(next);
      assert val.data[i..] == val.data[(i - 1) + 1..];
      i := i - 1;
    }
    assert val.data[0..] == val.data;
    if len == 0 {
      buffer[0] := '0';
      buffer[1] := '\0';
      hex := buffer[..1];
    } else {
      hex := buffer[..len];
    }
  }

  /** strncpy(dest + at, text, strlen(text)): the characters of text are written
      from position at on, and the characters before at are kept. */
  method CopyAt(dest: array<char>, at: nat, text: string)
    requires at + |text| <= dest.Length
    modifies dest
    ensures dest[..at + |text|] == old(dest[..at]) + text
    ensures dest[at + |text|..] == old(dest[at + |text|..])
  {
    ghost var before := dest[..at];
    for k := 0 to |text|
      invariant dest[..at + k] == before + text[..k]
      invariant dest[at + |text|..] == old(dest[at + |text|..])
    {
      dest[at + k] := text[k];
    }
  }

  /** One step of the formatting loop: limb i joins the digits of the limbs above it. */
  lemma FormatStep(data: Limbs, i: nat, padded: bool)
    requires i < 4
    requires !padded ==> ValueOf(data[i + 1..]) == 0
    requires padded ==> ValueOf(data[i + 1..]) > 0
    ensures var high, next := ValueOf(data[i + 1..]), ValueOf(data[i..]);
      && (padded ==> next > 0 && Unpadded(high) + Fixed(data[i], 16, Hex) == Unpadded(next))
      && (!padded && data[i] != 0 ==> next > 0 && Unpadded(data[i]) == Unpadded(next))
      && (!padded && data[i] == 0 ==> next == 0)
      && |Unpadded(next)| <= 16 * (4 - i)
      && |Unpadded(data[i])| <= 16
  {
    var high, next := ValueOf(data[i + 1..]), ValueOf(data[i..]);
    ValueOfSuffix(data, i);
    if padded {
      LimbJoin(high, data[i], next);
    }
    LimbDigits(data[i]);
    SuffixDigits(data, i);
  }

  /** A nonzero high part followed by one limb: the limb is written as 16 padded digits. */
  lemma LimbJoin(high: nat, d: U64, n: nat)
    requires high > 0 && n == d + BASE * high
    ensures Unpadded(high) + Fixed(d, 16, Hex) == Unpadded(n)
  {
    Pow2Of64();
    UnpaddedSplit(high, d, 16, n);
  }

  /** A limb takes at most 16 hex digits. */
  lemma LimbDigits(d: U64)
    ensures |Unpadded(d)| <= 16
  {
    Pow2Of64();
    UnpaddedLength(d, 16);
  }

  /** The limbs from i upwards take at most 16 hex digits each. */
  lemma SuffixDigits(data: Limbs, i: nat)
    requires i < 4
    ensures |Unpadded(ValueOf(data[i..]))| <= 16 * (4 - i)
  {
    ValueOfBound(data[i..]);
    assert 64 * |data[i..]| == 4 * (16 * (4 - i));
    UnpaddedLength(ValueOf(data[i..]), 16 * (4 - i));
  }

  /** Formatting then parsing gives back the same value. */
  lemma HexRoundTrip(v: UInt256)
    ensures AllDigits(Unpadded(ToNat(v)), Hex)
    ensures FromDigits(Unpadded(ToNat(v)), Hex) == v
  {
    var s := Unpadded(ToNat(v));
    UnpaddedValue(ToNat(v));
    FromDigitsValue(s, Hex);
    DivModUnique(ToNat(v), MODULUS, 0, ToNat(v));
    ToNatInjective(FromDigits(s, Hex), v);
  }
}
