/** Powers of two, single bits and the Euclidean division facts that the
    limb arithmetic of the 256-bit integer rests on. Bits are peeled off
    by halving, so that most proofs divide only by the constant 2. */
module Words {

  /** 2^n */
  function Pow2(n: nat): (r: nat)
    ensures r >= 1
  {
    if n == 0 then 1 else 2 * Pow2(n - 1)
  }

  /** Bit k of n (bit 0 is the least significant). */
  function Bit(n: nat, k: nat): (b: nat)
    ensures b < 2
  {
    if k == 0 then n % 2 else Bit(n / 2, k - 1)
  }

  /** n with its k lowest bits dropped (n / 2^k). */
  function Shr(n: nat, k: nat): nat
  {
    if k == 0 then n else Shr(n / 2, k - 1)
  }

  /** The number formed by bits 0 .. i - 1 of n. */
  function LowBits(n: nat, i: nat): nat
  {
    if i == 0 then 0 else LowBits(n, i - 1) + Bit(n, i - 1) * Pow2(i - 1)
  }

  /** The bitwise AND of two naturals (C's `&`), one bit pair at a time. */
  function And(x: nat, y: nat): nat
  {
    if x == 0 || y == 0 then 0
    else And(x / 2, y / 2) * 2 + (if x % 2 == 1 && y % 2 == 1 then 1 else 0)
  }

  /** Bit j of x & y is set exactly when bit j is set in both. */
  lemma {:induction false} AndBit(x: nat, y: nat, j: nat)
    ensures Bit(And(x, y), j) == Bit(x, j) * Bit(y, j)
  {
    if x == 0 || y == 0 {
      BitOfZero(j);
    } else if j > 0 {
      AndBit(x / 2, y / 2, j - 1);
    }
  }

  /** Masking with the single bit 2^k keeps bit k of x and nothing else. */
  lemma {:induction false} AndPow2(x: nat, k: nat)
    ensures And(x, Pow2(k)) == if Bit(x, k) == 1 then Pow2(k) else 0
  {
    if x == 0 {
      BitOfZero(k);
    } else if k == 0 {
      assert And(x / 2, 0) == 0;
    } else {
      var p := Pow2(k - 1);
      assert Pow2(k) == 2 * p;
      assert And(x, Pow2(k)) == And(x / 2, p) * 2;
      AndPow2(x / 2, k - 1);
    }
  }

  lemma {:induction false} Pow2Add(a: nat, b: nat)
    ensures Pow2(a + b) == Pow2(a) * Pow2(b)
  {
    if b > 0 {
      Pow2Add(a, b - 1);
      calc {
        Pow2(a + b);
        2 * Pow2(a + b - 1);
        2 * (Pow2(a) * Pow2(b - 1));
        Pow2(a) * (2 * Pow2(b - 1));
      }
    }
  }

  lemma {:induction false} Pow2Monotone(a: nat, b: nat)
    requires a <= b
    ensures Pow2(a) <= Pow2(b)
  {
    if a < b {
      Pow2Monotone(a, b - 1);
    }
  }

  lemma Pow2Of256()
    ensures Pow2(256) == 0x1_0000_0000_0000_0000_0000_0000_0000_0000_0000_0000_0000_0000_0000_0000_0000_0000
  {
    Pow2Of64();
    Pow2Square(64, 0x1_0000_0000_0000_0000);
    Pow2Square(128, 0x1_0000_0000_0000_0000_0000_0000_0000_0000);
  }

  lemma Pow2Of64()
    ensures Pow2(64) == 0x1_0000_0000_0000_0000
  {
    Pow2Of32();
    Pow2Square(32, 0x1_0000_0000);
  }

  lemma Pow2Of32()
    ensures Pow2(4) == 16 && Pow2(32) == 0x1_0000_0000
  {
    Pow2Square(4, 16);
    Pow2Square(8, 0x100);
    Pow2Square(16, 0x1_0000);
  }

  lemma Pow2Square(n: nat, p: nat)
    requires Pow2(n) == p
    ensures Pow2(n + n) == p * p
  {
    Pow2Add(n, n);
  }

  /** Quotient and remainder are unique: any q, r with n == q * m + r and
      0 <= r < m are Dafny's n / m and n % m. */
  lemma DivModUnique(n: int, m: int, q: int, r: int)
    requires m > 0 && 0 <= r < m && n == q * m + r
    ensures n / m == q && n % m == r
  {
    var q0 := n / m;
    MulBounds(q - q0, m);
    assert (q - q0) * m == q * m - q0 * m;
  }

  lemma MulBounds(d: int, m: int)
    requires m > 0
    ensures d >= 1 ==> d * m >= m
    ensures d <= -1 ==> d * m <= -m
  {
  }

  /** Reducing both operands first does not change a sum modulo m. */
  lemma ModAdd(a: nat, b: nat, m: nat)
    requires m > 0
    ensures (a % m + b % m) % m == (a + b) % m
  {
    var s := a % m + b % m;
    assert a + b == (a / m + b / m) * m + s;
    DivModUnique(s, m, s / m, s % m);
    DivModUnique(a + b, m, a / m + b / m + s / m, s % m);
  }

  /** Halving moves every bit down by one place. */
  lemma {:induction false} BitOfShr(n: nat, i: nat, j: nat)
    ensures Bit(n, i + j) == Bit(Shr(n, i), j)
  {
    if i > 0 {
      BitOfShr(n / 2, i - 1, j);
    }
  }

  /** Peeling the lowest bit off a low-bits prefix. */
  lemma {:induction false} LowBitsPeel(n: nat, i: nat)
    ensures LowBits(n, i + 1) == n % 2 + 2 * LowBits(n / 2, i)
  {
    if i > 0 {
      LowBitsPeel(n, i - 1);
      assert Bit(n, i) == Bit(n / 2, i - 1);
      assert Pow2(i) == 2 * Pow2(i - 1);
      PeelStep(n % 2, LowBits(n / 2, i - 1), Bit(n, i), Pow2(i - 1));
    }
  }

  lemma PeelStep(low: nat, rest: nat, b: nat, p: nat)
    ensures low + 2 * rest + b * (2 * p) == low + 2 * (rest + b * p)
  {
  }

  lemma {:induction false} LowBitsBound(n: nat, i: nat)
    ensures LowBits(n, i) < Pow2(i)
  {
    if i > 0 {
      LowBitsBound(n, i - 1);
      assert Bit(n, i - 1) * Pow2(i - 1) <= Pow2(i - 1) by {
        if Bit(n, i - 1) == 0 {
        }
      }
    }
  }

  /** n splits into its low i bits and the rest shifted up by i. */
  lemma {:induction false} LowBitsSplit(n: nat, i: nat)
    ensures n == LowBits(n, i) + Pow2(i) * Shr(n, i)
  {
    if i > 0 {
      LowBitsSplit(n / 2, i - 1);
      LowBitsPeel(n, i - 1);
      HalvingStep(n, LowBits(n / 2, i - 1), Pow2(i - 1), Shr(n / 2, i - 1));
    }
  }

  lemma HalvingStep(n: nat, lo: nat, p: nat, hi: nat)
    requires n / 2 == lo + p * hi
    ensures n == (n % 2 + 2 * lo) + (2 * p) * hi
  {
  }

  /** The low i bits of n are n mod 2^i, and n / 2^i is n halved i times. */
  lemma ModPow2(n: nat, i: nat)
    ensures n % Pow2(i) == LowBits(n, i)
    ensures n / Pow2(i) == Shr(n, i)
  {
    LowBitsSplit(n, i);
    LowBitsBound(n, i);
    DivModOf(n, Pow2(i), Shr(n, i), LowBits(n, i));
  }

  /** DivModUnique with the product written the other way round. */
  lemma DivModOf(n: int, m: int, q: int, r: int)
    requires m > 0 && 0 <= r < m && n == r + m * q
    ensures n / m == q && n % m == r
  {
    DivModUnique(n, m, q, r);
  }

  /** Adding y * 2^j leaves the bits below j alone and puts y's bits above. */
  lemma {:induction false} BitOfSum(x: nat, y: nat, j: nat, k: nat)
    requires x < Pow2(j)
    ensures k < j ==> Bit(x + Pow2(j) * y, k) == Bit(x, k)
    ensures k >= j ==> Bit(x + Pow2(j) * y, k) == Bit(y, k - j)
  {
    if j > 0 {
      var t := Pow2(j - 1) * y;
      assert Pow2(j) * y == 2 * t;
      assert (x + Pow2(j) * y) / 2 == x / 2 + t;
      assert (x + Pow2(j) * y) % 2 == x % 2;
      if k > 0 {
        BitOfSum(x / 2, y, j - 1, k - 1);
      }
    }
  }

  /** Multiplying by 2^s and reducing modulo 2^m is keeping the low m - s bits, then multiplying. */
  lemma MulPow2Mod(n: nat, s: nat, m: nat)
    requires s <= m
    ensures n * Pow2(s) % Pow2(m) == n % Pow2(m - s) * Pow2(s)
  {
    Pow2Add(m - s, s);
    MulModSplit(n, Pow2(m - s), Pow2(s));
  }

  /** MulPow2Mod with 2^m already known as the number pm. */
  lemma MulPow2ModAt(n: nat, s: nat, m: nat, pm: nat)
    requires s <= m && Pow2(m) == pm
    ensures n * Pow2(s) % pm == Pow2(s) * (n % Pow2(m - s))
  {
    MulPow2Mod(n, s, m);
  }

  lemma MulModSplit(n: nat, p1: nat, p2: nat)
    requires p1 > 0 && p2 > 0
    ensures n * p2 % (p1 * p2) == n % p1 * p2
  {
    var q, r := n / p1, n % p1;
    assert n * p2 == q * (p1 * p2) + r * p2 by {
      assert n == q * p1 + r;
    }
    assert r * p2 < p1 * p2 by {
      MulBounds(p1 - r, p2);
    }
    DivModUnique(n * p2, p1 * p2, q, r * p2);
  }

  /** Halving once more is shifting by one more place. */
  lemma {:induction false} ShrStep(n: nat, j: nat)
    ensures Shr(n, j + 1) == Shr(n, j) / 2
  {
    if j > 0 {
      ShrStep(n / 2, j - 1);
    }
  }

  lemma {:induction false} BitOfZero(k: nat)
    ensures Bit(0, k) == 0
  {
    if k > 0 {
      BitOfZero(k - 1);
    }
  }

  /** Reducing modulo 2^m keeps the bits below m. */
  lemma BitOfMod(n: nat, m: nat, k: nat)
    requires k < m
    ensures Bit(n % Pow2(m), k) == Bit(n, k)
  {
    ModPow2(n, m);
    LowBitsSplit(n, m);
    LowBitsBound(n, m);
    BitOfSum(LowBits(n, m), Shr(n, m), m, k);
  }
}
