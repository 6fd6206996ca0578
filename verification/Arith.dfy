/** Facts about integer division that the index computations share. */
module Arith {

  lemma DivModUnique(a: int, b: nat, q: int, m: int)
    requires b > 0
    requires 0 <= m < b && a == q * b + m
    ensures a / b == q && a % b == m
  {
    var d := a / b - q;
    assert d * b == m - a % b by {
      assert a == (a / b) * b + a % b;
      assert (a / b) * b - q * b == d * b;
    }
    if d != 0 {
      NonZeroMultiple(d, b);
    }
  }

  lemma NonZeroMultiple(d: int, b: nat)
    requires d != 0
    ensures d * b >= b || d * b <= -(b as int)
  {
  }

  lemma DivMonotone(a: nat, b: nat, d: nat)
    requires d > 0 && a <= b
    ensures a / d <= b / d
  {
    var q := b / d;
    assert b == q * d + b % d;
    if a / d > q {
      assert a == (a / d) * d + a % d;
      BlocksMonotone(q + 1, a / d, d);
    }
  }

  lemma OneBlockLess(i: nat, b: nat, s: nat)
    requires i > 0 && s == i * b
    ensures s >= b && s - b == (i - 1) * b
  {
  }

  function Quot(p: nat, h: nat): nat
    requires h > 0
  {
    p / h
  }

  function Rem(p: nat, h: nat): (m: nat)
    requires h > 0
    ensures m < h
  {
    p % h
  }

  /** x lies in the block that starts at the multiple of b below it. */
  lemma BlockOf(x: nat, b: nat, s: nat)
    requires b > 0 && s == Quot(x, b) * b
    ensures s <= x < s + b && x == s + Rem(x, b)
  {
  }

  lemma {:induction false} PowIsPower(k: nat)
    ensures IsPowerOfTwo(Pow2(k))
  {
    if k > 0 {
      PowIsPower(k - 1);
    }
  }

  lemma DoublePower(p: nat)
    requires IsPowerOfTwo(p)
    ensures IsPowerOfTwo(2 * p)
  {
  }

  /** `next_power_of_two`: the least power of two not below n. */
  function NextPowerOfTwo(n: nat): (p: nat)
    ensures p > 0 && n <= p && IsPowerOfTwo(p) && (p == 1 || p < 2 * n)
  {
    if n <= 1 then 1
    else
      var half: nat := (n + 1) / 2;
      var p := NextPowerOfTwo(half);
      DoublePower(p);
      PowerBetween(p, half, n);
      2 * p
  }

  /** A power of two below n + 1 is below n when n is odd. */
  lemma PowerBetween(p: nat, half: nat, n: nat)
    requires IsPowerOfTwo(p) && n > 1 && half == (n + 1) / 2 && (p == 1 || p < 2 * half)
    ensures 2 * p < 2 * n
  {
  }

  /** No smaller power of two will do. */
  lemma {:induction false} NextPowerIsLeast(n: nat, q: nat)
    requires IsPowerOfTwo(q) && n <= q
    ensures NextPowerOfTwo(n) <= q
  {
    if n > 1 {
      NextPowerIsLeast((n + 1) / 2, q / 2);
    }
  }

  lemma NextOfPower(n: nat)
    requires IsPowerOfTwo(n)
    ensures NextPowerOfTwo(n) == n
  {
    NextPowerIsLeast(n, n);
  }

  lemma PowerTimesPower(a: nat, b: nat)
    requires IsPowerOfTwo(a) && IsPowerOfTwo(b)
    ensures IsPowerOfTwo(a * b) && a * b > 0
  {
    Pow2Add(Log2(a), Log2(b));
    PowIsPower(Log2(a) + Log2(b));
  }

  lemma LargestIsPower()
    ensures IsPowerOfTwo(0x1_0000_0000)
  {
    assert IsPowerOfTwo(2) && IsPowerOfTwo(4);
    PowerTimesPower(4, 4);
    PowerTimesPower(16, 16);
    PowerTimesPower(0x100, 0x100);
    PowerTimesPower(0x1_0000, 0x1_0000);
  }

  predicate Divides(d: nat, n: nat) { d > 0 && n % d == 0 }

  lemma MultipleDivides(q: int, k: nat)
    requires k > 0
    ensures (q * k) % k == 0 && (q * k) / k == q
  {
    DivModUnique(q * k, k, q, 0);
  }

  /** A power of two, as `usize::is_power_of_two` decides it. */
  predicate IsPowerOfTwo(n: nat) {
    n == 1 || (n > 1 && n % 2 == 0 && IsPowerOfTwo(n / 2))
  }

  function Pow2(k: nat): (p: nat)
    ensures p > 0
  {
    if k == 0 then 1 else 2 * Pow2(k - 1)
  }

  /** The exponent of a power of two: `trailing_zeros`. */
  function Log2(n: nat): (k: nat)
    requires IsPowerOfTwo(n)
    ensures Pow2(k) == n
  {
    if n == 1 then 0 else 1 + Log2(n / 2)
  }

  lemma {:induction false} Pow2Add(j: nat, k: nat)
    ensures Pow2(j + k) == Pow2(j) * Pow2(k)
  {
    if j > 0 {
      Pow2Add(j - 1, k);
      TwiceProduct(Pow2(j - 1), Pow2(k));
    }
  }

  lemma TwiceProduct(a: nat, b: nat)
    ensures (2 * a) * b == 2 * (a * b)
  {
  }

  lemma {:induction false} Pow2Below(k: nat, l: nat)
    requires k < l
    ensures Pow2(k) < Pow2(l)
  {
    if k + 1 < l {
      Pow2Below(k, l - 1);
    }
  }

  lemma Pow2Quotient(l: nat, k: nat)
    requires k <= l
    ensures Pow2(l) % Pow2(k) == 0 && Pow2(l) / Pow2(k) == Pow2(l - k)
  {
    Pow2Add(l - k, k);
    MultipleDivides(Pow2(l - k), Pow2(k));
  }

  /** Quotient and remainder by 2h from those by h. */
  lemma SplitBlocks(a: nat, q: nat, c: nat, h: nat)
    requires a == 2 * q + c && c < 2
    ensures a * h == q * (2 * h) + c * h && c * h == if c == 0 then 0 else h
  {
  }

  lemma DivModDouble(p: nat, h: nat)
    requires h > 0
    ensures Quot(p, 2 * h) == Quot(p, h) / 2
    ensures Rem(p, 2 * h) == (if Quot(p, h) % 2 == 0 then 0 else h) + Rem(p, h)
  {
    var a, m := p / h, p % h;
    var q, c := a / 2, a % 2;
    assert p == a * h + m;
    SplitBlocks(a, q, c, h);
    assert 0 <= c * h + m < 2 * h;
    DivModUnique(p, 2 * h, q, c * h + m);
  }

  lemma DivModShift(p: nat, h: nat)
    requires h > 0
    ensures Quot(p + h, h) == Quot(p, h) + 1 && Rem(p + h, h) == Rem(p, h)
  {
    assert p == (p / h) * h + p % h;
    assert p + h == (p / h + 1) * h + p % h;
    DivModUnique(p + h, h, p / h + 1, p % h);
  }

  /** A power of two no larger than another divides it, and the quotient is a power of two. */
  lemma {:induction false} PowersOfTwoDivide(n: nat, m: nat)
    requires IsPowerOfTwo(n) && IsPowerOfTwo(m) && m <= n
    ensures n % m == 0 && IsPowerOfTwo(n / m) && n == m * (n / m)
    decreases m
  {
    if m > 1 {
      PowersOfTwoDivide(n / 2, m / 2);
      var h, q := m / 2, (n / 2) / (m / 2);
      ProductDivides(n, m, h, q);
    }
  }

  lemma ProductDivides(n: nat, m: nat, h: nat, q: nat)
    requires m > 0 && m == 2 * h && n == 2 * (h * q)
    ensures n % m == 0 && n / m == q && n == m * q
  {
    assert q * m == q * (2 * h) == 2 * (h * q);
    DivModUnique(n, m, q, 0);
  }

  lemma BlocksMonotone(q: nat, m: nat, b: nat)
    requires q <= m
    ensures q * b <= m * b
  {
  }

  /** Index j of block row b stays inside m rows of length q. */
  lemma GridInRange(m: nat, q: nat, b: nat, j: nat)
    requires b < q && j < m
    ensures b + j * q < m * q
  {
    BlocksMonotone(j + 1, m, q);
    assert (j + 1) * q == j * q + q;
  }

  // ---------- shifts ----------

  function Shl(x: nat, k: nat): nat {
    if k == 0 then x else 2 * Shl(x, k - 1)
  }

  function Shr(x: nat, k: nat): nat {
    if k == 0 then x else Shr(x, k - 1) / 2
  }

  lemma {:induction false} ShlDouble(j: nat, i: nat)
    ensures Shl(2 * j, i) == Shl(j, i + 1)
  {
    if i > 0 {
      ShlDouble(j, i - 1);
    }
  }

  lemma {:induction false} ShlNext(j: nat, i: nat)
    ensures Shl(j + 1, i) == Shl(j, i) + Pow2(i)
  {
    if i > 0 {
      ShlNext(j, i - 1);
    }
  }

  lemma {:induction false} ShlIsMultiply(x: nat, k: nat)
    ensures Shl(x, k) == x * Pow2(k)
  {
    if k > 0 {
      ShlIsMultiply(x, k - 1);
      TwiceProduct(Pow2(k - 1), x);
    }
  }

  lemma {:induction false} ShrIsDivide(x: nat, k: nat)
    ensures Shr(x, k) == Quot(x, Pow2(k))
  {
    if k > 0 {
      ShrIsDivide(x, k - 1);
      DivModDouble(x, Pow2(k - 1));
    }
  }

  lemma {:induction false} ShrOfShl(x: nat, s: nat, d: nat)
    requires d <= s
    ensures Shr(Shl(x, s), d) == Shl(x, s - d)
  {
    if d > 0 {
      ShrOfShl(x, s, d - 1);
    }
  }

  /** A block of length 2^e numbered below 2^k ends within 2^(k + e). */
  lemma {:induction false} ShlBlockFits(c: nat, k: nat, e: nat)
    requires c < Pow2(k)
    ensures Shl(c, e) + Pow2(e) <= Pow2(k + e)
  {
    if e > 0 {
      ShlBlockFits(c, k, e - 1);
    }
  }

  /** x >> d lies in the block of length 2^(s - d) numbered x >> s. */
  lemma {:induction false} ShrInBlock(x: nat, s: nat, d: nat)
    requires d <= s
    ensures Shl(Shr(x, s), s - d) <= Shr(x, d) < Shl(Shr(x, s), s - d) + Pow2(s - d)
    decreases s - d
  {
    if d < s {
      ShrInBlock(x, s, d + 1);
    }
  }
}
