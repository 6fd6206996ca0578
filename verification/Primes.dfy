/** Primes, inverses modulo a prime, and the binomial coefficients a prime divides. */
module Primes {
  import opened Arith

  ghost predicate IsPrime(p: nat) { p > 1 && forall d :: 1 < d < p ==> !Divides(d, p) }

  /** The extended Euclidean algorithm: a x + b y = g. */
  function ExtendedGcd(a: nat, b: nat): (c: (int, int, nat))
    decreases b
  {
    if b == 0 then (1, 0, a)
    else
      var (u, v, g) := ExtendedGcd(b, a % b);
      (v, u - (a / b) * v, g)
  }

  /** The third component is the combination of the inputs and divides both. */
  ghost predicate BezoutHolds(a: nat, b: nat) {
    var (x, y, g) := ExtendedGcd(a, b);
    a * x + b * y == g && Divides(g, a) && Divides(g, b)
  }

  lemma {:induction false} Bezout(a: nat, b: nat)
    requires a > 0 || b > 0
    ensures BezoutHolds(a, b)
    decreases b
  {
    if b == 0 {
      BezoutBase(a);
    } else {
      Bezout(b, a % b);
      BezoutNext(a, b, a / b, a % b);
    }
  }

  lemma BezoutBase(a: nat)
    requires a > 0
    ensures BezoutHolds(a, 0)
  {
    assert ExtendedGcd(a, 0) == (1, 0, a);
  }

  lemma BezoutNext(a: nat, b: nat, q: nat, m: nat)
    requires b > 0 && q == a / b && m == a % b && BezoutHolds(b, m)
    ensures BezoutHolds(a, b)
  {
    var (u, v, g) := ExtendedGcd(b, m);
    BlockOf(a, b, q * b);
    EuclidStep(a, b, q, m, u, v, g);
  }

  /** From a pair (b, m) back to (q b + m, b). */
  lemma EuclidStep(a: nat, b: nat, q: nat, m: nat, u: int, v: int, g: nat)
    requires a == q * b + m && b * u + m * v == g && Divides(g, b) && Divides(g, m)
    ensures a * v + b * (u - q * v) == g && Divides(g, a)
  {
    assert a * v == (q * b) * v + m * v;
    assert (q * b) * v == b * (q * v);
    assert b * (u - q * v) == b * u - b * (q * v);
    DividesCombination(g, b, m, q, a);
  }

  lemma DividesCombination(g: nat, b: nat, m: nat, q: nat, a: nat)
    requires Divides(g, b) && Divides(g, m) && a == q * b + m
    ensures Divides(g, a)
  {
    var s, t := b / g, m / g;
    assert b == s * g && m == t * g;
    assert q * (s * g) == (q * s) * g;
    assert (q * s) * g + t * g == (q * s + t) * g;
    MultipleDivides(q * s + t, g);
  }

  /** The inverse modulo p of a number between zero and p. */
  function InverseMod(x: nat, p: nat): nat
    requires p > 0
  {
    ExtendedGcd(x, p).0 % p
  }

  lemma InverseModWorks(x: nat, p: nat)
    requires IsPrime(p) && 0 < x < p
    ensures (x * InverseMod(x, p)) % p == 1
  {
    var (u, v, g) := ExtendedGcd(x, p);
    Bezout(x, p);
    GcdIsOne(x, p, g);
    var w := u % p;
    assert u == (u / p) * p + w;
    assert x * u == (x * (u / p)) * p + x * w;
    assert x * w == -(v + x * (u / p)) * p + 1;
    DivModUnique(x * w, p, -(v + x * (u / p)), 1);
  }

  lemma GcdIsOne(x: nat, p: nat, g: nat)
    requires IsPrime(p) && 0 < x < p && Divides(g, x) && Divides(g, p)
    ensures g == 1
  {
    DivisorBelow(g, x);
  }

  lemma DivisorBelow(g: nat, x: nat)
    requires Divides(g, x) && x > 0
    ensures g <= x
  {
  }

  /** Euclid's lemma, for a factor below the prime. */
  lemma PrimeDividesFactor(p: nat, k: nat, c: nat)
    requires IsPrime(p) && 0 < k < p && Divides(p, k * c)
    ensures Divides(p, c)
  {
    var i := InverseMod(k, p);
    InverseModWorks(k, p);
    var q, t := (k * i) / p, (k * c) / p;
    assert k * i == q * p + 1;
    assert k * c == t * p;
    assert c == (i * t - q * c) * p by {
      assert (k * i) * c == i * (k * c);
      assert (q * p + 1) * c == (q * c) * p + c;
      assert i * (t * p) == (i * t) * p;
    }
    MultipleDivides(i * t - q * c, p);
  }

  // ---------- binomial coefficients ----------

  function Choose(n: nat, k: nat): nat {
    if k == 0 then 1 else if n == 0 then 0 else Choose(n - 1, k - 1) + Choose(n - 1, k)
  }

  lemma {:induction false} ChooseEnds(n: nat, k: nat)
    requires k >= n
    ensures Choose(n, k) == if k == n then 1 else 0
  {
    if n > 0 {
      ChooseEnds(n - 1, k - 1);
      ChooseEnds(n - 1, k);
    }
  }

  /** k C(n, k) = n C(n - 1, k - 1) */
  lemma {:induction false} Absorption(n: nat, k: nat)
    requires n > 0 && k > 0
    ensures k * Choose(n, k) == n * Choose(n - 1, k - 1)
  {
    if n == 1 {
      ChooseEnds(0, k - 1);
      ChooseEnds(0, k);
    } else if k == 1 {
      Absorption(n - 1, 1);
    } else {
      Absorption(n - 1, k - 1);
      Absorption(n - 1, k);
      AbsorbStep(n, k, Choose(n - 2, k - 2), Choose(n - 2, k - 1), Choose(n - 1, k - 1), Choose(n - 1, k));
    }
  }

  lemma AbsorbStep(n: nat, k: nat, a: nat, b: nat, c: nat, d: nat)
    requires n > 0 && k > 0 && c == a + b && (k - 1) * c == (n - 1) * a && k * d == (n - 1) * b
    ensures k * (c + d) == n * c
  {
    assert k * (c + d) == (k - 1) * c + c + k * d;
    assert (n - 1) * (a + b) == (n - 1) * a + (n - 1) * b;
    assert n * c == (n - 1) * c + c;
  }

  lemma PrimeDividesChoose(p: nat, k: nat)
    requires IsPrime(p) && 0 < k < p
    ensures Divides(p, Choose(p, k))
  {
    Absorption(p, k);
    var c := Choose(p - 1, k - 1);
    assert p * c == c * p;
    MultipleDivides(c, p);
    PrimeDividesFactor(p, k, Choose(p, k));
  }
}
