/** Polynomials as coefficient sequences, roots of unity of power-of-two order, and the
    discrete Fourier transform with its inverse. */
module Polynomials {
  import opened Arith
  import opened Rings

  /** The value at x of the polynomial with coefficients a (constant term first). */
  function Eval<T>(r: Ring<T>, a: seq<T>, x: T): T {
    if a == [] then r.zero else r.Add(a[0], r.Mul(x, Eval(r, a[1..], x)))
  }

  function AddSeq<T>(r: Ring<T>, a: seq<T>, b: seq<T>): (c: seq<T>)
    requires |a| == |b|
  {
    seq(|a|, i requires 0 <= i < |a| => r.Add(a[i], b[i]))
  }

  function ScaleSeq<T>(r: Ring<T>, s: T, a: seq<T>): seq<T> {
    seq(|a|, i requires 0 <= i < |a| => r.Mul(s, a[i]))
  }

  /** Coefficients of p(s X) when a are those of p. */
  function Twist<T>(r: Ring<T>, s: T, a: seq<T>): seq<T> {
    seq(|a|, i requires 0 <= i < |a| => r.Mul(Pow(r, s, i), a[i]))
  }

  function Zeros<T>(r: Ring<T>, n: nat): seq<T> { seq(n, _ => r.zero) }

  lemma {:induction false} EvalAdd<T(!new)>(r: Ring<T>, a: seq<T>, b: seq<T>, x: T)
    requires IsRing(r)
    requires |a| == |b|
    ensures Eval(r, AddSeq(r, a, b), x) == r.Add(Eval(r, a, x), Eval(r, b, x))
  {
    if a == [] {
      AddZero(r, r.zero);
    } else {
      var a', b' := a[1..], b[1..];
      assert AddSeq(r, a, b)[1..] == AddSeq(r, a', b');
      EvalAdd(r, a', b', x);
      Distributes(r, x, Eval(r, a', x), Eval(r, b', x));
      AddSwap(r, a[0], b[0], r.Mul(x, Eval(r, a', x)), r.Mul(x, Eval(r, b', x)));
    }
  }

  lemma {:induction false} EvalScale<T(!new)>(r: Ring<T>, s: T, a: seq<T>, x: T)
    requires IsRing(r)
    ensures Eval(r, ScaleSeq(r, s, a), x) == r.Mul(s, Eval(r, a, x))
  {
    if a == [] {
      MulZero(r, s);
    } else {
      assert ScaleSeq(r, s, a)[1..] == ScaleSeq(r, s, a[1..]);
      EvalScale(r, s, a[1..], x);
      MulLeftSwap(r, x, s, Eval(r, a[1..], x));
      Distributes(r, s, a[0], r.Mul(x, Eval(r, a[1..], x)));
    }
  }

  lemma {:induction false} EvalTwist<T(!new)>(r: Ring<T>, s: T, a: seq<T>, x: T)
    requires IsRing(r)
    ensures Eval(r, Twist(r, s, a), x) == Eval(r, a, r.Mul(s, x))
  {
    if a != [] {
      var rest := a[1..];
      var tail := ScaleSeq(r, s, Twist(r, s, rest));
      assert Twist(r, s, a)[1..] == tail by {
        forall i | 0 <= i < |rest|
          ensures Twist(r, s, a)[i + 1] == tail[i]
        {
          MulAssociates(r, s, Pow(r, s, i), rest[i]);
        }
      }
      EvalScale(r, s, Twist(r, s, rest), x);
      EvalTwist(r, s, rest, x);
      MulOne(r, a[0]);
      MulLeftSwap(r, x, s, Eval(r, rest, r.Mul(s, x)));
      MulAssociates(r, s, x, Eval(r, rest, r.Mul(s, x)));
    }
  }

  lemma {:induction false} EvalAppend<T(!new)>(r: Ring<T>, a: seq<T>, b: seq<T>, x: T)
    requires IsRing(r)
    ensures Eval(r, a + b, x) == r.Add(Eval(r, a, x), r.Mul(Pow(r, x, |a|), Eval(r, b, x)))
  {
    if a == [] {
      assert a + b == b;
      MulOne(r, Eval(r, b, x));
      AddZero(r, Eval(r, b, x));
    } else {
      var a' := a[1..];
      assert (a + b)[1..] == a' + b;
      EvalAppend(r, a', b, x);
      var p := r.Mul(Pow(r, x, |a'|), Eval(r, b, x));
      Distributes(r, x, Eval(r, a', x), p);
      MulAssociates(r, x, Pow(r, x, |a'|), Eval(r, b, x));
      AddAssociates(r, a[0], r.Mul(x, Eval(r, a', x)), r.Mul(x, p));
    }
  }

  lemma {:induction false} EvalZeros<T(!new)>(r: Ring<T>, n: nat, x: T)
    requires IsRing(r)
    ensures Eval(r, Zeros(r, n), x) == r.zero
  {
    if n > 0 {
      assert Zeros(r, n)[1..] == Zeros(r, n - 1);
      EvalZeros(r, n - 1, x);
      MulZero(r, x);
      AddZero(r, r.zero);
    }
  }

  lemma EvalPad<T(!new)>(r: Ring<T>, a: seq<T>, n: nat, x: T)
    requires IsRing(r)
    ensures Eval(r, a + Zeros(r, n), x) == Eval(r, a, x)
  {
    EvalAppend(r, a, Zeros(r, n), x);
    EvalZeros(r, n, x);
    MulZero(r, Pow(r, x, |a|));
    AddZero(r, Eval(r, a, x));
  }

  lemma EvalSingleton<T(!new)>(r: Ring<T>, c: T, x: T)
    requires IsRing(r)
    ensures Eval(r, [c], x) == c
  {
    assert Eval(r, [c], x) == r.Add(c, r.Mul(x, Eval(r, [c][1..], x)));
    MulZero(r, x);
    AddZero(r, c);
  }

  // ---------- the ground field inside the extension ----------

  /** The extension-field word of a ground-field word; `from_fp` is a ring homomorphism. */
  function Image<A, B>(emb: A -> B, s: seq<A>): seq<B> {
    seq(|s|, i requires 0 <= i < |s| => emb(s[i]))
  }

  lemma {:induction false} EvalImage<A(!new), B(!new)>(f: Ring<A>, e: Ring<B>, emb: A -> B, a: seq<A>, x: A)
    requires IsHomomorphism(f, e, emb)
    ensures Eval(e, Image(emb, a), emb(x)) == emb(Eval(f, a, x))
  {
    if a != [] {
      EvalImage(f, e, emb, a[1..], x);
      assert Image(emb, a)[1..] == Image(emb, a[1..]);
      HomMul(f, e, emb, x, Eval(f, a[1..], x));
      HomAdd(f, e, emb, a[0], f.Mul(x, Eval(f, a[1..], x)));
    }
  }

  // ---------- roots of unity ----------

  /** w has order n in the sense the transforms need: w^(n/2) = -1, or w = 1 when n = 1. */
  ghost predicate IsRoot<T>(r: Ring<T>, w: T, n: nat) {
    && IsPowerOfTwo(n)
    && if n == 1 then w == r.one else Pow(r, w, n / 2) == r.Neg(r.one)
  }

  lemma RootPower<T(!new)>(r: Ring<T>, w: T, n: nat)
    requires IsRing(r)
    requires IsRoot(r, w, n)
    ensures Pow(r, w, n) == r.one
  {
    if n == 1 {
      PowSmall(r, w);
    } else {
      PowAdd(r, w, n / 2, n / 2);
      NegMul(r, r.one, r.Neg(r.one));
      MulOne(r, r.Neg(r.one));
      NegNeg(r, r.one);
    }
  }

  /** Squaring a root halves its order. */
  lemma RootSquare<T(!new)>(r: Ring<T>, w: T, n: nat)
    requires IsRing(r)
    requires IsRoot(r, w, n) && n > 1
    ensures IsRoot(r, r.Mul(w, w), n / 2)
  {
    PowSmall(r, w);
    if n == 2 {
      NegMul(r, r.one, r.Neg(r.one));
      MulOne(r, r.Neg(r.one));
      NegNeg(r, r.one);
    } else {
      assert IsPowerOfTwo(n / 2);
      PowOfPower(r, w, 2, n / 4);
      assert n / 2 == 2 * (n / 4);
    }
  }

  /** Raising a root to the k-th power divides its order by k. */
  lemma {:induction false} RootPow<T(!new)>(r: Ring<T>, w: T, k: nat, q: nat)
    requires IsRing(r)
    requires IsPowerOfTwo(k) && q > 0 && IsRoot(r, w, k * q)
    ensures IsRoot(r, Pow(r, w, k), q)
    decreases k
  {
    if k == 1 {
      PowSmall(r, w);
    } else {
      assert k * q == 2 * ((k / 2) * q);
      RootSquare(r, w, k * q);
      RootPow(r, r.Mul(w, w), k / 2, q);
      PowSmall(r, w);
      PowOfPower(r, w, 2, k / 2);
    }
  }

  /** The inverse of a root is a root. */
  lemma RootInverse<T(!new)>(r: Ring<T>, w: T, inv: T, n: nat)
    requires IsRing(r)
    requires IsRoot(r, w, n) && r.Mul(w, inv) == r.one
    ensures IsRoot(r, inv, n)
  {
    if n == 1 {
      MulOne(r, inv);
    } else {
      var p := Pow(r, inv, n / 2);
      PowOfInverse(r, w, inv, n / 2);
      NegMul(r, r.one, p);
      MulOne(r, p);
      NegNeg(r, p);
    }
  }

  // ---------- geometric sums ----------

  /** 1 + y + ... + y^(n-1) */
  function Geometric<T>(r: Ring<T>, y: T, n: nat): T {
    if n == 0 then r.zero else r.Add(r.one, r.Mul(y, Geometric(r, y, n - 1)))
  }

  lemma {:induction false} GeometricAdd<T(!new)>(r: Ring<T>, y: T, m: nat, n: nat)
    requires IsRing(r)
    ensures Geometric(r, y, m + n) == r.Add(Geometric(r, y, m), r.Mul(Pow(r, y, m), Geometric(r, y, n)))
  {
    var g := Geometric(r, y, n);
    if m == 0 {
      MulOne(r, g);
      AddZero(r, g);
    } else {
      GeometricAdd(r, y, m - 1, n);
      var p := r.Mul(Pow(r, y, m - 1), g);
      Distributes(r, y, Geometric(r, y, m - 1), p);
      MulAssociates(r, y, Pow(r, y, m - 1), g);
      AddAssociates(r, r.one, r.Mul(y, Geometric(r, y, m - 1)), r.Mul(y, p));
    }
  }

  /** If y^(n/2) = -1 the two halves of the sum cancel. */
  lemma GeometricHalves<T(!new)>(r: Ring<T>, y: T, n: nat)
    requires IsRing(r)
    requires n % 2 == 0 && Pow(r, y, n / 2) == r.Neg(r.one)
    ensures Geometric(r, y, n) == r.zero
  {
    var g := Geometric(r, y, n / 2);
    GeometricAdd(r, y, n / 2, n / 2);
    NegMul(r, r.one, g);
    MulOne(r, g);
    AddNegates(r, g);
  }

  lemma {:induction false} PowOfMinusOne<T(!new)>(r: Ring<T>, k: nat)
    requires IsRing(r)
    requires k % 2 == 1
    ensures Pow(r, r.Neg(r.one), k) == r.Neg(r.one)
  {
    var m := r.Neg(r.one);
    if k == 1 {
      PowSmall(r, m);
    } else {
      PowOfMinusOne(r, k - 2);
      PowAdd(r, m, 2, k - 2);
      PowSmall(r, m);
      NegMul(r, r.one, m);
      MulOne(r, m);
      NegNeg(r, r.one);
      MulOne(r, m);
    }
  }

  /** Orthogonality: the n-th roots' powers sum to zero off the diagonal. */
  lemma {:induction false} Orthogonality<T(!new)>(r: Ring<T>, w: T, n: nat, e: nat)
    requires IsRing(r)
    requires IsRoot(r, w, n) && 0 < e < n
    ensures Geometric(r, Pow(r, w, e), n) == r.zero
    decreases n
  {
    var y := Pow(r, w, e);
    if e % 2 == 1 {
      PowOfPower(r, w, e, n / 2);
      PowOfPower(r, w, n / 2, e);
      assert e * (n / 2) == (n / 2) * e;
      PowOfMinusOne(r, e);
      GeometricHalves(r, y, n);
    } else {
      RootSquare(r, w, n);
      Orthogonality(r, r.Mul(w, w), n / 2, e / 2);
      PowSmall(r, w);
      PowOfPower(r, w, 2, e / 2);
      assert 2 * (e / 2) == e;
      GeometricAdd(r, y, n / 2, n / 2);
      MulZero(r, Pow(r, y, n / 2));
      AddZero(r, r.zero);
    }
  }

  // ---------- the transform and its inverse ----------

  function Powers<T>(r: Ring<T>, y: T, n: nat): seq<T> { seq(n, j requires 0 <= j < n => Pow(r, y, j)) }

  lemma {:induction false} EvalPowers<T(!new)>(r: Ring<T>, c: T, n: nat, y: T)
    requires IsRing(r)
    ensures Eval(r, Powers(r, c, n), y) == Geometric(r, r.Mul(c, y), n)
  {
    if n > 0 {
      assert Powers(r, c, n)[1..] == ScaleSeq(r, c, Powers(r, c, n - 1));
      EvalScale(r, c, Powers(r, c, n - 1), y);
      EvalPowers(r, c, n - 1, y);
      MulLeftSwap(r, y, c, Geometric(r, r.Mul(c, y), n - 1));
      MulAssociates(r, c, y, Geometric(r, r.Mul(c, y), n - 1));
    }
  }

  /** Position k holds the value of the polynomial x at root^k: the sum of x[j] root^(jk). */
  function Dft<T>(r: Ring<T>, x: seq<T>, root: T): seq<T> {
    seq(|x|, k requires 0 <= k < |x| => Eval(r, x, Pow(r, root, k)))
  }

  /** The values at the n-th root powers of X^s times the polynomial a. */
  ghost function ShiftedDft<T>(r: Ring<T>, a: seq<T>, w: T, s: nat, n: nat): (v: seq<T>)
    ensures |v| == n
  {
    seq(n, j requires 0 <= j < n => r.Mul(Pow(r, Pow(r, w, s), j), Eval(r, a, Pow(r, w, j))))
  }

  /** w^s inv^k is a power of w or of inv, according to which exponent is larger. */
  lemma CharacterProduct<T(!new)>(r: Ring<T>, w: T, inv: T, s: nat, k: nat)
    requires IsRing(r)
    requires r.Mul(w, inv) == r.one
    ensures r.Mul(Pow(r, w, s), Pow(r, inv, k)) == if s >= k then Pow(r, w, s - k) else Pow(r, inv, k - s)
  {
    if s >= k {
      PowAdd(r, w, s - k, k);
      MulAssociates(r, Pow(r, w, s - k), Pow(r, w, k), Pow(r, inv, k));
      PowOfInverse(r, w, inv, k);
      MulOne(r, Pow(r, w, s - k));
    } else {
      PowAdd(r, inv, s, k - s);
      MulAssociates(r, Pow(r, w, s), Pow(r, inv, s), Pow(r, inv, k - s));
      PowOfInverse(r, w, inv, s);
      MulOne(r, Pow(r, inv, k - s));
    }
  }

  lemma CharacterSum<T(!new)>(r: Ring<T>, w: T, inv: T, n: nat, s: nat, k: nat)
    requires IsRing(r)
    requires IsRoot(r, w, n) && r.Mul(w, inv) == r.one
    requires s < n && k < n
    ensures Eval(r, Powers(r, Pow(r, w, s), n), Pow(r, inv, k)) == if s == k then NatElem(r, n) else r.zero
  {
    EvalPowers(r, Pow(r, w, s), n, Pow(r, inv, k));
    CharacterProduct(r, w, inv, s, k);
    if s > k {
      Orthogonality(r, w, n, s - k);
    } else if s == k {
      GeometricOfOne(r, n);
    } else {
      RootInverse(r, w, inv, n);
      Orthogonality(r, inv, n, k - s);
    }
  }

  lemma {:induction false} GeometricOfOne<T(!new)>(r: Ring<T>, n: nat)
    requires IsRing(r)
    ensures Geometric(r, r.one, n) == NatElem(r, n)
  {
    if n > 0 {
      GeometricOfOne(r, n - 1);
      MulOne(r, NatElem(r, n - 1));
    }
  }

  /** Transforming X^s a back with the inverse root reads off n times its coefficients. */
  lemma {:induction false} ShiftedInversion<T(!new)>(r: Ring<T>, a: seq<T>, w: T, inv: T, s: nat, n: nat, k: nat)
    requires IsRing(r)
    requires IsRoot(r, w, n) && r.Mul(w, inv) == r.one
    requires s + |a| <= n && k < n
    ensures Eval(r, ShiftedDft(r, a, w, s, n), Pow(r, inv, k))
         == if s <= k < s + |a| then r.Mul(NatElem(r, n), a[k - s]) else r.zero
    decreases |a|
  {
    if a == [] {
      ShiftedDftEmpty(r, w, s, n);
      EvalZeros(r, n, Pow(r, inv, k));
    } else {
      ShiftedInversion(r, a[1..], w, inv, s + 1, n, k);
      assert s + 1 <= k < s + |a| ==> a[1..][k - s - 1] == a[k - s];
      ShiftedInversionStep(r, a, w, inv, s, n, k);
      CombineTerms(r, a, NatElem(r, n), k - s);
    }
  }

  lemma ShiftedInversionStep<T(!new)>(r: Ring<T>, a: seq<T>, w: T, inv: T, s: nat, n: nat, k: nat)
    requires IsRing(r)
    requires IsRoot(r, w, n) && r.Mul(w, inv) == r.one
    requires a != [] && s + |a| <= n && k < n
    ensures Eval(r, ShiftedDft(r, a, w, s, n), Pow(r, inv, k))
         == r.Add(r.Mul(a[0], if k - s == 0 then NatElem(r, n) else r.zero),
                  Eval(r, ShiftedDft(r, a[1..], w, s + 1, n), Pow(r, inv, k)))
  {
    var y := Pow(r, inv, k);
    var head, tail := Powers(r, Pow(r, w, s), n), ShiftedDft(r, a[1..], w, s + 1, n);
    ShiftedDftSplit(r, a, w, s, n);
    EvalAdd(r, ScaleSeq(r, a[0], head), tail, y);
    EvalScale(r, a[0], head, y);
    CharacterSum(r, w, inv, n, s, k);
  }

  lemma CombineTerms<T(!new)>(r: Ring<T>, a: seq<T>, N: T, i: int)
    requires IsRing(r)
    requires a != []
    ensures r.Add(r.Mul(a[0], if i == 0 then N else r.zero), if 1 <= i < |a| then r.Mul(N, a[i]) else r.zero)
         == if 0 <= i < |a| then r.Mul(N, a[i]) else r.zero
  {
    MulCommutes(r, a[0], N);
    MulZero(r, a[0]);
    AddZero(r, r.Mul(N, a[0]));
    AddZero(r, r.zero);
    if 1 <= i < |a| {
      AddZero(r, r.Mul(N, a[i]));
    }
  }

  lemma ShiftedDftEmpty<T(!new)>(r: Ring<T>, w: T, s: nat, n: nat)
    requires IsRing(r)
    ensures ShiftedDft(r, [], w, s, n) == Zeros(r, n)
  {
    forall j | 0 <= j < n
      ensures ShiftedDft(r, [], w, s, n)[j] == r.zero
    {
      MulZero(r, Pow(r, Pow(r, w, s), j));
    }
  }

  lemma ShiftedDftSplit<T(!new)>(r: Ring<T>, a: seq<T>, w: T, s: nat, n: nat)
    requires IsRing(r)
    requires a != []
    ensures ShiftedDft(r, a, w, s, n)
         == AddSeq(r, ScaleSeq(r, a[0], Powers(r, Pow(r, w, s), n)), ShiftedDft(r, a[1..], w, s + 1, n))
  {
    var head, tail := Powers(r, Pow(r, w, s), n), ShiftedDft(r, a[1..], w, s + 1, n);
    forall j | 0 <= j < n
      ensures ShiftedDft(r, a, w, s, n)[j] == r.Add(r.Mul(a[0], head[j]), tail[j])
    {
      SplitTerm(r, a, w, s, j);
    }
  }

  lemma SplitTerm<T(!new)>(r: Ring<T>, a: seq<T>, w: T, s: nat, j: nat)
    requires IsRing(r)
    requires a != []
    ensures r.Mul(Pow(r, Pow(r, w, s), j), Eval(r, a, Pow(r, w, j)))
         == r.Add(r.Mul(a[0], Pow(r, Pow(r, w, s), j)),
                  r.Mul(Pow(r, Pow(r, w, s + 1), j), Eval(r, a[1..], Pow(r, w, j))))
  {
    var c, y, rest := Pow(r, Pow(r, w, s), j), Pow(r, w, j), Eval(r, a[1..], Pow(r, w, j));
    Distributes(r, c, a[0], r.Mul(y, rest));
    MulCommutes(r, c, a[0]);
    MulAssociates(r, c, y, rest);
    PowOfProduct(r, w, Pow(r, w, s), j);
    MulCommutes(r, c, y);
  }

  /** Applying the transform with a root and then with its inverse multiplies by the length. */
  lemma DftInversion<T(!new)>(r: Ring<T>, a: seq<T>, w: T, inv: T)
    requires IsRing(r)
    requires IsRoot(r, w, |a|) && r.Mul(w, inv) == r.one
    ensures Dft(r, Dft(r, a, w), inv) == ScaleSeq(r, NatElem(r, |a|), a)
  {
    var v := Dft(r, a, w);
    assert ShiftedDft(r, a, w, 0, |a|) == v by {
      forall j | 0 <= j < |a|
        ensures ShiftedDft(r, a, w, 0, |a|)[j] == v[j]
      {
        PowOfOne(r, j);
        MulOne(r, v[j]);
      }
    }
    forall k | 0 <= k < |a|
      ensures Dft(r, v, inv)[k] == r.Mul(NatElem(r, |a|), a[k])
    {
      ShiftedInversion(r, a, w, inv, 0, |a|, k);
    }
  }
}
