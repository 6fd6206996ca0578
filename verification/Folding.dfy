/** Coset interpolation and folding of `fri.rs`, and what they do to polynomials. */
module Folding {
  import opened Arith
  import opened Rings
  import opened Polynomials
  import opened Fft

  // ---------- coset interpolation ----------

  /** Scalars by which interpolation over a coset of m points divides: the inverses of m, of the
      m-th root of unity and of the shift. */
  datatype CosetInverses<T> = CosetInverses(size: T, zeta: T, shift: T)

  ghost predicate Inverts<T(!new)>(r: Ring<T>, inv: CosetInverses<T>, m: nat, zeta: T, shift: T) {
    && r.Mul(NatElem(r, m), inv.size) == r.one
    && r.Mul(zeta, inv.zeta) == r.one
    && r.Mul(shift, inv.shift) == r.one
  }

  /** The coefficients both interpolation routines return: transform with the inverse root,
      scale by 1/m, undo the shift. */
  function Interpolant<T>(r: Ring<T>, values: seq<T>, inv: CosetInverses<T>): seq<T> {
    seq(|values|, k requires 0 <= k < |values| =>
      r.Mul(r.Mul(Eval(r, values, Pow(r, inv.zeta, k)), inv.size), Pow(r, inv.shift, k)))
  }

  /** What the routines return in general: the first m entries of the network, for a list that may be longer than
      m and a root that may not have order m. */
  function RawInterpolant<T>(r: Ring<T>, values: seq<T>, m: nat, inv: CosetInverses<T>): seq<T> {
    if m <= |values| && IsPowerOfTwo(|values|) then
      var d := Network(r, values, inv.zeta);
      seq(m, k requires 0 <= k < m => r.Mul(r.Mul(d[k], inv.size), Pow(r, inv.shift, k)))
    else []
  }

  /** m values and a root of order m: the interpolant. */
  lemma RawIsInterpolant<T(!new)>(r: Ring<T>, values: seq<T>, inv: CosetInverses<T>)
    requires IsRing(r)
    requires IsRoot(r, inv.zeta, |values|)
    ensures RawInterpolant(r, values, |values|, inv) == Interpolant(r, values, inv)
  {
    NetworkIsDft(r, values, inv.zeta);
  }

  /** The values of p on the coset shift, shift zeta, shift zeta^2, ... */
  function CosetValues<T>(r: Ring<T>, a: seq<T>, shift: T, zeta: T, m: nat): seq<T> {
    seq(m, j requires 0 <= j < m => Eval(r, a, r.Mul(shift, Pow(r, zeta, j))))
  }

  lemma CosetIsTwistedDft<T(!new)>(r: Ring<T>, a: seq<T>, shift: T, zeta: T)
    requires IsRing(r)
    ensures CosetValues(r, a, shift, zeta, |a|) == Dft(r, Twist(r, shift, a), zeta)
  {
    forall j | 0 <= j < |a|
      ensures Eval(r, a, r.Mul(shift, Pow(r, zeta, j))) == Eval(r, Twist(r, shift, a), Pow(r, zeta, j))
    {
      EvalTwist(r, shift, a, Pow(r, zeta, j));
    }
  }

  /** Interpolating the values of a polynomial with m coefficients gives the coefficients back. */
  lemma InterpolantRecovers<T(!new)>(r: Ring<T>, a: seq<T>, inv: CosetInverses<T>, zeta: T, shift: T)
    requires IsRing(r)
    requires IsRoot(r, zeta, |a|) && Inverts(r, inv, |a|, zeta, shift)
    ensures Interpolant(r, CosetValues(r, a, shift, zeta, |a|), inv) == a
  {
    var m, v := |a|, CosetValues(r, a, shift, zeta, |a|);
    var t := Twist(r, shift, a);
    CosetIsTwistedDft(r, a, shift, zeta);
    DftInversion(r, t, zeta, inv.zeta);
    forall k | 0 <= k < m
      ensures Interpolant(r, v, inv)[k] == a[k]
    {
      assert Dft(r, v, inv.zeta)[k] == r.Mul(NatElem(r, m), t[k]);
      ScaleBack(r, NatElem(r, m), inv.size, t[k]);
      PowOfInverse(r, shift, inv.shift, k);
      ScaleBack(r, Pow(r, shift, k), Pow(r, inv.shift, k), a[k]);
    }
  }

  lemma ScaleBack<T(!new)>(r: Ring<T>, x: T, inv: T, a: T)
    requires IsRing(r)
    requires r.Mul(x, inv) == r.one
    ensures r.Mul(r.Mul(x, a), inv) == a
  {
    MulCommutes(r, x, a);
    MulAssociates(r, a, x, inv);
    MulOne(r, a);
  }

  /** The interpolant takes the given value at every point of the coset. */
  lemma InterpolantInverts<T(!new)>(r: Ring<T>, values: seq<T>, inv: CosetInverses<T>, zeta: T, shift: T)
    requires IsRing(r)
    requires IsRoot(r, zeta, |values|) && Inverts(r, inv, |values|, zeta, shift)
    ensures CosetValues(r, Interpolant(r, values, inv), shift, zeta, |values|) == values
  {
    var m := |values|;
    var d := Dft(r, values, inv.zeta);
    var c := Interpolant(r, values, inv);
    assert Twist(r, shift, c) == ScaleSeq(r, inv.size, d) by {
      forall k | 0 <= k < m
        ensures Twist(r, shift, c)[k] == r.Mul(inv.size, d[k])
      {
        PowOfInverse(r, shift, inv.shift, k);
        var s, si, x := Pow(r, shift, k), Pow(r, inv.shift, k), r.Mul(d[k], inv.size);
        MulCommutes(r, x, si);
        MulAssociates(r, s, si, x);
        MulOne(r, x);
        MulCommutes(r, d[k], inv.size);
      }
    }
    MulCommutes(r, zeta, inv.zeta);
    RootInverse(r, zeta, inv.zeta, m);
    DftInversion(r, values, inv.zeta, zeta);
    CosetIsTwistedDft(r, c, shift, zeta);
    forall j | 0 <= j < m
      ensures CosetValues(r, c, shift, zeta, m)[j] == values[j]
    {
      EvalScale(r, inv.size, d, Pow(r, zeta, j));
      assert Dft(r, d, zeta)[j] == r.Mul(NatElem(r, m), values[j]);
      MulCommutes(r, inv.size, r.Mul(NatElem(r, m), values[j]));
      ScaleBack(r, NatElem(r, m), inv.size, values[j]);
    }
  }

  // ---------- folding a coefficient sequence ----------

  /** Coefficients of the folded polynomial: each run of m coefficients evaluated at alpha. */
  function Fold<T>(r: Ring<T>, a: seq<T>, alpha: T, m: nat): seq<T>
    requires m > 0
    decreases |a|
  {
    if a == [] then []
    else if |a| <= m then [Eval(r, a, alpha)]
    else [Eval(r, a[..m], alpha)] + Fold(r, a[m..], alpha, m)
  }

  /** At most D m coefficients fold to at most D. */
  lemma {:induction false} FoldLength<T>(r: Ring<T>, a: seq<T>, alpha: T, m: nat, D: nat)
    requires m > 0 && |a| <= D * m
    ensures |Fold(r, a, alpha, m)| <= D
    decreases |a|
  {
    if |a| > m {
      assert (D - 1) * m == D * m - m;
      FoldLength(r, a[m..], alpha, m, D - 1);
    }
  }

  /** Entry k is the value at y of the polynomial made of the coefficients at k, k + m, ... */
  function Parts<T>(r: Ring<T>, a: seq<T>, m: nat, y: T): seq<T>
    requires m > 0
  {
    seq(m, k requires 0 <= k < m => Eval(r, Stride(a, k, m), y))
  }

  lemma {:induction false} StrideDrop<T>(a: seq<T>, m: nat, start: nat, step: nat)
    requires step > 0 && m <= |a|
    ensures Stride(a, m + start, step) == Stride(a[m..], start, step)
    decreases |a| - start
  {
    if m + start < |a| {
      StrideDrop(a, m, start + step, step);
    }
  }

  lemma PartsStep<T(!new)>(r: Ring<T>, a: seq<T>, m: nat, y: T)
    requires IsRing(r)
    requires 0 < m <= |a|
    ensures Parts(r, a, m, y) == AddSeq(r, a[..m], ScaleSeq(r, y, Parts(r, a[m..], m, y)))
  {
    forall k | 0 <= k < m
      ensures Eval(r, Stride(a, k, m), y) == r.Add(a[k], r.Mul(y, Eval(r, Stride(a[m..], k, m), y)))
    {
      StrideDrop(a, m, k, m);
      assert Stride(a, k, m)[1..] == Stride(a[m..], k, m);
    }
  }

  lemma PartsOfShort<T(!new)>(r: Ring<T>, a: seq<T>, m: nat, y: T)
    requires IsRing(r)
    requires m > 0 && |a| <= m
    ensures Parts(r, a, m, y) == a + Zeros(r, m - |a|)
  {
    forall k | 0 <= k < m
      ensures Eval(r, Stride(a, k, m), y) == (a + Zeros(r, m - |a|))[k]
    {
      if k < |a| {
        assert Stride(a, k, m) == [a[k]];
        assert Eval(r, [a[k]], y) == r.Add(a[k], r.Mul(y, Eval(r, [], y)));
        MulZero(r, y);
        AddZero(r, a[k]);
      }
    }
  }

  lemma EvalPartsOfShort<T(!new)>(r: Ring<T>, a: seq<T>, m: nat, y: T, x: T)
    requires IsRing(r)
    requires m > 0 && |a| <= m
    ensures Eval(r, Parts(r, a, m, y), x) == Eval(r, a, x)
  {
    PartsOfShort(r, a, m, y);
    EvalPad(r, a, m - |a|, x);
  }

  /** Evaluating the parts at alpha is evaluating the folded polynomial. */
  lemma {:induction false} FoldExchange<T(!new)>(r: Ring<T>, a: seq<T>, alpha: T, m: nat, y: T)
    requires IsRing(r)
    requires m > 0
    ensures Eval(r, Parts(r, a, m, y), alpha) == Eval(r, Fold(r, a, alpha, m), y)
    decreases |a|
  {
    if |a| <= m {
      EvalPartsOfShort(r, a, m, y, alpha);
      EvalSingleton(r, Eval(r, a, alpha), y);
    } else {
      var c, rest := a[..m], a[m..];
      PartsStep(r, a, m, y);
      EvalAdd(r, c, ScaleSeq(r, y, Parts(r, rest, m, y)), alpha);
      EvalScale(r, y, Parts(r, rest, m, y), alpha);
      FoldExchange(r, rest, alpha, m, y);
      assert Fold(r, a, alpha, m)[1..] == Fold(r, rest, alpha, m);
    }
  }

  /** Folding at x and evaluating at x^m evaluates the polynomial at x. */
  lemma {:induction false} FoldAtPoint<T(!new)>(r: Ring<T>, a: seq<T>, x: T, m: nat)
    requires IsRing(r)
    requires m > 0
    ensures Eval(r, Fold(r, a, x, m), Pow(r, x, m)) == Eval(r, a, x)
    decreases |a|
  {
    if |a| <= m {
      EvalSingleton(r, Eval(r, a, x), Pow(r, x, m));
    } else {
      FoldAtPoint(r, a[m..], x, m);
      assert Fold(r, a, x, m)[1..] == Fold(r, a[m..], x, m);
      EvalAppend(r, a[..m], a[m..], x);
      assert a == a[..m] + a[m..];
    }
  }

  /** p(x) is the sum of x^k times the k-th part at x^m. */
  lemma PartsAtPoint<T(!new)>(r: Ring<T>, a: seq<T>, x: T, m: nat)
    requires IsRing(r)
    requires m > 0
    ensures Eval(r, Parts(r, a, m, Pow(r, x, m)), x) == Eval(r, a, x)
  {
    FoldExchange(r, a, x, m, Pow(r, x, m));
    FoldAtPoint(r, a, x, m);
  }

  /** The quotient of p by X^m - y, whose remainder is `Parts`. */
  function BinomialQuotient<T>(r: Ring<T>, a: seq<T>, m: nat, y: T): seq<T>
    requires m > 0
    decreases |a|
  {
    if |a| <= m then [] else Parts(r, a[m..], m, y) + BinomialQuotient(r, a[m..], m, y)
  }

  /** The parts are p reduced modulo X^m - y: p = (X^m - y) q + parts. */
  lemma {:induction false} ReducedModuloBinomial<T(!new)>(r: Ring<T>, a: seq<T>, m: nat, y: T, x: T)
    requires IsRing(r)
    requires m > 0
    ensures Eval(r, a, x)
         == r.Add(r.Mul(r.Sub(Pow(r, x, m), y), Eval(r, BinomialQuotient(r, a, m, y), x)),
                  Eval(r, Parts(r, a, m, y), x))
    decreases |a|
  {
    if |a| <= m {
      EvalPartsOfShort(r, a, m, y, x);
      MulZero(r, r.Sub(Pow(r, x, m), y));
      AddZero(r, Eval(r, a, x));
    } else {
      var c, rest := a[..m], a[m..];
      var q', r' := Eval(r, BinomialQuotient(r, rest, m, y), x), Eval(r, Parts(r, rest, m, y), x);
      ReducedModuloBinomial(r, rest, m, y, x);
      assert a == c + rest;
      EvalAppend(r, c, rest, x);
      PartsStep(r, a, m, y);
      EvalAdd(r, c, ScaleSeq(r, y, Parts(r, rest, m, y)), x);
      EvalScale(r, y, Parts(r, rest, m, y), x);
      EvalAppend(r, Parts(r, rest, m, y), BinomialQuotient(r, rest, m, y), x);
      BinomialStep(r, Eval(r, c, x), Pow(r, x, m), y, q', r');
    }
  }

  /** c + X (X - y) q + X s = (X - y)(s + X q) + (c + y s) */
  lemma BinomialStep<T(!new)>(r: Ring<T>, c: T, X: T, y: T, q: T, s: T)
    requires IsRing(r)
    ensures
      var d := r.Sub(X, y);
      r.Add(c, r.Mul(X, r.Add(r.Mul(d, q), s))) == r.Add(r.Mul(d, r.Add(s, r.Mul(X, q))), r.Add(c, r.Mul(y, s)))
  {
    var d := r.Sub(X, y);
    Distributes(r, X, r.Mul(d, q), s);
    MulLeftSwap(r, X, d, q);
    var t := r.Mul(d, r.Mul(X, q));
    Distributes(r, d, s, r.Mul(X, q));
    MulSub(r, s, X, y);
    var ds, xs, ys := r.Mul(d, s), r.Mul(X, s), r.Mul(y, s);
    SubAdd(r, xs, ys);
    // ds + ys = xs
    AddSwap(r, ds, t, c, ys);
    AddCommutes(r, c, r.Add(t, xs));
    AddCommutes(r, t, c);
    AddAssociates(r, t, xs, c);
    AddCommutes(r, xs, c);
    AddAssociates(r, t, c, xs);
    AddAssociates(r, ds, c, r.Add(t, ys));
    AddCommutes(r, ds, c);
    AddAssociates(r, c, ds, r.Add(t, ys));
    AddCommutes(r, t, ys);
    AddAssociates(r, ds, ys, t);
    AddCommutes(r, xs, t);
  }
}
