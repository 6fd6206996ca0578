/** Division by the vanishing polynomial X^m - 1 and the constraint quotient of `deep_ali`. */
module Quotient {
  import opened Arith
  import opened Rings
  import opened Polynomials
  import opened Fft
  import opened Folding
  import opened Domains

  /** Coefficient j of the quotient: the sum of the dividend's coefficients at j + m, j + 2m, ... */
  function QuotientCoeff<T>(r: Ring<T>, a: seq<T>, m: nat, j: nat): T
    requires m > 0
  {
    Eval(r, Stride(a, j + m, m), r.one)
  }

  /** The sequence `poly_div_zh` returns. */
  function DivideByVanishing<T>(r: Ring<T>, a: seq<T>, m: nat): seq<T>
    requires m > 0
  {
    if |a| <= m then [r.zero] else seq(|a| - m, j requires 0 <= j < |a| - m => QuotientCoeff(r, a, m, j))
  }

  /** The remainder: entry k is the sum of the dividend's coefficients at indices congruent to k. */
  function VanishingRemainder<T>(r: Ring<T>, a: seq<T>, m: nat): seq<T>
    requires m > 0
  {
    Parts(r, a, m, r.one)
  }

  lemma QuotientCoeffStep<T(!new)>(r: Ring<T>, a: seq<T>, m: nat, j: nat)
    requires IsRing(r)
    requires m > 0 && j + m < |a|
    ensures
      var q := DivideByVanishing(r, a, m);
      |q| == |a| - m && q[j] == r.Add(a[j + m], if j + m < |q| then q[j + m] else r.zero)
  {
    var next := j + m;
    var rest := Stride(a, next + m, m);
    assert Eval(r, Stride(a, next, m), r.one) == r.Add(a[next], Eval(r, rest, r.one)) by {
      EvalAtOne(r, a[next], rest);
      assert Stride(a, next, m) == [a[next]] + rest;
    }
  }

  lemma EvalAtOne<T(!new)>(r: Ring<T>, first: T, rest: seq<T>)
    requires IsRing(r)
    ensures Eval(r, [first] + rest, r.one) == r.Add(first, Eval(r, rest, r.one))
  {
    assert ([first] + rest)[1..] == rest;
    MulOne(r, Eval(r, rest, r.one));
  }

  /** The recurrence the descending loop runs. */
  ghost predicate QuotientStep<T>(r: Ring<T>, a: seq<T>, m: nat, q: seq<T>, j: nat)
    requires |q| + m == |a| && j < |q|
  {
    q[j] == r.Add(a[j + m], if j + m < |q| then q[j + m] else r.zero)
  }

  /** `poly_div_zh` */
  method PolyDivZh<T(!new)>(r: Ring<T>, dividend: seq<T>, m: nat) returns (quotient: seq<T>)
    requires IsRing(r) && m > 0
    ensures quotient == DivideByVanishing(r, dividend, m)
  {
    var n := |dividend|;
    if n <= m {
      return [r.zero];
    }
    ghost var spec := DivideByVanishing(r, dividend, m);
    forall j | 0 <= j < n - m
      ensures QuotientStep(r, dividend, m, spec, j)
    {
      QuotientCoeffStep(r, dividend, m, j);
    }
    quotient := FillQuotient(r, dividend, m, spec);
  }

  /** Fill the quotient from the top, reading back what was just written. */
  method FillQuotient<T>(r: Ring<T>, dividend: seq<T>, m: nat, ghost spec: seq<T>) returns (quotient: seq<T>)
    requires 0 < m && |spec| + m == |dividend|
    requires forall j :: 0 <= j < |spec| ==> QuotientStep(r, dividend, m, spec, j)
    ensures quotient == spec
  {
    var n := |dividend|;
    var qLen := n - m;
    var q := new T[qLen](_ => r.zero);
    var k := n;
    while k > m
      invariant m <= k <= n
      invariant forall j :: k - m <= j < qLen ==> q[j] == spec[j]
    {
      k := k - 1;
      assert QuotientStep(r, dividend, m, spec, k - m);
      var qk := if k < qLen then q[k] else r.zero;
      q[k - m] := r.Add(dividend[k], qk);
    }
    quotient := q[..];
  }

  // ---------- the division identity ----------

  lemma FirstQuotientCoeffs<T(!new)>(r: Ring<T>, a: seq<T>, m: nat, j: nat)
    requires IsRing(r)
    requires m > 0 && m < |a| && j < m
    ensures QuotientCoeff(r, a, m, j) == Parts(r, a[m..], m, r.one)[j]
  {
    StrideDrop(a, m, j, m);
  }

  lemma LaterQuotientCoeffs<T(!new)>(r: Ring<T>, a: seq<T>, m: nat, j: nat)
    requires IsRing(r)
    requires m > 0 && m < |a| && m <= j
    ensures QuotientCoeff(r, a, m, j) == QuotientCoeff(r, a[m..], m, j - m)
  {
    StrideDrop(a, m, j, m);
  }

  /** Up to zeros at the top, the loop computes the quotient by the binomial. */
  lemma {:induction false} QuotientIsBinomial<T(!new)>(r: Ring<T>, a: seq<T>, m: nat) returns (pad: nat)
    requires IsRing(r)
    requires m > 0 && m < |a|
    ensures BinomialQuotient(r, a, m, r.one) == DivideByVanishing(r, a, m) + Zeros(r, pad)
    decreases |a|
  {
    var rest, q := a[m..], DivideByVanishing(r, a, m);
    if |rest| <= m {
      PartsOfShort(r, rest, m, r.one);
      pad := m - |rest|;
      forall j | 0 <= j < |rest|
        ensures q[j] == rest[j]
      {
        FirstQuotientCoeffs(r, a, m, j);
      }
      assert q == rest;
    } else {
      var q' := DivideByVanishing(r, rest, m);
      pad := QuotientIsBinomial(r, rest, m);
      forall j | 0 <= j < |q|
        ensures q[j] == (Parts(r, rest, m, r.one) + q')[j]
      {
        if j < m {
          FirstQuotientCoeffs(r, a, m, j);
        } else {
          LaterQuotientCoeffs(r, a, m, j);
        }
      }
      assert q == Parts(r, rest, m, r.one) + q';
    }
  }

  /** Division: dividend = (X^m - 1) quotient + remainder, for every dividend and every x. */
  lemma DivisionIdentity<T(!new)>(r: Ring<T>, a: seq<T>, m: nat, x: T)
    requires IsRing(r) && m > 0
    ensures Eval(r, a, x)
         == r.Add(r.Mul(r.Sub(Pow(r, x, m), r.one), Eval(r, DivideByVanishing(r, a, m), x)),
                  Eval(r, VanishingRemainder(r, a, m), x))
  {
    ReducedModuloBinomial(r, a, m, r.one, x);
    if m < |a| {
      var pad := QuotientIsBinomial(r, a, m);
      EvalPad(r, DivideByVanishing(r, a, m), pad, x);
    } else {
      EvalSingleton(r, r.zero, x);
    }
  }

  /** The remainder, coefficient by coefficient. */
  lemma RemainderCoeff<T(!new)>(r: Ring<T>, a: seq<T>, m: nat, k: nat)
    requires IsRing(r) && k < m < |a|
    ensures VanishingRemainder(r, a, m)[k] == r.Add(a[k], if k + m < |a| then QuotientCoeff(r, a, m, k) else r.zero)
  {
    var s, rest := Stride(a, k, m), Stride(a, k + m, m);
    assert s == [a[k]] + rest && s[1..] == rest;
    MulOne(r, Eval(r, rest, r.one));
  }

  /** The same identity coefficient by coefficient. */
  lemma DivisionCoefficients<T(!new)>(r: Ring<T>, a: seq<T>, m: nat, k: nat, q: seq<T>, rem: seq<T>)
    requires IsRing(r) && m > 0 && k < |a| && m < |a|
    requires q == DivideByVanishing(r, a, m) && rem == VanishingRemainder(r, a, m)
    ensures |q| == |a| - m && |rem| == m
    ensures a[k] == r.Sub(if k >= m then q[k - m] else rem[k], if k < |q| then q[k] else r.zero)
  {
    if k >= m {
      QuotientCoeffStep(r, a, m, k - m);
    } else {
      RemainderCoeff(r, a, m, k);
    }
    SubAdd(r, a[k], if k < |q| then q[k] else r.zero);
  }

  // ---------- exactness ----------

  /** The quotient is exact: as polynomials, dividend = (X^m - 1) quotient. */
  ghost predicate DividesExactly<T(!new)>(r: Ring<T>, a: seq<T>, m: nat)
    requires m > 0
  {
    forall x :: Eval(r, a, x) == r.Mul(r.Sub(Pow(r, x, m), r.one), Eval(r, DivideByVanishing(r, a, m), x))
  }

  ghost predicate VanishesOnRoots<T(!new)>(r: Ring<T>, a: seq<T>, m: nat, w: T) {
    forall i :: 0 <= i < m ==> Eval(r, a, Pow(r, w, i)) == r.zero
  }

  /** On the m-th roots of unity the dividend and the remainder agree. */
  lemma RemainderOnRoots<T(!new)>(r: Ring<T>, a: seq<T>, m: nat, w: T, i: nat)
    requires IsRing(r) && IsRoot(r, w, m)
    ensures Pow(r, Pow(r, w, i), m) == r.one
    ensures Eval(r, a, Pow(r, w, i)) == Eval(r, VanishingRemainder(r, a, m), Pow(r, w, i))
  {
    var x, rem := Pow(r, w, i), Eval(r, VanishingRemainder(r, a, m), Pow(r, w, i));
    RootPower(r, w, m);
    PowOfPower(r, w, i, m);
    PowOfPower(r, w, m, i);
    assert i * m == m * i;
    PowOfOne(r, i);
    DivisionIdentity(r, a, m, x);
    SubSelf(r, r.one, r.one);
    MulZero(r, Eval(r, DivideByVanishing(r, a, m), x));
    AddZero(r, rem);
  }

  /** The division is exact if and only if the remainder is zero, if and only if the dividend
      vanishes on all m-th roots of unity. */
  lemma ExactIff<T(!new)>(r: Ring<T>, a: seq<T>, d: Domain<T>)
    requires IsRing(r) && ValidDomain(r, d)
    ensures DividesExactly(r, a, d.size) <==> VanishesOnRoots(r, a, d.size, d.gen)
    ensures VanishesOnRoots(r, a, d.size, d.gen) <==> VanishingRemainder(r, a, d.size) == Zeros(r, d.size)
  {
    var m, rem := d.size, VanishingRemainder(r, a, d.size);
    if DividesExactly(r, a, m) {
      ExactVanishes(r, a, d);
    }
    if VanishesOnRoots(r, a, m, d.gen) {
      VanishingHasNoRemainder(r, a, d);
    }
    if rem == Zeros(r, m) {
      NoRemainderIsExact(r, a, m);
      forall i | 0 <= i < m
        ensures Eval(r, a, Pow(r, d.gen, i)) == r.zero
      {
        RemainderOnRoots(r, a, m, d.gen, i);
        EvalZeros(r, m, Pow(r, d.gen, i));
      }
    }
  }

  lemma ExactVanishes<T(!new)>(r: Ring<T>, a: seq<T>, d: Domain<T>)
    requires IsRing(r) && ValidDomain(r, d) && DividesExactly(r, a, d.size)
    ensures VanishesOnRoots(r, a, d.size, d.gen)
  {
    forall i | 0 <= i < d.size
      ensures Eval(r, a, Pow(r, d.gen, i)) == r.zero
    {
      RemainderOnRoots(r, a, d.size, d.gen, i);
      SubSelf(r, r.one, r.one);
      MulZero(r, Eval(r, DivideByVanishing(r, a, d.size), Pow(r, d.gen, i)));
    }
  }

  lemma VanishingHasNoRemainder<T(!new)>(r: Ring<T>, a: seq<T>, d: Domain<T>)
    requires IsRing(r) && ValidDomain(r, d) && VanishesOnRoots(r, a, d.size, d.gen)
    ensures VanishingRemainder(r, a, d.size) == Zeros(r, d.size)
  {
    var rem := VanishingRemainder(r, a, d.size);
    assert Codeword(r, rem, d.gen, d.size) == Codeword(r, [], d.gen, d.size) by {
      forall i | 0 <= i < d.size
        ensures Eval(r, rem, Pow(r, d.gen, i)) == Eval(r, [], Pow(r, d.gen, i))
      {
        RemainderOnRoots(r, a, d.size, d.gen, i);
      }
    }
    IfftOfCodeword(r, d, rem);
    IfftOfCodeword(r, d, []);
    assert rem + Zeros(r, 0) == rem && [] + Zeros(r, d.size) == Zeros(r, d.size);
  }

  lemma NoRemainderIsExact<T(!new)>(r: Ring<T>, a: seq<T>, m: nat)
    requires IsRing(r) && m > 0 && VanishingRemainder(r, a, m) == Zeros(r, m)
    ensures DividesExactly(r, a, m)
  {
    forall x
      ensures Eval(r, a, x) == r.Mul(r.Sub(Pow(r, x, m), r.one), Eval(r, DivideByVanishing(r, a, m), x))
    {
      DivisionIdentity(r, a, m, x);
      EvalZeros(r, m, x);
      AddZero(r, r.Mul(r.Sub(Pow(r, x, m), r.one), Eval(r, DivideByVanishing(r, a, m), x)));
    }
  }

  // ---------- the constraint quotient ----------

  /** The single constraint a s + e - t at every domain point. */
  function ConstraintValues<T>(r: Ring<T>, a: seq<T>, s: seq<T>, e: seq<T>, t: seq<T>): seq<T>
    requires |a| == |s| == |e| == |t|
  {
    seq(|a|, i requires 0 <= i < |a| => r.Sub(r.Add(r.Mul(a[i], s[i]), e[i]), t[i]))
  }

  /** The constraint holds on the trace subdomain: every (n / nTrace)-th point. */
  ghost predicate HoldsOnTrace<T>(r: Ring<T>, phi: seq<T>, blowup: nat)
    requires blowup > 0
  {
    forall i :: 0 <= i < |phi| && Rem(i, blowup) == 0 ==> phi[i] == r.zero
  }

  /** c times the vanishing polynomial of the trace gives phi at every domain point. */
  ghost predicate IsQuotientOf<T>(r: Ring<T>, c: seq<T>, phi: seq<T>, w: T, nTrace: nat)
    requires |c| == |phi|
  {
    forall i :: 0 <= i < |c| ==> r.Mul(r.Sub(Pow(r, Pow(r, w, i), nTrace), r.one), c[i]) == phi[i]
  }

  /** The values of a s + e - t, filled in point by point. */
  method MergeConstraint<T>(r: Ring<T>, aEval: seq<T>, sEval: seq<T>, eEval: seq<T>, tEval: seq<T>)
    returns (phi: seq<T>)
    requires |aEval| == |sEval| == |eEval| == |tEval|
    ensures phi == ConstraintValues(r, aEval, sEval, eEval, tEval)
  {
    var n := |aEval|;
    var phiEval := new T[n](_ => r.zero);
    for i := 0 to n
      invariant phiEval[..i] == ConstraintValues(r, aEval, sEval, eEval, tEval)[..i]
    {
      phiEval[i] := r.Sub(r.Add(r.Mul(aEval[i], sEval[i]), eEval[i]), tEval[i]);
    }
    phi := phiEval[..];
  }

  /** A point of the quotient: the vanishing polynomial's value times c, and t, give a s + e. */
  lemma QuotientPoint<T(!new)>(r: Ring<T>, v: T, c: T, a: T, s: T, e: T, t: T)
    requires IsRing(r)
    ensures r.Mul(v, c) == r.Sub(r.Add(r.Mul(a, s), e), t) <==> r.Add(r.Mul(v, c), t) == r.Add(r.Mul(a, s), e)
    ensures r.Sub(r.Add(r.Mul(a, s), e), t) == r.zero <==> t == r.Add(r.Mul(a, s), e)
  {
    SubAdd(r, r.Add(r.Mul(a, s), e), t);
    SubAdd(r, r.Mul(v, c), t);
    SubSelf(r, r.Add(r.Mul(a, s), e), t);
  }

  /** Being a quotient, and holding on the trace, in terms of the four inputs. */
  lemma MergeInInputs<T(!new)>(r: Ring<T>, c: seq<T>, a: seq<T>, s: seq<T>, e: seq<T>, t: seq<T>, w: T, nTrace: nat,
                               blowup: nat)
    requires IsRing(r) && |a| == |s| == |e| == |t| == |c| && blowup > 0
    ensures IsQuotientOf(r, c, ConstraintValues(r, a, s, e, t), w, nTrace) <==>
      forall i :: 0 <= i < |c| ==>
        r.Add(r.Mul(r.Sub(Pow(r, Pow(r, w, i), nTrace), r.one), c[i]), t[i]) == r.Add(r.Mul(a[i], s[i]), e[i])
    ensures HoldsOnTrace(r, ConstraintValues(r, a, s, e, t), blowup) <==>
      forall i :: 0 <= i < |c| && Rem(i, blowup) == 0 ==> t[i] == r.Add(r.Mul(a[i], s[i]), e[i])
  {
    var phi := ConstraintValues(r, a, s, e, t);
    forall i: nat | i < |c|
      ensures
        var v := r.Sub(Pow(r, Pow(r, w, i), nTrace), r.one);
        r.Mul(v, c[i]) == phi[i] <==> r.Add(r.Mul(v, c[i]), t[i]) == r.Add(r.Mul(a[i], s[i]), e[i])
      ensures phi[i] == r.zero <==> t[i] == r.Add(r.Mul(a[i], s[i]), e[i])
    {
      QuotientPoint(r, r.Sub(Pow(r, Pow(r, w, i), nTrace), r.one), c[i], a[i], s[i], e[i], t[i]);
    }
  }

  /** The vanishing polynomial's value times c, the remainder's value, and t, give a s + e at point i. */
  ghost predicate MergedAt<T>(r: Ring<T>, point: T, nTrace: nat, c: T, a: T, s: T, e: T, t: T, rem: T) {
    r.Add(r.Add(r.Mul(r.Sub(Pow(r, point, nTrace), r.one), c), rem), t) == r.Add(r.Mul(a, s), e)
  }

  /** What is left over has fewer coefficients than the trace has rows, and does with c all over the domain. */
  ghost predicate LeavesOver<T>(r: Ring<T>, d: Domain<T>, nTrace: nat, c: seq<T>, a: seq<T>, s: seq<T>, e: seq<T>,
                                t: seq<T>, rem: seq<T>)
    requires |a| == |s| == |e| == |t| == |c| == d.size
  {
    && |rem| == nTrace
    && forall i :: 0 <= i < d.size ==>
         MergedAt(r, Pow(r, d.gen, i), nTrace, c[i], a[i], s[i], e[i], t[i], Eval(r, rem, Pow(r, d.gen, i)))
  }

  lemma QuotientLeaves<T(!new)>(r: Ring<T>, d: Domain<T>, nTrace: nat, a: seq<T>, s: seq<T>, e: seq<T>, t: seq<T>)
    requires IsRing(r) && ValidDomain(r, d) && |a| == |s| == |e| == |t| == d.size && nTrace > 0
    ensures
      var coeffs := Ifft(r, d, ConstraintValues(r, a, s, e, t));
      var c := Codeword(r, DivideByVanishing(r, coeffs, nTrace), d.gen, d.size);
      LeavesOver(r, d, nTrace, c, a, s, e, t, VanishingRemainder(r, coeffs, nTrace))
  {
    var phi := ConstraintValues(r, a, s, e, t);
    var coeffs := Ifft(r, d, phi);
    var (q, rem) := (DivideByVanishing(r, coeffs, nTrace), VanishingRemainder(r, coeffs, nTrace));
    CodewordOfIfft(r, d, phi);
    forall i: nat | i < d.size
      ensures MergedAt(r, Pow(r, d.gen, i), nTrace, Codeword(r, q, d.gen, d.size)[i], a[i], s[i], e[i], t[i],
                       Eval(r, rem, Pow(r, d.gen, i)))
    {
      var x := Pow(r, d.gen, i);
      DivisionIdentity(r, coeffs, nTrace, x);
      assert Codeword(r, coeffs, d.gen, d.size)[i] == Eval(r, coeffs, x) == phi[i];
      SubAdd(r, r.Add(r.Mul(a[i], s[i]), e[i]), t[i]);
    }
  }

  /** `deep_ali_merge_evals`: the quotient of a s + e - t on the domain. It is a true quotient if and
      only if the constraint holds on the trace, and it always has fewer than n - nTrace + 1
      coefficients. */
  method DeepAliMergeEvals<T(!new)>(r: Ring<T>, d: Domain<T>, aEval: seq<T>, sEval: seq<T>, eEval: seq<T>,
                                    tEval: seq<T>, nTrace: nat)
    returns (c: seq<T>)
    requires IsRing(r) && ValidDomain(r, d)
    requires |aEval| == |sEval| == |eEval| == |tEval| == d.size
    requires 0 < nTrace < d.size && Rem(d.size, nTrace) == 0
    ensures |c| == d.size && LowDegree(r, d, c, d.size - nTrace)
    ensures Quot(d.size, nTrace) > 0
    ensures IsQuotientOf(r, c, ConstraintValues(r, aEval, sEval, eEval, tEval), d.gen, nTrace)
       <==> HoldsOnTrace(r, ConstraintValues(r, aEval, sEval, eEval, tEval), Quot(d.size, nTrace))
    ensures
      (forall i :: 0 <= i < d.size ==>
         r.Add(r.Mul(r.Sub(Pow(r, Pow(r, d.gen, i), nTrace), r.one), c[i]), tEval[i])
         == r.Add(r.Mul(aEval[i], sEval[i]), eEval[i])) <==>
      (forall i :: 0 <= i < d.size && Rem(i, Quot(d.size, nTrace)) == 0 ==>
         tEval[i] == r.Add(r.Mul(aEval[i], sEval[i]), eEval[i]))
    ensures exists rem: seq<T> :: LeavesOver(r, d, nTrace, c, aEval, sEval, eEval, tEval, rem)
  {
    var n := |aEval|;
    var phi := MergeConstraint(r, aEval, sEval, eEval, tEval);
    var phiCoeffs := Ifft(r, d, phi);
    var cCoeffs := PolyDivZh(r, phiCoeffs, nTrace);
    var padded := cCoeffs + Zeros(r, n - |cCoeffs|);
    c := Codeword(r, padded, d.gen, n);
    assert c == Codeword(r, cCoeffs, d.gen, n) by { CodewordOfPadded(r, cCoeffs, n - |cCoeffs|, d.gen, n); }
    QuotientIff(r, d, phi, nTrace, Quot(n, nTrace));
    MergeInInputs(r, c, aEval, sEval, eEval, tEval, d.gen, nTrace, Quot(n, nTrace));
    QuotientLeaves(r, d, nTrace, aEval, sEval, eEval, tEval);
  }

  lemma BlowupPositive(n: nat, m: nat)
    requires 0 < m <= n
    ensures Quot(n, m) > 0
  {
    DivModUnique(m, m, 1, 0);
    DivMonotone(m, n, m);
  }

  /** A factor of a power of two is one. */
  lemma {:induction false} PowerOfTwoFactor(n: nat, a: nat, b: nat)
    requires IsPowerOfTwo(n) && n == a * b
    ensures IsPowerOfTwo(a)
    decreases n
  {
    if n == 1 {
      OneFactor(a, b);
    } else if a % 2 == 0 {
      assert (a / 2) * b == n / 2 by {
        assert n == 2 * ((a / 2) * b);
      }
      PowerOfTwoFactor(n / 2, a / 2, b);
    } else {
      OddFactor(n, a, b);
      PowerOfTwoFactor(n / 2, a, b / 2);
    }
  }

  lemma OneFactor(a: nat, b: nat)
    requires a * b == 1
    ensures a == 1
  {
    if a >= 2 {
      assert b >= 1;
      BlocksMonotone(2, a, b);
    }
  }

  lemma OddFactor(n: nat, a: nat, b: nat)
    requires n % 2 == 0 && n == a * b && a % 2 == 1
    ensures b % 2 == 0 && n / 2 == a * (b / 2)
  {
    var h := a / 2;
    assert n == 2 * (h * b) + b by {
      assert a == 2 * h + 1;
    }
    assert n == 2 * (a * (b / 2)) by {
      assert b == 2 * (b / 2);
    }
  }

  /** The trace subdomain of a domain. */
  ghost function TraceDomain<T>(r: Ring<T>, d: Domain<T>, nTrace: nat, blowup: nat): Domain<T> {
    Domain(nTrace, Pow(r, d.gen, blowup), Pow(r, d.genInv, blowup), r.Mul(NatElem(r, blowup), d.sizeInv))
  }

  lemma TraceDomainValid<T(!new)>(r: Ring<T>, d: Domain<T>, nTrace: nat, blowup: nat)
    requires IsRing(r) && ValidDomain(r, d)
    requires nTrace > 0 && d.size == blowup * nTrace
    ensures ValidDomain(r, TraceDomain(r, d, nTrace, blowup))
  {
    PowerOfTwoFactor(d.size, blowup, nTrace);
    RootPow(r, d.gen, blowup, nTrace);
    PowOfInverse(r, d.gen, d.genInv, blowup);
    NatElemMul(r, nTrace, blowup);
    assert nTrace * blowup == d.size;
    MulAssociates(r, NatElem(r, nTrace), NatElem(r, blowup), d.sizeInv);
  }

  lemma QuotientIff<T(!new)>(r: Ring<T>, d: Domain<T>, phi: seq<T>, nTrace: nat, blowup: nat)
    requires IsRing(r) && ValidDomain(r, d) && |phi| == d.size
    requires 0 < nTrace < d.size && Rem(d.size, nTrace) == 0 && blowup == Quot(d.size, nTrace)
    ensures blowup > 0
    ensures
      var q := DivideByVanishing(r, Ifft(r, d, phi), nTrace);
      var c := Codeword(r, q, d.gen, d.size);
      && LowDegree(r, d, c, d.size - nTrace)
      && (IsQuotientOf(r, c, phi, d.gen, nTrace) <==> HoldsOnTrace(r, phi, blowup))
  {
    BlowupPositive(d.size, nTrace);
    assert d.size == blowup * nTrace;
    var coeffs := Ifft(r, d, phi);
    var q := DivideByVanishing(r, coeffs, nTrace);
    var c := Codeword(r, q, d.gen, d.size);
    assert |q| == d.size - nTrace;
    CodewordOfIfft(r, d, phi);
    var h := TraceDomain(r, d, nTrace, blowup);
    TraceDomainValid(r, d, nTrace, blowup);
    ExactIff(r, coeffs, h);
    TraceVanishing(r, d, coeffs, phi, nTrace, blowup);
    if IsQuotientOf(r, c, phi, d.gen, nTrace) {
      QuotientVanishes(r, d, c, phi, nTrace, blowup);
    }
    if HoldsOnTrace(r, phi, blowup) {
      ExactOnDomain(r, d, coeffs, phi, nTrace);
    }
  }

  /** Vanishing on the trace rows is vanishing on the roots of unity of the trace subdomain. */
  lemma TraceVanishing<T(!new)>(r: Ring<T>, d: Domain<T>, coeffs: seq<T>, phi: seq<T>, nTrace: nat, blowup: nat)
    requires IsRing(r) && blowup > 0 && d.size == blowup * nTrace
    requires phi == Codeword(r, coeffs, d.gen, d.size)
    ensures HoldsOnTrace(r, phi, blowup) <==> VanishesOnRoots(r, coeffs, nTrace, Pow(r, d.gen, blowup))
  {
    var w := Pow(r, d.gen, blowup);
    forall j | 0 <= j < nTrace
      ensures RowOf(j, blowup) < |phi| && phi[RowOf(j, blowup)] == Eval(r, coeffs, Pow(r, w, j))
    {
      TraceRow(j, blowup, nTrace, d.size);
      PowOfPower(r, d.gen, blowup, j);
    }
    if HoldsOnTrace(r, phi, blowup) {
      forall j | 0 <= j < nTrace
        ensures Eval(r, coeffs, Pow(r, w, j)) == r.zero
      {
        TraceRow(j, blowup, nTrace, d.size);
        assert phi[RowOf(j, blowup)] == r.zero;
      }
    }
    if VanishesOnRoots(r, coeffs, nTrace, w) {
      forall i | 0 <= i < |phi| && Rem(i, blowup) == 0
        ensures phi[i] == r.zero
      {
        RowFrom(i, blowup, nTrace, d.size);
        assert phi[RowOf(Quot(i, blowup), blowup)] == Eval(r, coeffs, Pow(r, w, Quot(i, blowup)));
      }
    }
  }

  /** The domain index of trace row j. */
  function RowOf(j: nat, blowup: nat): nat { blowup * j }

  lemma TraceRow(j: nat, blowup: nat, nTrace: nat, n: nat)
    requires j < nTrace && blowup > 0 && n == blowup * nTrace
    ensures RowOf(j, blowup) < n && Rem(RowOf(j, blowup), blowup) == 0
  {
    BlocksMonotone(j + 1, nTrace, blowup);
    assert RowOf(j, blowup) == j * blowup;
    MultipleDivides(j, blowup);
  }

  lemma RowFrom(i: nat, blowup: nat, nTrace: nat, n: nat)
    requires blowup > 0 && n == blowup * nTrace && i < n && Rem(i, blowup) == 0
    ensures Quot(i, blowup) < nTrace && i == RowOf(Quot(i, blowup), blowup)
  {
    var j := Quot(i, blowup);
    BlockOf(i, blowup, j * blowup);
    if j >= nTrace {
      BlocksMonotone(nTrace, j, blowup);
    }
  }

  lemma QuotientVanishes<T(!new)>(r: Ring<T>, d: Domain<T>, c: seq<T>, phi: seq<T>, nTrace: nat, blowup: nat)
    requires IsRing(r) && ValidDomain(r, d) && |c| == |phi| == d.size
    requires blowup > 0 && d.size == blowup * nTrace && IsQuotientOf(r, c, phi, d.gen, nTrace)
    ensures HoldsOnTrace(r, phi, blowup)
  {
    forall i | 0 <= i < |phi| && Rem(i, blowup) == 0
      ensures phi[i] == r.zero
    {
      var j := Quot(i, blowup);
      RowFrom(i, blowup, nTrace, d.size);
      PowOfPower(r, d.gen, i, nTrace);
      assert i * nTrace == d.size * j by {
        assert i * nTrace == (blowup * j) * nTrace == (blowup * nTrace) * j;
      }
      PowOfPower(r, d.gen, d.size, j);
      RootPower(r, d.gen, d.size);
      PowOfOne(r, j);
      SubSelf(r, r.one, r.one);
      MulZero(r, c[i]);
    }
  }

  lemma ExactOnDomain<T(!new)>(r: Ring<T>, d: Domain<T>, coeffs: seq<T>, phi: seq<T>, nTrace: nat)
    requires IsRing(r) && nTrace > 0 && phi == Codeword(r, coeffs, d.gen, d.size)
    requires DividesExactly(r, coeffs, nTrace)
    ensures IsQuotientOf(r, Codeword(r, DivideByVanishing(r, coeffs, nTrace), d.gen, d.size), phi, d.gen, nTrace)
  {
    forall i | 0 <= i < d.size
      ensures r.Mul(r.Sub(Pow(r, Pow(r, d.gen, i), nTrace), r.one),
                    Eval(r, DivideByVanishing(r, coeffs, nTrace), Pow(r, d.gen, i))) == phi[i]
    {
      assert Eval(r, coeffs, Pow(r, d.gen, i)) == phi[i];
    }
  }
}
