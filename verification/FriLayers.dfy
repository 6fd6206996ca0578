/** The layer operations of `fri.rs`: coset interpolation, coefficient extraction, folding,
    out-of-domain evaluation and the batched degree check. */
module FriLayers {
  import opened Arith
  import opened Rings
  import opened Polynomials
  import opened Fft
  import opened Folding
  import opened Domains
  import opened ExtTransform

  // ---------- inverses looked up by the code ----------

  /** Every inversion the interpolation routines unwrap succeeds. */
  ghost predicate CanInterpolate<T>(k: Field<T>, m: nat, zeta: T, shift: T) {
    k.Invert(NatElem(k.ring, m)).Some? && k.Invert(zeta).Some? && k.Invert(shift).Some?
  }

  function InverseOr<T>(k: Field<T>, x: T): T {
    match k.Invert(x)
    case Some(y) => y
    case None => k.ring.zero
  }

  function InversesOf<T>(k: Field<T>, m: nat, zeta: T, shift: T): CosetInverses<T> {
    CosetInverses(InverseOr(k, NatElem(k.ring, m)), InverseOr(k, zeta), InverseOr(k, shift))
  }

  lemma InversesAreInverse<T(!new)>(k: Field<T>, m: nat, zeta: T, shift: T)
    requires IsRingWithInverse(k)
    requires CanInterpolate(k, m, zeta, shift)
    ensures Inverts(k.ring, InversesOf(k, m, zeta, shift), m, zeta, shift)
  {
    InvertWorks(k, NatElem(k.ring, m));
    InvertWorks(k, zeta);
    InvertWorks(k, shift);
  }

  /** `build_ext_pows` */
  method BuildPows<T(!new)>(r: Ring<T>, alpha: T, m: nat) returns (pows: seq<T>)
    requires IsRing(r)
    ensures pows == Powers(r, alpha, m)
  {
    pows := [];
    var acc := r.one;
    for i := 0 to m
      invariant acc == Pow(r, alpha, i)
      invariant pows == Powers(r, alpha, i)
    {
      pows := pows + [acc];
      MulCommutes(r, acc, alpha);
      acc := r.Mul(acc, alpha);
    }
  }

  /** Square-and-multiply as in `ext_pow`. */
  method ExtPow<T(!new)>(r: Ring<T>, b: T, e: nat) returns (result: T)
    requires IsRing(r)
    ensures result == Pow(r, b, e)
  {
    if e == 0 {
      return r.one;
    }
    var base, exp := b, e;
    result := r.one;
    MulOne(r, Pow(r, b, e));
    while exp > 1
      invariant exp >= 1
      invariant r.Mul(result, Pow(r, base, exp)) == Pow(r, b, e)
      decreases exp
    {
      SquareAndMultiply(r, result, base, exp);
      if exp % 2 == 1 {
        result := r.Mul(result, base);
      }
      base := r.Mul(base, base);
      exp := exp / 2;
    }
    PowSmall(r, base);
    result := r.Mul(result, base);
  }

  lemma SquareAndMultiply<T(!new)>(r: Ring<T>, acc: T, x: T, e: nat)
    requires IsRing(r)
    ensures r.Mul(acc, Pow(r, x, e))
         == r.Mul(if e % 2 == 1 then r.Mul(acc, x) else acc, Pow(r, r.Mul(x, x), e / 2))
  {
    PowSmall(r, x);
    PowOfPower(r, x, 2, e / 2);
    if e % 2 == 1 {
      MulAssociates(r, acc, x, Pow(r, x, e - 1));
      assert e - 1 == 2 * (e / 2);
    }
  }

  /** The weighted sum both fold loops accumulate is evaluation at alpha. */
  method DotPowers<T(!new)>(r: Ring<T>, coeffs: seq<T>, alpha: T, pows: seq<T>) returns (sum: T)
    requires IsRing(r)
    requires pows == Powers(r, alpha, |coeffs|)
    ensures sum == Eval(r, coeffs, alpha)
  {
    sum := r.zero;
    for i := 0 to |coeffs|
      invariant sum == Eval(r, coeffs[..i], alpha)
    {
      EvalSnoc(r, coeffs[..i], coeffs[i], alpha);
      assert coeffs[..i + 1] == coeffs[..i] + [coeffs[i]];
      MulCommutes(r, coeffs[i], pows[i]);
      sum := r.Add(sum, r.Mul(coeffs[i], pows[i]));
    }
    assert coeffs[..|coeffs|] == coeffs;
  }

  lemma EvalSnoc<T(!new)>(r: Ring<T>, a: seq<T>, c: T, x: T)
    requires IsRing(r)
    ensures Eval(r, a + [c], x) == r.Add(Eval(r, a, x), r.Mul(Pow(r, x, |a|), c))
  {
    EvalAppend(r, a, [c], x);
    assert Eval(r, [c], x) == r.Add(c, r.Mul(x, Eval(r, [c][1..], x)));
    MulZero(r, x);
    AddZero(r, c);
  }

  /** Horner evaluation from the top coefficient, as in `eval_final_poly_ext` and `eval_base_poly`. */
  method Horner<T(!new)>(r: Ring<T>, coeffs: seq<T>, x: T) returns (result: T)
    requires IsRing(r)
    ensures result == Eval(r, coeffs, x)
  {
    result := r.zero;
    var i := |coeffs|;
    while i > 0
      invariant 0 <= i <= |coeffs|
      invariant result == Eval(r, coeffs[i..], x)
    {
      i := i - 1;
      assert coeffs[i..][1..] == coeffs[i + 1..];
      MulCommutes(r, result, x);
      AddCommutes(r, r.Mul(result, x), coeffs[i]);
      result := r.Add(r.Mul(result, x), coeffs[i]);
    }
  }

  // ---------- interpolation over one coset ----------

  /** m values over a root of order m: what the routines return takes those values on the coset. */
  lemma RawRecovers<T(!new)>(r: Ring<T>, values: seq<T>, inv: CosetInverses<T>, zeta: T, shift: T)
    requires IsRing(r)
    requires IsRoot(r, zeta, |values|) && Inverts(r, inv, |values|, zeta, shift)
    ensures RawInterpolant(r, values, |values|, inv) == Interpolant(r, values, inv)
    ensures CosetValues(r, RawInterpolant(r, values, |values|, inv), shift, zeta, |values|) == values
  {
    RootInverse(r, zeta, inv.zeta, |values|);
    RawIsInterpolant(r, values, inv);
    InterpolantInverts(r, values, inv, zeta, shift);
  }

  /** `interpolate_stir_coset`: the shift must be invertible; of a longer list's network the first m entries count. */
  method InterpolateStirCoset<T(!new)>(k: Field<T>, cosetEvals: seq<T>, zEll: T, zeta: T, m: nat)
    returns (coeffs: seq<T>)
    requires IsRingWithInverse(k)
    requires m <= |cosetEvals| && IsPowerOfTwo(|cosetEvals|) && CanInterpolate(k, m, zeta, zEll)
    ensures coeffs == RawInterpolant(k.ring, cosetEvals, m, InversesOf(k, m, zeta, zEll))
    ensures IsRoot(k.ring, zeta, m) && |cosetEvals| == m ==>
      && coeffs == Interpolant(k.ring, cosetEvals, InversesOf(k, m, zeta, zEll))
      && CosetValues(k.ring, coeffs, zEll, zeta, m) == cosetEvals
  {
    var r := k.ring;
    var mInv := k.Invert(NatElem(r, m)).value;
    var zetaInv := k.Invert(zeta).value;
    var zInv := k.Invert(zEll).value;
    var d := ScaledTransform(r, cosetEvals, zetaInv, mInv);
    coeffs := Unshift(r, d[..m], zInv);
    assert coeffs == RawInterpolant(r, cosetEvals, m, InversesOf(k, m, zeta, zEll));
    if IsRoot(r, zeta, m) && |cosetEvals| == m {
      InversesAreInverse(k, m, zeta, zEll);
      RawRecovers(r, cosetEvals, InversesOf(k, m, zeta, zEll), zeta, zEll);
    }
  }

  /** `interpolate_coset_ext`: a zero shift is treated as one. */
  method InterpolateCosetExt<T(!new, ==)>(k: Field<T>, fibre: seq<T>, omegaB: T, zeta: T) returns (coeffs: seq<T>)
    requires IsRingWithInverse(k)
    requires IsPowerOfTwo(|fibre|)
    requires CanInterpolate(k, |fibre|, zeta, if omegaB == k.ring.zero then zeta else omegaB)
    ensures omegaB != k.ring.zero ==>
      coeffs == RawInterpolant(k.ring, fibre, |fibre|, InversesOf(k, |fibre|, zeta, omegaB))
    ensures IsRoot(k.ring, zeta, |fibre|) && omegaB != k.ring.zero ==>
      coeffs == Interpolant(k.ring, fibre, InversesOf(k, |fibre|, zeta, omegaB))
    ensures IsRoot(k.ring, zeta, |fibre|) ==>
      CosetValues(k.ring, coeffs, if omegaB == k.ring.zero then k.ring.one else omegaB, zeta, |fibre|) == fibre
  {
    var r, m := k.ring, |fibre|;
    var mInv := k.Invert(NatElem(r, m)).value;
    var zetaInv := k.Invert(zeta).value;
    var d := ScaledTransform(r, fibre, zetaInv, mInv);
    var omegaBInv := if omegaB == r.zero then r.one else k.Invert(omegaB).value;
    coeffs := Unshift(r, d, omegaBInv);
    ghost var inv := CosetInverses(mInv, zetaInv, omegaBInv);
    assert coeffs == RawInterpolant(r, fibre, m, inv);
    if IsRoot(r, zeta, m) {
      ghost var shift := if omegaB == r.zero then r.one else omegaB;
      assert Inverts(r, inv, m, zeta, shift) by {
        InvertWorks(k, NatElem(r, m));
        InvertWorks(k, zeta);
        InvertWorks(k, omegaB);
        MulOne(r, r.one);
      }
      RawRecovers(r, fibre, inv, zeta, shift);
    }
  }

  /** Step 1 of both routines: transform in place and scale in place. */
  method ScaledTransform<T(!new)>(r: Ring<T>, values: seq<T>, zetaInv: T, mInv: T) returns (d: seq<T>)
    requires IsRing(r)
    requires IsPowerOfTwo(|values|)
    ensures |d| == |values| && forall k :: 0 <= k < |d| ==> d[k] == r.Mul(Network(r, values, zetaInv)[k], mInv)
  {
    var n := |values|;
    var buf := new T[n](i requires 0 <= i < n => values[i]);
    assert buf[..] == values;
    FftInPlace(r, buf, zetaInv);
    ghost var transformed := buf[..];
    for i := 0 to n
      invariant forall j :: 0 <= j < n ==> buf[j] == if j < i then r.Mul(transformed[j], mInv) else transformed[j]
    {
      buf[i] := r.Mul(buf[i], mInv);
    }
    d := buf[..];
  }

  /** Step 2: multiply entry k by the k-th power of the inverse shift. */
  method Unshift<T(!new)>(r: Ring<T>, d: seq<T>, shiftInv: T) returns (coeffs: seq<T>)
    requires IsRing(r)
    ensures coeffs == seq(|d|, k requires 0 <= k < |d| => r.Mul(d[k], Pow(r, shiftInv, k)))
  {
    coeffs := [];
    var p := r.one;
    for k := 0 to |d|
      invariant p == Pow(r, shiftInv, k)
      invariant coeffs == seq(k, j requires 0 <= j < k => r.Mul(d[j], Pow(r, shiftInv, j)))
    {
      coeffs := coeffs + [r.Mul(d[k], p)];
      MulCommutes(r, p, shiftInv);
      p := r.Mul(p, shiftInv);
    }
  }

  // ---------- all cosets of a layer ----------

  /** The m values of a layer of m q values that lie over position b of the next one. */
  function Fibre<T>(evals: seq<T>, m: nat, q: nat, b: nat): seq<T>
    requires |evals| == m * q && b < q
  {
    seq(m, j requires 0 <= j < m => GridInRange(m, q, b, j); evals[b + j * q])
  }

  /** The coefficient tuple over position b. */
  function CosetTuple<T>(k: Field<T>, evals: seq<T>, omega: T, m: nat, q: nat, b: nat): seq<T>
    requires |evals| == m * q && b < q
  {
    Interpolant(k.ring, Fibre(evals, m, q, b), InversesOf(k, m, Pow(k.ring, omega, q), Pow(k.ring, omega, b)))
  }

  function CosetTuples<T>(k: Field<T>, evals: seq<T>, omega: T, m: nat, q: nat): seq<seq<T>>
    requires |evals| == m * q
  {
    seq(q, b requires 0 <= b < q => CosetTuple(k, evals, omega, m, q, b))
  }

  /** Every tuple evaluated at the challenge: the next layer. */
  function FoldTuples<T>(r: Ring<T>, tuples: seq<seq<T>>, alpha: T): seq<T> {
    seq(|tuples|, b requires 0 <= b < |tuples| => Eval(r, tuples[b], alpha))
  }

  lemma NatElemInvertible<T(!new)>(k: Field<T>, m: nat, q: nat, inv: T)
    requires IsField(k)
    requires k.ring.Mul(NatElem(k.ring, m * q), inv) == k.ring.one
    ensures k.Invert(NatElem(k.ring, m)).Some?
  {
    NatElemMul(k.ring, m, q);
    InvertDefined(k, NatElem(k.ring, m));
    MulZero(k.ring, NatElem(k.ring, q));
    MulZero(k.ring, inv);
  }

  lemma UnitIsNonZero<T(!new)>(k: Field<T>, x: T, inv: T)
    requires IsField(k)
    requires k.ring.Mul(x, inv) == k.ring.one
    ensures x != k.ring.zero && k.Invert(x).Some?
  {
    MulZero(k.ring, inv);
    InvertDefined(k, x);
  }

  /** Over a valid domain every inversion the fold unwraps succeeds, for any nonzero shift. */
  lemma DomainCosets<T(!new)>(k: Field<T>, d: Domain<T>, m: nat, q: nat, shift: T)
    requires IsField(k) && ValidDomain(k.ring, d)
    requires d.size == m * q && IsPowerOfTwo(m) && IsPowerOfTwo(q) && shift != k.ring.zero
    ensures IsRoot(k.ring, Pow(k.ring, d.gen, q), m)
    ensures CanInterpolate(k, m, Pow(k.ring, d.gen, q), shift)
  {
    RootPow(k.ring, d.gen, q, m);
    NatElemInvertible(k, m, q, d.sizeInv);
    PowOfInverse(k.ring, d.gen, d.genInv, q);
    UnitIsNonZero(k, Pow(k.ring, d.gen, q), Pow(k.ring, d.genInv, q));
    InvertDefined(k, shift);
  }

  lemma DomainPowerNonZero<T(!new)>(k: Field<T>, d: Domain<T>, b: nat)
    requires IsField(k) && ValidDomain(k.ring, d)
    ensures Pow(k.ring, d.gen, b) != k.ring.zero
  {
    PowOfInverse(k.ring, d.gen, d.genInv, b);
    UnitIsNonZero(k, Pow(k.ring, d.gen, b), Pow(k.ring, d.genInv, b));
  }

  /** On a coset whose m-th power is y a polynomial agrees with its reduction modulo X^m - y, and
      interpolation finds exactly that reduction. */
  lemma CosetCoefficients<T(!new)>(k: Field<T>, a: seq<T>, m: nat, zeta: T, shift: T)
    requires IsRingWithInverse(k)
    requires IsRoot(k.ring, zeta, m) && CanInterpolate(k, m, zeta, shift)
    ensures Interpolant(k.ring, CosetValues(k.ring, a, shift, zeta, m), InversesOf(k, m, zeta, shift))
         == Parts(k.ring, a, m, Pow(k.ring, shift, m))
  {
    var r := k.ring;
    var parts := Parts(r, a, m, Pow(r, shift, m));
    assert CosetValues(r, a, shift, zeta, m) == CosetValues(r, parts, shift, zeta, m) by {
      forall j | 0 <= j < m
        ensures Eval(r, a, r.Mul(shift, Pow(r, zeta, j))) == Eval(r, parts, r.Mul(shift, Pow(r, zeta, j)))
      {
        CosetPower(r, shift, zeta, m, j);
        PartsAtPoint(r, a, r.Mul(shift, Pow(r, zeta, j)), m);
      }
    }
    InversesAreInverse(k, m, zeta, shift);
    InterpolantRecovers(r, parts, InversesOf(k, m, zeta, shift), zeta, shift);
  }

  lemma CosetPower<T(!new)>(r: Ring<T>, shift: T, zeta: T, m: nat, j: nat)
    requires IsRing(r)
    requires IsRoot(r, zeta, m)
    ensures Pow(r, r.Mul(shift, Pow(r, zeta, j)), m) == Pow(r, shift, m)
  {
    PowOfProduct(r, shift, Pow(r, zeta, j), m);
    PowOfPower(r, zeta, j, m);
    PowOfPower(r, zeta, m, j);
    assert j * m == m * j;
    RootPower(r, zeta, m);
    PowOfOne(r, j);
    MulOne(r, Pow(r, shift, m));
  }

  lemma FibreOfCodeword<T(!new)>(r: Ring<T>, a: seq<T>, omega: T, n: nat, m: nat, q: nat, b: nat)
    requires IsRing(r)
    requires n == m * q && b < q
    ensures Fibre(Codeword(r, a, omega, n), m, q, b) == CosetValues(r, a, Pow(r, omega, b), Pow(r, omega, q), m)
  {
    var x, v := Codeword(r, a, omega, n), CosetValues(r, a, Pow(r, omega, b), Pow(r, omega, q), m);
    forall j | 0 <= j < m
      ensures Fibre(x, m, q, b)[j] == v[j]
    {
      FibreEntry(r, a, omega, n, m, q, b, j);
    }
  }

  lemma FibreEntry<T(!new)>(r: Ring<T>, a: seq<T>, omega: T, n: nat, m: nat, q: nat, b: nat, j: nat)
    requires IsRing(r)
    requires n == m * q && b < q && j < m
    ensures Fibre(Codeword(r, a, omega, n), m, q, b)[j]
        == Eval(r, a, r.Mul(Pow(r, omega, b), Pow(r, Pow(r, omega, q), j)))
  {
    var i := b + j * q;
    FibreAt(Codeword(r, a, omega, n), m, q, b, j, i);
    FibrePoint(r, omega, q, b, j);
  }

  lemma FibreAt<T>(x: seq<T>, m: nat, q: nat, b: nat, j: nat, i: nat)
    requires |x| == m * q && b < q && j < m && i == b + j * q
    ensures i < |x| && Fibre(x, m, q, b)[j] == x[i]
  {
    GridInRange(m, q, b, j);
  }

  lemma FibrePoint<T(!new)>(r: Ring<T>, omega: T, q: nat, b: nat, j: nat)
    requires IsRing(r)
    ensures Pow(r, omega, b + j * q) == r.Mul(Pow(r, omega, b), Pow(r, Pow(r, omega, q), j))
  {
    PowOfPower(r, omega, q, j);
    assert q * j == j * q;
    PowAdd(r, omega, b, j * q);
  }

  /** The tuples extracted from a codeword are its polynomial's parts at the points of the next domain. */
  lemma TuplesOfCodeword<T(!new)>(k: Field<T>, d: Domain<T>, a: seq<T>, m: nat, q: nat, b: nat)
    requires IsField(k) && ValidDomain(k.ring, d)
    requires d.size == m * q && IsPowerOfTwo(m) && IsPowerOfTwo(q) && b < q
    ensures CosetTuple(k, Codeword(k.ring, a, d.gen, d.size), d.gen, m, q, b)
         == Parts(k.ring, a, m, Pow(k.ring, Pow(k.ring, d.gen, m), b))
  {
    var r := k.ring;
    FibreOfCodeword(r, a, d.gen, d.size, m, q, b);
    DomainPowerNonZero(k, d, b);
    DomainCosets(k, d, m, q, Pow(r, d.gen, b));
    CosetCoefficients(k, a, m, Pow(r, d.gen, q), Pow(r, d.gen, b));
    PowOfPower(r, d.gen, b, m);
    PowOfPower(r, d.gen, m, b);
    assert b * m == m * b;
  }

  /** Folding acts on coefficients: the next layer is the codeword of the folded polynomial over
      the domain of m-th powers. */
  lemma FoldOfCodeword<T(!new)>(k: Field<T>, d: Domain<T>, a: seq<T>, m: nat, q: nat, alpha: T)
    requires IsField(k) && ValidDomain(k.ring, d)
    requires d.size == m * q && IsPowerOfTwo(m) && IsPowerOfTwo(q)
    ensures FoldTuples(k.ring, CosetTuples(k, Codeword(k.ring, a, d.gen, d.size), d.gen, m, q), alpha)
         == Codeword(k.ring, Fold(k.ring, a, alpha, m), Pow(k.ring, d.gen, m), q)
  {
    forall b | 0 <= b < q
      ensures FoldTuples(k.ring, CosetTuples(k, Codeword(k.ring, a, d.gen, d.size), d.gen, m, q), alpha)[b]
           == Codeword(k.ring, Fold(k.ring, a, alpha, m), Pow(k.ring, d.gen, m), q)[b]
    {
      TuplesOfCodeword(k, d, a, m, q, b);
      FoldExchange(k.ring, a, alpha, m, Pow(k.ring, Pow(k.ring, d.gen, m), b));
    }
  }

  /** Out-of-domain consistency: the coefficients interpolated on the coset of z combine to the
      folded polynomial at z^m, and they are the polynomial reduced modulo X^m - z^m. */
  lemma OodConsistency<T(!new)>(k: Field<T>, d: Domain<T>, a: seq<T>, m: nat, q: nat, z: T, alpha: T)
    requires IsField(k) && ValidDomain(k.ring, d)
    requires d.size == m * q && IsPowerOfTwo(m) && IsPowerOfTwo(q) && z != k.ring.zero
    ensures
      var zeta := Pow(k.ring, d.gen, q);
      var interp := Interpolant(k.ring, CosetValues(k.ring, a, z, zeta, m), InversesOf(k, m, zeta, z));
      && interp == Parts(k.ring, a, m, Pow(k.ring, z, m))
      && Eval(k.ring, interp, alpha) == Eval(k.ring, Fold(k.ring, a, alpha, m), Pow(k.ring, z, m))
  {
    DomainCosets(k, d, m, q, z);
    CosetCoefficients(k, a, m, Pow(k.ring, d.gen, q), z);
    FoldExchange(k.ring, a, alpha, m, Pow(k.ring, z, m));
  }

  // ---------- the loops over a layer ----------

  ghost predicate FirstTuples<T>(k: Field<T>, evals: seq<T>, omega: T, m: nat, q: nat, tuples: seq<seq<T>>)
    requires |evals| == m * q && |tuples| <= q
  {
    forall i :: 0 <= i < |tuples| ==> tuples[i] == CosetTuple(k, evals, omega, m, q, i)
  }

  /** One turn of the loop below: the tuple of the fibre over position b. */
  method ExtractCoset<T(!new, ==)>(k: Field<T>, evals: seq<T>, d: Domain<T>, m: nat, q: nat, b: nat, omegaB: T, zeta: T)
    returns (tuple: seq<T>)
    requires IsField(k) && ValidDomain(k.ring, d) && |evals| == d.size == m * q && b < q
    requires IsPowerOfTwo(m) && IsPowerOfTwo(q)
    requires omegaB == Pow(k.ring, d.gen, b) && zeta == Pow(k.ring, d.gen, q)
    ensures tuple == CosetTuple(k, evals, d.gen, m, q, b)
  {
    DomainPowerNonZero(k, d, b);
    DomainCosets(k, d, m, q, omegaB);
    tuple := InterpolateCosetExt(k, Fibre(evals, m, q, b), omegaB, zeta);
  }

  /** `extract_all_coset_coefficients` */
  method ExtractAllCosetCoefficients<T(!new, ==)>(k: Field<T>, evals: seq<T>, d: Domain<T>, m: nat)
    returns (tuples: seq<seq<T>>, nNext: nat)
    requires IsField(k) && ValidDomain(k.ring, d)
    requires |evals| == d.size && IsPowerOfTwo(m) && m <= d.size
    ensures nNext == d.size / m && d.size == m * nNext && IsPowerOfTwo(nNext)
    ensures tuples == CosetTuples(k, evals, d.gen, m, nNext)
  {
    var r, n := k.ring, |evals|;
    PowersOfTwoDivide(n, m);
    nNext := n / m;
    var zeta := ExtPow(r, d.gen, nNext);
    var omegaB := r.one;
    tuples := [];
    for b := 0 to nNext
      invariant omegaB == Pow(r, d.gen, b)
      invariant |tuples| == b && FirstTuples(k, evals, d.gen, m, nNext, tuples)
    {
      var tuple := ExtractCoset(k, evals, d, m, nNext, b, omegaB, zeta);
      tuples := tuples + [tuple];
      PowLast(r, d.gen, b);
      omegaB := r.Mul(omegaB, d.gen);
    }
  }

  /** `interpolation_fold_ext`: the tuple width is read off the first tuple. */
  method InterpolationFold<T(!new)>(r: Ring<T>, tuples: seq<seq<T>>, alpha: T) returns (next: seq<T>)
    requires IsRing(r)
    requires tuples != [] && forall b :: 0 <= b < |tuples| ==> |tuples[b]| == |tuples[0]|
    ensures next == FoldTuples(r, tuples, alpha)
  {
    var pows := BuildPows(r, alpha, |tuples[0]|);
    next := [];
    for b := 0 to |tuples|
      invariant next == FoldTuples(r, tuples, alpha)[..b]
    {
      var sum := DotPowers(r, tuples[b], alpha, pows);
      next := next + [sum];
    }
  }

  /** `evaluate_ood_coset`: values on {zeta^j z} and the coefficients interpolating them. */
  method EvaluateOodCoset<A(!new), T(!new)>(k: Field<T>, B: Basis<A, T>, gd: Domain<A>, evals: seq<T>, z: T,
                                            d: Domain<T>, m: nat, nNext: nat)
    returns (cosetEvals: seq<T>, interp: seq<T>)
    requires IsField(k) && ValidDomain(k.ring, d) && IsBasis(k.ring, B) && d == EmbedDomain(B.emb, gd)
    requires |evals| == d.size == m * nNext && IsPowerOfTwo(m) && IsPowerOfTwo(nNext) && z != k.ring.zero
    ensures cosetEvals == CosetValues(k.ring, Ifft(k.ring, d, evals), z, Pow(k.ring, d.gen, nNext), m)
    ensures interp == Interpolant(k.ring, cosetEvals, InversesOf(k, m, Pow(k.ring, d.gen, nNext), z))
  {
    var r := k.ring;
    DomainCosets(k, d, m, nNext, z);
    var zeta := ExtPow(r, d.gen, nNext);
    var coeffs := IfftOfExt(r, B, gd, evals);
    cosetEvals := EvaluateOnCoset(r, coeffs, z, zeta, m);
    interp := InterpolateStirCoset(k, cosetEvals, z, zeta, m);
  }

  lemma CosetSnoc<T>(r: Ring<T>, a: seq<T>, shift: T, zeta: T, m: nat)
    ensures CosetValues(r, a, shift, zeta, m + 1) == CosetValues(r, a, shift, zeta, m)
            + [Eval(r, a, r.Mul(shift, Pow(r, zeta, m)))]
  {
  }

  method EvaluateOnCoset<T(!new)>(r: Ring<T>, coeffs: seq<T>, z: T, zeta: T, m: nat) returns (cosetEvals: seq<T>)
    requires IsRing(r)
    ensures cosetEvals == CosetValues(r, coeffs, z, zeta, m)
  {
    cosetEvals := [];
    var zetaPow := r.one;
    for j := 0 to m
      invariant zetaPow == Pow(r, zeta, j)
      invariant cosetEvals == CosetValues(r, coeffs, z, zeta, j)
    {
      var x := r.Mul(zetaPow, z);
      MulCommutes(r, zetaPow, z);
      var v := Horner(r, coeffs, x);
      CosetSnoc(r, coeffs, z, zeta, j);
      cosetEvals := cosetEvals + [v];
      MulCommutes(r, zetaPow, zeta);
      zetaPow := r.Mul(zetaPow, zeta);
    }
  }

  /** `batched_degree_check_ext`: accepts exactly when the tuples folded by beta pass the degree check; for as many
      tuples as the domain has points, when they form a word of at most dFinal coefficients. */
  method BatchedDegreeCheck<A(!new, ==), T(!new)>(r: Ring<T>, B: Basis<A, T>, gd: Domain<A>, tuples: seq<seq<T>>,
                                                  beta: T, dFinal: nat, d: Domain<T>) returns (ok: bool)
    requires ValidDomain(r, d) && IsBasis(r, B) && d == EmbedDomain(B.emb, gd)
    requires |tuples| <= d.size && forall b :: 0 <= b < |tuples| ==> |tuples[b]| == |tuples[0]|
    ensures ok <==> DegreeOk(r, d, FoldTuples(r, tuples, beta), dFinal)
    ensures |tuples| == d.size ==> (ok <==> LowDegree(r, d, FoldTuples(r, tuples, beta), dFinal))
  {
    if tuples == [] {
      return true;
    }
    var gamma := InterpolationFold(r, tuples, beta);
    ok := CheckDegree(r, B, gd, gamma, dFinal, d);
    if |gamma| == d.size {
      DegreeOkIff(r, d, gamma, dFinal);
    }
  }

  /** Every component of the padded word is transformed, and must vanish from D up to the word's length. */
  method CheckDegree<A(!new, ==), T(!new)>(r: Ring<T>, B: Basis<A, T>, gd: Domain<A>, word: seq<T>, D: nat,
                                           d: Domain<T>)
    returns (ok: bool)
    requires IsBasis(r, B) && |word| <= d.size && d == EmbedDomain(B.emb, gd)
    ensures ok <==> DegreeOk(r, d, word, D)
  {
    var padded := PadWord(r, word, d.size);
    SplitWord(r, B, padded);
    ghost var coeffs := Ifft(r, d, padded);
    var transformed := TransformComponents(B, gd, padded);
    var k := D;
    while k < |word|
      invariant D <= k && (k <= |word| ==> ZeroFrom(r, coeffs, D, k)) && (k > |word| ==> k == D)
      decreases |word| - k
    {
      var zero := ZeroAt(r, B, gd, padded, transformed, k, coeffs[k]);
      if !zero {
        return false;
      }
      ZeroExtends(r, coeffs, D, k, k + 1);
      k := k + 1;
    }
    ok := true;
  }

  /** Coefficient k vanishes when all its components do. */
  method ZeroAt<A(!new, ==), T(!new)>(r: Ring<T>, B: Basis<A, T>, gd: Domain<A>, padded: seq<T>,
                                      transformed: seq<seq<A>>, k: nat, ghost coeff: T) returns (zero: bool)
    requires IsBasis(r, B) && AllSplit(B, padded) && k < |padded| && |transformed| == B.Degree()
    requires forall j :: 0 <= j < B.Degree() ==> transformed[j] == Ifft(B.ground, gd, Components(B, padded, j))
    requires coeff == Ifft(r, EmbedDomain(B.emb, gd), padded)[k]
    ensures zero <==> coeff == r.zero
  {
    IfftByComponents(r, B, gd, padded, k);
    ZeroComponents(r, B, coeff);
    ghost var cs := TransformedAt(B, gd, padded, k);
    assert forall j :: 0 <= j < |cs| ==> cs[j] == transformed[j][k];
    zero := AllZeroAt(transformed, k, B.ground.zero);
  }

  method AllZeroAt<A(==)>(transformed: seq<seq<A>>, k: nat, zero: A) returns (ok: bool)
    requires forall j :: 0 <= j < |transformed| ==> k < |transformed[j]|
    ensures ok <==> forall j :: 0 <= j < |transformed| ==> transformed[j][k] == zero
  {
    for j := 0 to |transformed|
      invariant forall i :: 0 <= i < j ==> transformed[i][k] == zero
    {
      if transformed[j][k] != zero {
        return false;
      }
    }
    ok := true;
  }
}
