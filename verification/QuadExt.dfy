/** Levels of the extension tower and the generic quadratic extension of `sextic_ext.rs`, over any
    commutative base. */
module QuadExt {
  import opened Rings

  /** What a level of the tower offers: arithmetic, a partial inverse, squaring and Frobenius. */
  datatype Tower<!T> = Tower(field: Field<T>, square: T -> T, frobenius: T -> T) {
    function Ring(): Ring<T> { field.ring }

    function Sq(a: T): T { square(a) }

    function Frob(a: T): T { frobenius(a) }
  }

  ghost predicate SquareIsProduct<T>(t: Tower<T>, a: T) { t.Sq(a) == t.Ring().Mul(a, a) }

  /** A commutative ring, a sound inverse, and a square that is the product with itself. */
  ghost predicate IsTower<T(!new)>(t: Tower<T>) {
    IsRingWithInverse(t.field) && forall a :: SquareIsProduct(t, a)
  }

  // ---------- pairs over a ring ----------

  datatype Quad<T> = Quad(c0: T, c1: T)

  function PairAdd<T>(r: Ring<T>, x: Quad<T>, y: Quad<T>): Quad<T> { Quad(r.Add(x.c0, y.c0), r.Add(x.c1, y.c1)) }

  function PairNeg<T>(r: Ring<T>, x: Quad<T>): Quad<T> { Quad(r.Neg(x.c0), r.Neg(x.c1)) }

  function Scale<T>(r: Ring<T>, s: T, x: Quad<T>): Quad<T> { Quad(r.Mul(s, x.c0), r.Mul(s, x.c1)) }

  /** Multiplication by u, where u^2 = beta + tau u. */
  function Shift<T>(r: Ring<T>, beta: T, tau: T, x: Quad<T>): Quad<T> {
    Quad(r.Mul(beta, x.c1), r.Add(x.c0, r.Mul(tau, x.c1)))
  }

  /** The product as the operator c0 + c1 u applied to y. */
  function Apply<T>(r: Ring<T>, beta: T, tau: T, x: Quad<T>, y: Quad<T>): Quad<T> {
    PairAdd(r, Scale(r, x.c0, y), Scale(r, x.c1, Shift(r, beta, tau, y)))
  }

  function FromBase<T>(r: Ring<T>, x: T): Quad<T> { Quad(x, r.zero) }

  /** The ring r[u] with u^2 = beta + tau u. */
  function PairAlgebra<T>(r: Ring<T>, beta: T, tau: T): Ring<Quad<T>> {
    Ring(FromBase(r, r.zero), FromBase(r, r.one), (x, y) => PairAdd(r, x, y), x => PairNeg(r, x), (x, y) =>
         Apply(r, beta, tau, x, y))
  }

  lemma PairAddSwap<T(!new)>(r: Ring<T>, a: Quad<T>, b: Quad<T>, c: Quad<T>, d: Quad<T>)
    requires IsRing(r)
    ensures PairAdd(r, PairAdd(r, a, b), PairAdd(r, c, d)) == PairAdd(r, PairAdd(r, a, c), PairAdd(r, b, d))
  {
    AddSwap(r, a.c0, b.c0, c.c0, d.c0);
    AddSwap(r, a.c1, b.c1, c.c1, d.c1);
  }

  lemma ScaleAdd<T(!new)>(r: Ring<T>, s: T, x: Quad<T>, y: Quad<T>)
    requires IsRing(r)
    ensures Scale(r, s, PairAdd(r, x, y)) == PairAdd(r, Scale(r, s, x), Scale(r, s, y))
  {
    Distributes(r, s, x.c0, y.c0);
    Distributes(r, s, x.c1, y.c1);
  }

  lemma ScaleSwap<T(!new)>(r: Ring<T>, s: T, t: T, x: Quad<T>)
    requires IsRing(r)
    ensures Scale(r, s, Scale(r, t, x)) == Scale(r, t, Scale(r, s, x))
  {
    MulLeftSwap(r, s, t, x.c0);
    MulLeftSwap(r, s, t, x.c1);
  }

  lemma ShiftAdd<T(!new)>(r: Ring<T>, beta: T, tau: T, x: Quad<T>, y: Quad<T>)
    requires IsRing(r)
    ensures Shift(r, beta, tau, PairAdd(r, x, y)) == PairAdd(r, Shift(r, beta, tau, x), Shift(r, beta, tau, y))
  {
    Distributes(r, beta, x.c1, y.c1);
    Distributes(r, tau, x.c1, y.c1);
    AddSwap(r, x.c0, y.c0, r.Mul(tau, x.c1), r.Mul(tau, y.c1));
  }

  lemma ShiftScale<T(!new)>(r: Ring<T>, beta: T, tau: T, s: T, x: Quad<T>)
    requires IsRing(r)
    ensures Shift(r, beta, tau, Scale(r, s, x)) == Scale(r, s, Shift(r, beta, tau, x))
  {
    MulLeftSwap(r, beta, s, x.c1);
    MulLeftSwap(r, tau, s, x.c1);
    Distributes(r, s, x.c0, r.Mul(tau, x.c1));
  }

  // ---------- the operator of an element commutes with everything linear ----------

  lemma ApplyAdd<T(!new)>(r: Ring<T>, beta: T, tau: T, a: Quad<T>, x: Quad<T>, y: Quad<T>)
    requires IsRing(r)
    ensures Apply(r, beta, tau, a, PairAdd(r, x, y)) == PairAdd(r, Apply(r, beta, tau, a, x), Apply(r, beta, tau, a, y))
  {
    var (sx, sy) := (Shift(r, beta, tau, x), Shift(r, beta, tau, y));
    ScaleAdd(r, a.c0, x, y);
    ShiftAdd(r, beta, tau, x, y);
    ScaleAdd(r, a.c1, sx, sy);
    PairAddSwap(r, Scale(r, a.c0, x), Scale(r, a.c0, y), Scale(r, a.c1, sx), Scale(r, a.c1, sy));
  }

  lemma ApplyScale<T(!new)>(r: Ring<T>, beta: T, tau: T, a: Quad<T>, s: T, x: Quad<T>)
    requires IsRing(r)
    ensures Apply(r, beta, tau, a, Scale(r, s, x)) == Scale(r, s, Apply(r, beta, tau, a, x))
  {
    ShiftScale(r, beta, tau, s, x);
    ScaleSwap(r, a.c0, s, x);
    ScaleSwap(r, a.c1, s, Shift(r, beta, tau, x));
    ScaleAdd(r, s, Scale(r, a.c0, x), Scale(r, a.c1, Shift(r, beta, tau, x)));
  }

  lemma ApplyShift<T(!new)>(r: Ring<T>, beta: T, tau: T, a: Quad<T>, x: Quad<T>)
    requires IsRing(r)
    ensures Apply(r, beta, tau, a, Shift(r, beta, tau, x)) == Shift(r, beta, tau, Apply(r, beta, tau, a, x))
  {
    var s := Shift(r, beta, tau, x);
    ShiftAdd(r, beta, tau, Scale(r, a.c0, x), Scale(r, a.c1, s));
    ShiftScale(r, beta, tau, a.c0, x);
    ShiftScale(r, beta, tau, a.c1, s);
  }

  /** Two operators commute. */
  lemma ApplySwap<T(!new)>(r: Ring<T>, beta: T, tau: T, a: Quad<T>, b: Quad<T>, x: Quad<T>)
    requires IsRing(r)
    ensures Apply(r, beta, tau, a, Apply(r, beta, tau, b, x)) == Apply(r, beta, tau, b, Apply(r, beta, tau, a, x))
  {
    var s := Shift(r, beta, tau, x);
    ApplyAdd(r, beta, tau, a, Scale(r, b.c0, x), Scale(r, b.c1, s));
    ApplyScale(r, beta, tau, a, b.c0, x);
    ApplyScale(r, beta, tau, a, b.c1, s);
    ApplyShift(r, beta, tau, a, x);
  }

  lemma ApplyCommutes<T(!new)>(r: Ring<T>, beta: T, tau: T, a: Quad<T>, b: Quad<T>)
    requires IsRing(r)
    ensures Apply(r, beta, tau, a, b) == Apply(r, beta, tau, b, a)
  {
    MulCommutes(r, a.c0, b.c0);
    MulLeftSwap(r, a.c1, beta, b.c1);
    MulLeftSwap(r, b.c1, beta, a.c1);
    MulCommutes(r, a.c1, b.c1);
    MulCommutes(r, a.c0, b.c1);
    MulCommutes(r, a.c1, b.c0);
    MulLeftSwap(r, a.c1, tau, b.c1);
    MulLeftSwap(r, b.c1, tau, a.c1);
    Distributes(r, a.c1, b.c0, r.Mul(tau, b.c1));
    Distributes(r, b.c1, a.c0, r.Mul(tau, a.c1));
    var (x, y, z) := (r.Mul(a.c0, b.c1), r.Mul(a.c1, b.c0), r.Mul(a.c1, r.Mul(tau, b.c1)));
    AddAssociates(r, x, y, z);
    AddCommutes(r, x, y);
    AddAssociates(r, y, x, z);
  }

  lemma ApplyAssociates<T(!new)>(r: Ring<T>, beta: T, tau: T, a: Quad<T>, b: Quad<T>, c: Quad<T>)
    requires IsRing(r)
    ensures Apply(r, beta, tau, Apply(r, beta, tau, a, b), c) == Apply(r, beta, tau, a, Apply(r, beta, tau, b, c))
  {
    ApplyCommutes(r, beta, tau, Apply(r, beta, tau, a, b), c);
    ApplySwap(r, beta, tau, c, a, b);
    ApplyCommutes(r, beta, tau, c, b);
  }

  lemma ApplyOne<T(!new)>(r: Ring<T>, beta: T, tau: T, a: Quad<T>)
    requires IsRing(r)
    ensures Apply(r, beta, tau, a, FromBase(r, r.one)) == a
  {
    ApplyCommutes(r, beta, tau, a, FromBase(r, r.one));
    MulOne(r, a.c0);
    MulOne(r, a.c1);
    MulZero(r, r.Mul(beta, a.c1));
    MulZero(r, r.Add(a.c0, r.Mul(tau, a.c1)));
    AddZero(r, a.c0);
    AddZero(r, a.c1);
  }

  /** Adjoining u with u^2 = beta + tau u to a commutative ring gives a commutative ring. */
  lemma PairAlgebraIsRing<T(!new)>(r: Ring<T>, beta: T, tau: T)
    requires IsRing(r)
    ensures IsRing(PairAlgebra(r, beta, tau))
  {
    var q := PairAlgebra(r, beta, tau);
    PairAdditive(r, q);
    forall a, b
      ensures MulComm(q, a, b)
    {
      ApplyCommutes(r, beta, tau, a, b);
    }
    forall a, b, c
      ensures MulAssoc(q, a, b, c)
    {
      ApplyAssociates(r, beta, tau, a, b, c);
    }
    forall a
      ensures MulUnit(q, a)
    {
      ApplyOne(r, beta, tau, a);
    }
    forall a, b, c
      ensures Distrib(q, a, b, c)
    {
      ApplyAdd(r, beta, tau, a, b, c);
    }
  }

  ghost predicate AddsAsPairs<T(!new)>(r: Ring<T>, q: Ring<Quad<T>>) {
    && q.zero == FromBase(r, r.zero)
    && (forall a, b :: q.Add(a, b) == PairAdd(r, a, b))
    && (forall a :: q.Neg(a) == PairNeg(r, a))
  }

  lemma PairAdditive<T(!new)>(r: Ring<T>, q: Ring<Quad<T>>)
    requires IsRing(r) && AddsAsPairs(r, q)
    ensures (forall a, b :: AddComm(q, a, b)) && (forall a, b, c :: AddAssoc(q, a, b, c))
    ensures (forall a :: AddUnit(q, a)) && (forall a :: AddInverse(q, a))
  {
    forall a, b
      ensures AddComm(q, a, b)
    {
      AddCommutes(r, a.c0, b.c0);
      AddCommutes(r, a.c1, b.c1);
    }
    forall a, b, c
      ensures AddAssoc(q, a, b, c)
    {
      AddAssociates(r, a.c0, b.c0, c.c0);
      AddAssociates(r, a.c1, b.c1, c.c1);
    }
    forall a
      ensures AddUnit(q, a)
    {
      AddZero(r, a.c0);
      AddZero(r, a.c1);
    }
    forall a
      ensures AddInverse(q, a)
    {
      AddNegates(r, a.c0);
      AddNegates(r, a.c1);
    }
  }

  // ---------- the quadratic extension of the program ----------

  /** `QuadExtConfig`: the base level, the nonresidue, the possibly faster multiplication by it, and
      the exponent (p - 1) / 2 of the Frobenius constant. */
  datatype QuadConfig<!T> = QuadConfig(base: Tower<T>, beta: T, byBeta: T -> T, halfOrder: nat) {
    function ByBeta(x: T): T { byBeta(x) }
  }

  ghost predicate FastIsFull<T>(cfg: QuadConfig<T>, x: T) { cfg.ByBeta(x) == cfg.base.Ring().Mul(cfg.beta, x) }

  ghost predicate ValidQuad<T(!new)>(cfg: QuadConfig<T>) {
    IsTower(cfg.base) && forall x :: FastIsFull(cfg, x)
  }

  /** Karatsuba multiplication. */
  function QuadMul<T>(cfg: QuadConfig<T>, a: Quad<T>, b: Quad<T>): Quad<T> {
    var r := cfg.base.Ring();
    var v0 := r.Mul(a.c0, b.c0);
    var v1 := r.Mul(a.c1, b.c1);
    Quad(r.Add(v0, cfg.ByBeta(v1)), r.Sub(r.Sub(r.Mul(r.Add(a.c0, a.c1), r.Add(b.c0, b.c1)), v0), v1))
  }

  function QuadSq<T>(cfg: QuadConfig<T>, a: Quad<T>): Quad<T> {
    var r := cfg.base.Ring();
    var ab := r.Mul(a.c0, a.c1);
    Quad(r.Add(cfg.base.Sq(a.c0), cfg.ByBeta(cfg.base.Sq(a.c1))), r.Add(ab, ab))
  }

  function Conjugate<T>(cfg: QuadConfig<T>, a: Quad<T>): Quad<T> { Quad(a.c0, cfg.base.Ring().Neg(a.c1)) }

  function QuadNorm<T>(cfg: QuadConfig<T>, a: Quad<T>): T {
    cfg.base.Ring().Sub(cfg.base.Sq(a.c0), cfg.ByBeta(cfg.base.Sq(a.c1)))
  }

  function QuadInvert<T>(cfg: QuadConfig<T>, a: Quad<T>): Option<Quad<T>> {
    var r := cfg.base.Ring();
    match cfg.base.field.Invert(QuadNorm(cfg, a))
    case None => None
    case Some(nInv) => Some(Quad(r.Mul(a.c0, nInv), r.Neg(r.Mul(a.c1, nInv))))
  }

  function Gamma<T>(cfg: QuadConfig<T>): T { Pow(cfg.base.Ring(), cfg.beta, cfg.halfOrder) }

  function QuadFrobenius<T>(cfg: QuadConfig<T>, a: Quad<T>): Quad<T> {
    Quad(cfg.base.Frob(a.c0), cfg.base.Ring().Mul(cfg.base.Frob(a.c1), Gamma(cfg)))
  }

  function QuadRing<T>(cfg: QuadConfig<T>): Ring<Quad<T>> {
    var r := cfg.base.Ring();
    Ring(FromBase(r, r.zero), FromBase(r, r.one), (x, y) => PairAdd(r, x, y), x => PairNeg(r, x), (x, y) =>
         QuadMul(cfg, x, y))
  }

  /** The next level of the tower. */
  function QuadTower<T>(cfg: QuadConfig<T>): Tower<Quad<T>> {
    Tower(Field(QuadRing(cfg), x => QuadInvert(cfg, x)), x => QuadSq(cfg, x), x => QuadFrobenius(cfg, x))
  }

  /** ((v + x) + (y + w)) - v - w = x + y */
  lemma CancelEnds<T(!new)>(r: Ring<T>, v: T, x: T, y: T, w: T)
    requires IsRing(r)
    ensures r.Sub(r.Sub(r.Add(r.Add(v, x), r.Add(y, w)), v), w) == r.Add(x, y)
  {
    AddSwap(r, v, x, y, w);
    AddCommutes(r, v, y);
    AddSwap(r, y, v, x, w);
    // (y + x) + (v + w)
    AddCommutes(r, y, x);
    AddCommutes(r, v, w);
    AddAssociates(r, r.Add(x, y), w, v);
    SubAdd(r, r.Add(r.Add(x, y), w), v);
    SubAdd(r, r.Add(x, y), w);
  }

  /** Karatsuba computes the schoolbook product modulo u^2 = beta. */
  lemma KaratsubaIsSchoolbook<T(!new)>(cfg: QuadConfig<T>, a: Quad<T>, b: Quad<T>)
    requires ValidQuad(cfg)
    ensures
      var r := cfg.base.Ring();
      QuadMul(cfg, a, b) == Quad(r.Add(r.Mul(a.c0, b.c0), r.Mul(cfg.beta, r.Mul(a.c1, b.c1))),
                                 r.Add(r.Mul(a.c0, b.c1), r.Mul(a.c1, b.c0)))
  {
    var r := cfg.base.Ring();
    assert FastIsFull(cfg, r.Mul(a.c1, b.c1));
    Distributes(r, r.Add(b.c0, b.c1), a.c0, a.c1);
    Distributes(r, a.c0, b.c0, b.c1);
    Distributes(r, a.c1, b.c0, b.c1);
    CancelEnds(r, r.Mul(a.c0, b.c0), r.Mul(a.c0, b.c1), r.Mul(a.c1, b.c0), r.Mul(a.c1, b.c1));
  }

  lemma QuadMulIsApply<T(!new)>(cfg: QuadConfig<T>, a: Quad<T>, b: Quad<T>)
    requires ValidQuad(cfg)
    ensures QuadMul(cfg, a, b) == Apply(cfg.base.Ring(), cfg.beta, cfg.base.Ring().zero, a, b)
  {
    var r := cfg.base.Ring();
    KaratsubaIsSchoolbook(cfg, a, b);
    MulLeftSwap(r, a.c1, cfg.beta, b.c1);
    MulZero(r, b.c1);
    AddZero(r, b.c0);
  }

  lemma QuadRingIsRing<T(!new)>(cfg: QuadConfig<T>)
    requires ValidQuad(cfg)
    ensures IsRing(QuadRing(cfg))
  {
    var r := cfg.base.Ring();
    var q, p := QuadRing(cfg), PairAlgebra(r, cfg.beta, r.zero);
    PairAlgebraIsRing(r, cfg.beta, r.zero);
    forall a, b
      ensures q.Mul(a, b) == p.Mul(a, b)
    {
      QuadMulIsApply(cfg, a, b);
    }
    SameOperations(p, q);
  }

  /** Being a ring depends on the values of the operations only. */
  lemma SameOperations<T(!new)>(p: Ring<T>, q: Ring<T>)
    requires IsRing(p) && p.zero == q.zero && p.one == q.one
    requires forall a, b :: q.Add(a, b) == p.Add(a, b)
    requires forall a :: q.Neg(a) == p.Neg(a)
    requires forall a, b :: q.Mul(a, b) == p.Mul(a, b)
    ensures IsRing(q)
  {
    assert forall a, b :: AddComm(p, a, b) ==> AddComm(q, a, b);
    assert forall a, b, c :: AddAssoc(p, a, b, c) ==> AddAssoc(q, a, b, c);
    assert forall a :: AddUnit(p, a) ==> AddUnit(q, a);
    assert forall a :: AddInverse(p, a) ==> AddInverse(q, a);
    assert forall a, b :: MulComm(p, a, b) ==> MulComm(q, a, b);
    assert forall a, b, c :: MulAssoc(p, a, b, c) ==> MulAssoc(q, a, b, c);
    assert forall a :: MulUnit(p, a) ==> MulUnit(q, a);
    assert forall a, b, c :: Distrib(p, a, b, c) ==> Distrib(q, a, b, c);
  }

  // ---------- norm, conjugate, inverse, square ----------

  lemma NormIs<T(!new)>(cfg: QuadConfig<T>, a: Quad<T>)
    requires ValidQuad(cfg)
    ensures
      var r := cfg.base.Ring();
      QuadNorm(cfg, a) == r.Sub(r.Mul(a.c0, a.c0), r.Mul(cfg.beta, r.Mul(a.c1, a.c1)))
  {
    assert SquareIsProduct(cfg.base, a.c0) && SquareIsProduct(cfg.base, a.c1);
    assert FastIsFull(cfg, cfg.base.Sq(a.c1));
  }

  /** a conj(a) is the norm. */
  lemma TimesConjugate<T(!new)>(cfg: QuadConfig<T>, a: Quad<T>)
    requires ValidQuad(cfg)
    ensures QuadMul(cfg, a, Conjugate(cfg, a)) == FromBase(cfg.base.Ring(), QuadNorm(cfg, a))
  {
    var r := cfg.base.Ring();
    KaratsubaIsSchoolbook(cfg, a, Conjugate(cfg, a));
    NormIs(cfg, a);
    NegMul(r, a.c1, a.c1);
    NegMul(r, cfg.beta, r.Mul(a.c1, a.c1));
    NegMul(r, a.c0, a.c1);
    MulCommutes(r, a.c1, a.c0);
    AddNegates(r, r.Mul(a.c0, a.c1));
  }

  /** Conjugation preserves products. */
  lemma ConjugateOfProduct<T(!new)>(cfg: QuadConfig<T>, a: Quad<T>, b: Quad<T>)
    requires ValidQuad(cfg)
    ensures Conjugate(cfg, QuadMul(cfg, a, b)) == QuadMul(cfg, Conjugate(cfg, a), Conjugate(cfg, b))
  {
    var r := cfg.base.Ring();
    KaratsubaIsSchoolbook(cfg, a, b);
    KaratsubaIsSchoolbook(cfg, Conjugate(cfg, a), Conjugate(cfg, b));
    NegMul(r, a.c1, r.Neg(b.c1));
    NegMul(r, a.c1, b.c1);
    NegNeg(r, r.Mul(a.c1, b.c1));
    NegMul(r, a.c0, b.c1);
    NegMul(r, a.c1, b.c0);
    NegAdd(r, r.Mul(a.c0, b.c1), r.Mul(a.c1, b.c0));
  }

  lemma FromBaseOfProduct<T(!new)>(cfg: QuadConfig<T>, x: T, y: T)
    requires ValidQuad(cfg)
    ensures QuadMul(cfg, FromBase(cfg.base.Ring(), x), FromBase(cfg.base.Ring(), y))
        == FromBase(cfg.base.Ring(), cfg.base.Ring().Mul(x, y))
  {
    var r := cfg.base.Ring();
    KaratsubaIsSchoolbook(cfg, FromBase(r, x), FromBase(r, y));
    MulZero(r, x);
    MulZero(r, y);
    MulZero(r, r.zero);
    MulZero(r, cfg.beta);
    AddZero(r, r.Mul(x, y));
    AddZero(r, r.zero);
  }

  /** The norm is multiplicative. */
  lemma QuadNormMultiplicative<T(!new)>(cfg: QuadConfig<T>, a: Quad<T>, b: Quad<T>)
    requires ValidQuad(cfg)
    ensures QuadNorm(cfg, QuadMul(cfg, a, b)) == cfg.base.Ring().Mul(QuadNorm(cfg, a), QuadNorm(cfg, b))
  {
    var r, q := cfg.base.Ring(), QuadRing(cfg);
    QuadRingIsRing(cfg);
    var (ca, cb) := (Conjugate(cfg, a), Conjugate(cfg, b));
    TimesConjugate(cfg, a);
    TimesConjugate(cfg, b);
    TimesConjugate(cfg, QuadMul(cfg, a, b));
    ConjugateOfProduct(cfg, a, b);
    MulSwap(q, a, b, ca, cb);
    assert q.Mul(q.Mul(a, b), q.Mul(ca, cb)) == FromBase(r, QuadNorm(cfg, QuadMul(cfg, a, b)));
    FromBaseOfProduct(cfg, QuadNorm(cfg, a), QuadNorm(cfg, b));
  }

  lemma ScaleIsProduct<T(!new)>(cfg: QuadConfig<T>, a: Quad<T>, s: T)
    requires ValidQuad(cfg)
    ensures QuadMul(cfg, a, FromBase(cfg.base.Ring(), s))
        == Quad(cfg.base.Ring().Mul(a.c0, s), cfg.base.Ring().Mul(a.c1, s))
  {
    var r := cfg.base.Ring();
    KaratsubaIsSchoolbook(cfg, a, FromBase(r, s));
    MulZero(r, a.c1);
    MulZero(r, a.c0);
    MulZero(r, cfg.beta);
    AddZero(r, r.Mul(a.c0, s));
    AddZero(r, r.Mul(a.c1, s));
  }

  /** Whenever the inverse is defined it is one; it is defined exactly when the norm is invertible. */
  lemma QuadInvertSound<T(!new)>(cfg: QuadConfig<T>, a: Quad<T>)
    requires ValidQuad(cfg)
    ensures QuadInvert(cfg, a).Some? <==> cfg.base.field.Invert(QuadNorm(cfg, a)).Some?
    ensures QuadInvert(cfg, a).Some? ==>
      QuadMul(cfg, a, QuadInvert(cfg, a).value) == FromBase(cfg.base.Ring(), cfg.base.Ring().one)
  {
    var r, q := cfg.base.Ring(), QuadRing(cfg);
    if QuadInvert(cfg, a).Some? {
      var nInv := cfg.base.field.Invert(QuadNorm(cfg, a)).value;
      InvertWorks(cfg.base.field, QuadNorm(cfg, a));
      NegMul(r, a.c1, nInv);
      ScaleIsProduct(cfg, Conjugate(cfg, a), nInv);
      QuadRingIsRing(cfg);
      MulAssociates(q, a, Conjugate(cfg, a), FromBase(r, nInv));
      TimesConjugate(cfg, a);
      FromBaseOfProduct(cfg, QuadNorm(cfg, a), nInv);
    }
  }

  /** The two-multiplication square is the product with itself. */
  lemma QuadSqIsProduct<T(!new)>(cfg: QuadConfig<T>, a: Quad<T>)
    requires ValidQuad(cfg)
    ensures QuadSq(cfg, a) == QuadMul(cfg, a, a)
  {
    KaratsubaIsSchoolbook(cfg, a, a);
    assert SquareIsProduct(cfg.base, a.c0) && SquareIsProduct(cfg.base, a.c1);
    assert FastIsFull(cfg, cfg.base.Sq(a.c1));
    MulCommutes(cfg.base.Ring(), a.c0, a.c1);
  }

  /** Over any level of the tower the quadratic extension is a level of the tower again. */
  lemma QuadIsTower<T(!new)>(cfg: QuadConfig<T>)
    requires ValidQuad(cfg)
    ensures IsTower(QuadTower(cfg))
  {
    var t := QuadTower(cfg);
    QuadRingIsRing(cfg);
    forall a
      ensures InvertSound(t.field, a)
    {
      QuadInvertSound(cfg, a);
    }
    forall a
      ensures SquareIsProduct(t, a)
    {
      QuadSqIsProduct(cfg, a);
    }
  }

  // ---------- when the extension is a field ----------

  ghost predicate IsSquare<T(!new)>(r: Ring<T>, x: T) { exists s :: r.Mul(s, s) == x }

  /** Over a field, a norm vanishes at a nonzero element only if beta is a square. */
  lemma ZeroNorm<T(!new)>(cfg: QuadConfig<T>, a: Quad<T>)
    requires ValidQuad(cfg) && IsField(cfg.base.field)
    requires QuadNorm(cfg, a) == cfg.base.Ring().zero
    ensures a == FromBase(cfg.base.Ring(), cfg.base.Ring().zero) || IsSquare(cfg.base.Ring(), cfg.beta)
  {
    var r, k := cfg.base.Ring(), cfg.base.field;
    NormIs(cfg, a);
    SubSelf(r, r.Mul(a.c0, a.c0), r.Mul(cfg.beta, r.Mul(a.c1, a.c1)));
    if a.c1 == r.zero {
      MulZero(r, r.zero);
      MulZero(r, cfg.beta);
      NoZeroDivisors(k, a.c0, a.c0);
    } else {
      InvertDefined(k, a.c1);
      InvertWorks(k, a.c1);
      var inv := k.Invert(a.c1).value;
      var s := r.Mul(a.c0, inv);
      MulSwap(r, a.c0, inv, a.c0, inv);
      MulSwap(r, a.c1, inv, a.c1, inv);
      MulAssociates(r, cfg.beta, r.Mul(a.c1, a.c1), r.Mul(inv, inv));
      MulOne(r, r.one);
      MulOne(r, cfg.beta);
      assert r.Mul(s, s) == cfg.beta;
    }
  }

  /** Over a field, the extension is a field if and only if beta is not a square. */
  lemma QuadFieldIff<T(!new)>(cfg: QuadConfig<T>)
    requires ValidQuad(cfg) && IsField(cfg.base.field)
    ensures IsField(QuadTower(cfg).field) <==> !IsSquare(cfg.base.Ring(), cfg.beta)
  {
    var r, t := cfg.base.Ring(), QuadTower(cfg);
    QuadIsTower(cfg);
    if IsSquare(r, cfg.beta) {
      var s :| r.Mul(s, s) == cfg.beta;
      var a := Quad(s, r.one);
      NormIs(cfg, a);
      MulOne(r, r.one);
      MulOne(r, cfg.beta);
      SubSelf(r, cfg.beta, cfg.beta);
      InvertDefined(cfg.base.field, QuadNorm(cfg, a));
      assert !InvertTotal(t.field, a);
    } else {
      forall a
        ensures InvertTotal(t.field, a)
      {
        InvertDefined(cfg.base.field, QuadNorm(cfg, a));
        if QuadNorm(cfg, a) == r.zero {
          ZeroNorm(cfg, a);
        }
        if a == FromBase(r, r.zero) {
          NormOfZero(cfg);
        }
      }
    }
  }

  lemma NormOfZero<T(!new)>(cfg: QuadConfig<T>)
    requires ValidQuad(cfg)
    ensures QuadNorm(cfg, FromBase(cfg.base.Ring(), cfg.base.Ring().zero)) == cfg.base.Ring().zero
  {
    var r := cfg.base.Ring();
    NormIs(cfg, FromBase(r, r.zero));
    MulZero(r, r.zero);
    MulZero(r, cfg.beta);
    SubSelf(r, r.zero, r.zero);
  }
}
