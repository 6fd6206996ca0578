/** The generic cubic extension of `cubic_ext.rs`: base[alpha] with alpha^3 = W, over any commutative base. */
module CubicExt {
  import opened Rings
  import opened QuadExt

  datatype Cube<T> = Cube(c0: T, c1: T, c2: T)

  /** `CubeExtConfig`: the base level, W, the possibly faster multiplication by W, and the exponent
      (p - 1) / 3 of the Frobenius constant. */
  datatype CubeConfig<!T> = CubeConfig(base: Tower<T>, w: T, byW: T -> T, thirdOrder: nat) {
    function ByW(x: T): T { byW(x) }

    function R(): Ring<T> { base.Ring() }
  }

  ghost predicate FastWIsFull<T>(cfg: CubeConfig<T>, x: T) { cfg.ByW(x) == cfg.R().Mul(cfg.w, x) }

  ghost predicate ValidCube<T(!new)>(cfg: CubeConfig<T>) {
    IsTower(cfg.base) && forall x :: FastWIsFull(cfg, x)
  }

  // ---------- the operations ----------

  function CubeAdd<T>(r: Ring<T>, x: Cube<T>, y: Cube<T>): Cube<T> {
    Cube(r.Add(x.c0, y.c0), r.Add(x.c1, y.c1), r.Add(x.c2, y.c2))
  }

  function CubeNeg<T>(r: Ring<T>, x: Cube<T>): Cube<T> { Cube(r.Neg(x.c0), r.Neg(x.c1), r.Neg(x.c2)) }

  function CubeFrom<T>(r: Ring<T>, x: T): Cube<T> { Cube(x, r.zero, r.zero) }

  /** Schoolbook multiplication modulo alpha^3 = W. */
  function CubeMul<T>(cfg: CubeConfig<T>, a: Cube<T>, b: Cube<T>): Cube<T> {
    var r := cfg.R();
    Cube(r.Add(r.Mul(a.c0, b.c0), cfg.ByW(r.Add(r.Mul(a.c1, b.c2), r.Mul(a.c2, b.c1)))),
         r.Add(r.Add(r.Mul(a.c0, b.c1), r.Mul(a.c1, b.c0)), cfg.ByW(r.Mul(a.c2, b.c2))),
         r.Add(r.Add(r.Mul(a.c0, b.c2), r.Mul(a.c1, b.c1)), r.Mul(a.c2, b.c0)))
  }

  function CubeSq<T>(cfg: CubeConfig<T>, a: Cube<T>): Cube<T> {
    var r := cfg.R();
    var twoA0 := r.Add(a.c0, a.c0);
    Cube(r.Add(r.Mul(a.c0, a.c0), cfg.ByW(r.Add(r.Mul(a.c1, a.c2), r.Mul(a.c1, a.c2)))),
         r.Add(r.Mul(twoA0, a.c1), cfg.ByW(r.Mul(a.c2, a.c2))),
         r.Add(r.Mul(twoA0, a.c2), r.Mul(a.c1, a.c1)))
  }

  /** a0^3 + W a1^3 + W^2 a2^3 - 3 W a0 a1 a2 */
  function CubeNorm<T>(cfg: CubeConfig<T>, a: Cube<T>): T {
    var r := cfg.R();
    var w2 := r.Mul(cfg.w, cfg.w);
    var threeW := r.Add(r.Add(cfg.w, cfg.w), cfg.w);
    var cubes := r.Add(r.Add(r.Mul(r.Mul(a.c0, a.c0), a.c0), cfg.ByW(r.Mul(r.Mul(a.c1, a.c1), a.c1))),
                       r.Mul(w2, r.Mul(r.Mul(a.c2, a.c2), a.c2)));
    r.Sub(cubes, r.Mul(r.Mul(r.Mul(threeW, a.c0), a.c1), a.c2))
  }

  /** The element whose product with a is the norm. */
  function Adjugate<T>(cfg: CubeConfig<T>, a: Cube<T>): Cube<T> {
    var r := cfg.R();
    Cube(r.Sub(r.Mul(a.c0, a.c0), cfg.ByW(r.Mul(a.c1, a.c2))),
         r.Sub(cfg.ByW(r.Mul(a.c2, a.c2)), r.Mul(a.c0, a.c1)),
         r.Sub(r.Mul(a.c1, a.c1), r.Mul(a.c0, a.c2)))
  }

  function CubeInvert<T>(cfg: CubeConfig<T>, a: Cube<T>): Option<Cube<T>> {
    var r := cfg.R();
    match cfg.base.field.Invert(CubeNorm(cfg, a))
    case None => None
    case Some(nInv) =>
      var d := Adjugate(cfg, a);
      Some(Cube(r.Mul(d.c0, nInv), r.Mul(d.c1, nInv), r.Mul(d.c2, nInv)))
  }

  function Omega<T>(cfg: CubeConfig<T>): T { Pow(cfg.R(), cfg.w, cfg.thirdOrder) }

  function CubeFrobenius<T>(cfg: CubeConfig<T>, a: Cube<T>): Cube<T> {
    var r, omega := cfg.R(), Omega(cfg);
    Cube(cfg.base.Frob(a.c0), r.Mul(cfg.base.Frob(a.c1), omega), r.Mul(cfg.base.Frob(a.c2), r.Mul(omega, omega)))
  }

  function CubeRing<T>(cfg: CubeConfig<T>): Ring<Cube<T>> {
    var r := cfg.R();
    Ring(CubeFrom(r, r.zero), CubeFrom(r, r.one), (x, y) => CubeAdd(r, x, y), x => CubeNeg(r, x),
         (x, y) => CubeMul(cfg, x, y))
  }

  function CubeTower<T>(cfg: CubeConfig<T>): Tower<Cube<T>> {
    Tower(Field(CubeRing(cfg), x => CubeInvert(cfg, x)), x => CubeSq(cfg, x), x => CubeFrobenius(cfg, x))
  }

  // ---------- the ring laws ----------

  function CScale<T>(r: Ring<T>, s: T, x: Cube<T>): Cube<T> { Cube(r.Mul(s, x.c0), r.Mul(s, x.c1), r.Mul(s, x.c2)) }

  /** Multiplication by alpha. */
  function CShift<T>(r: Ring<T>, w: T, x: Cube<T>): Cube<T> { Cube(r.Mul(w, x.c2), x.c0, x.c1) }

  /** The product as the operator c0 + c1 alpha + c2 alpha^2 applied to y. */
  function CApply<T>(r: Ring<T>, w: T, x: Cube<T>, y: Cube<T>): Cube<T> {
    var sy := CShift(r, w, y);
    CubeAdd(r, CubeAdd(r, CScale(r, x.c0, y), CScale(r, x.c1, sy)), CScale(r, x.c2, CShift(r, w, sy)))
  }

  lemma CAddSwap<T(!new)>(r: Ring<T>, a: Cube<T>, b: Cube<T>, c: Cube<T>, d: Cube<T>)
    requires IsRing(r)
    ensures CubeAdd(r, CubeAdd(r, a, b), CubeAdd(r, c, d)) == CubeAdd(r, CubeAdd(r, a, c), CubeAdd(r, b, d))
  {
    AddSwap(r, a.c0, b.c0, c.c0, d.c0);
    AddSwap(r, a.c1, b.c1, c.c1, d.c1);
    AddSwap(r, a.c2, b.c2, c.c2, d.c2);
  }

  lemma CScaleAdd<T(!new)>(r: Ring<T>, s: T, x: Cube<T>, y: Cube<T>)
    requires IsRing(r)
    ensures CScale(r, s, CubeAdd(r, x, y)) == CubeAdd(r, CScale(r, s, x), CScale(r, s, y))
  {
    Distributes(r, s, x.c0, y.c0);
    Distributes(r, s, x.c1, y.c1);
    Distributes(r, s, x.c2, y.c2);
  }

  lemma CScaleSwap<T(!new)>(r: Ring<T>, s: T, t: T, x: Cube<T>)
    requires IsRing(r)
    ensures CScale(r, s, CScale(r, t, x)) == CScale(r, t, CScale(r, s, x))
  {
    MulLeftSwap(r, s, t, x.c0);
    MulLeftSwap(r, s, t, x.c1);
    MulLeftSwap(r, s, t, x.c2);
  }

  lemma CShiftAdd<T(!new)>(r: Ring<T>, w: T, x: Cube<T>, y: Cube<T>)
    requires IsRing(r)
    ensures CShift(r, w, CubeAdd(r, x, y)) == CubeAdd(r, CShift(r, w, x), CShift(r, w, y))
  {
    Distributes(r, w, x.c2, y.c2);
  }

  lemma CShiftScale<T(!new)>(r: Ring<T>, w: T, s: T, x: Cube<T>)
    requires IsRing(r)
    ensures CShift(r, w, CScale(r, s, x)) == CScale(r, s, CShift(r, w, x))
  {
    MulLeftSwap(r, w, s, x.c2);
  }

  /** Three sums added term by term. */
  lemma CAddThree<T(!new)>(r: Ring<T>, a: Cube<T>, b: Cube<T>, c: Cube<T>, x: Cube<T>, y: Cube<T>, z: Cube<T>)
    requires IsRing(r)
    ensures CubeAdd(r, CubeAdd(r, CubeAdd(r, a, x), CubeAdd(r, b, y)), CubeAdd(r, c, z))
         == CubeAdd(r, CubeAdd(r, CubeAdd(r, a, b), c), CubeAdd(r, CubeAdd(r, x, y), z))
  {
    CAddSwap(r, a, x, b, y);
    CAddSwap(r, CubeAdd(r, a, b), CubeAdd(r, x, y), c, z);
  }

  lemma CApplyAdd<T(!new)>(r: Ring<T>, w: T, a: Cube<T>, x: Cube<T>, y: Cube<T>)
    requires IsRing(r)
    ensures CApply(r, w, a, CubeAdd(r, x, y)) == CubeAdd(r, CApply(r, w, a, x), CApply(r, w, a, y))
  {
    var (sx, sy) := (CShift(r, w, x), CShift(r, w, y));
    var (tx, ty) := (CShift(r, w, sx), CShift(r, w, sy));
    CShiftAdd(r, w, x, y);
    CShiftAdd(r, w, sx, sy);
    CScaleAdd(r, a.c0, x, y);
    CScaleAdd(r, a.c1, sx, sy);
    CScaleAdd(r, a.c2, tx, ty);
    CAddThree(r, CScale(r, a.c0, x), CScale(r, a.c1, sx), CScale(r, a.c2, tx), CScale(r, a.c0, y), CScale(r, a.c1, sy),
              CScale(r, a.c2, ty));
  }

  lemma CApplyScale<T(!new)>(r: Ring<T>, w: T, a: Cube<T>, s: T, x: Cube<T>)
    requires IsRing(r)
    ensures CApply(r, w, a, CScale(r, s, x)) == CScale(r, s, CApply(r, w, a, x))
  {
    var sx := CShift(r, w, x);
    var tx := CShift(r, w, sx);
    CShiftScale(r, w, s, x);
    CShiftScale(r, w, s, sx);
    CScaleSwap(r, a.c0, s, x);
    CScaleSwap(r, a.c1, s, sx);
    CScaleSwap(r, a.c2, s, tx);
    CScaleAdd(r, s, CScale(r, a.c0, x), CScale(r, a.c1, sx));
    CScaleAdd(r, s, CubeAdd(r, CScale(r, a.c0, x), CScale(r, a.c1, sx)), CScale(r, a.c2, tx));
  }

  lemma CApplyShift<T(!new)>(r: Ring<T>, w: T, a: Cube<T>, x: Cube<T>)
    requires IsRing(r)
    ensures CApply(r, w, a, CShift(r, w, x)) == CShift(r, w, CApply(r, w, a, x))
  {
    var sx := CShift(r, w, x);
    var tx := CShift(r, w, sx);
    CShiftAdd(r, w, CScale(r, a.c0, x), CScale(r, a.c1, sx));
    CShiftAdd(r, w, CubeAdd(r, CScale(r, a.c0, x), CScale(r, a.c1, sx)), CScale(r, a.c2, tx));
    CShiftScale(r, w, a.c0, x);
    CShiftScale(r, w, a.c1, sx);
    CShiftScale(r, w, a.c2, tx);
  }

  /** Two operators commute. */
  lemma CApplySwap<T(!new)>(r: Ring<T>, w: T, a: Cube<T>, b: Cube<T>, x: Cube<T>)
    requires IsRing(r)
    ensures CApply(r, w, a, CApply(r, w, b, x)) == CApply(r, w, b, CApply(r, w, a, x))
  {
    var sx := CShift(r, w, x);
    var tx := CShift(r, w, sx);
    CApplyAdd(r, w, a, CubeAdd(r, CScale(r, b.c0, x), CScale(r, b.c1, sx)), CScale(r, b.c2, tx));
    CApplyAdd(r, w, a, CScale(r, b.c0, x), CScale(r, b.c1, sx));
    CApplyScale(r, w, a, b.c0, x);
    CApplyScale(r, w, a, b.c1, sx);
    CApplyScale(r, w, a, b.c2, tx);
    CApplyShift(r, w, a, x);
    CApplyShift(r, w, a, sx);
  }

  lemma CubeMulIsApply<T(!new)>(cfg: CubeConfig<T>, a: Cube<T>, b: Cube<T>)
    requires ValidCube(cfg)
    ensures CubeMul(cfg, a, b) == CApply(cfg.R(), cfg.w, a, b)
  {
    var r, w := cfg.R(), cfg.w;
    var (x, y) := (r.Mul(a.c1, b.c2), r.Mul(a.c2, b.c1));
    assert FastWIsFull(cfg, r.Add(x, y)) && FastWIsFull(cfg, r.Mul(a.c2, b.c2));
    Distributes(r, w, x, y);
    MulLeftSwap(r, a.c1, w, b.c2);
    MulLeftSwap(r, a.c2, w, b.c1);
    MulLeftSwap(r, a.c2, w, b.c2);
    AddAssociates(r, r.Mul(a.c0, b.c0), r.Mul(w, x), r.Mul(w, y));
  }

  lemma CubeMulCommutes<T(!new)>(cfg: CubeConfig<T>, a: Cube<T>, b: Cube<T>)
    requires ValidCube(cfg)
    ensures CubeMul(cfg, a, b) == CubeMul(cfg, b, a)
  {
    var r := cfg.R();
    MulCommutes(r, a.c0, b.c0);
    MulCommutes(r, a.c1, b.c2);
    MulCommutes(r, a.c2, b.c1);
    AddCommutes(r, r.Mul(a.c1, b.c2), r.Mul(a.c2, b.c1));
    MulCommutes(r, a.c0, b.c1);
    MulCommutes(r, a.c1, b.c0);
    AddCommutes(r, r.Mul(a.c0, b.c1), r.Mul(a.c1, b.c0));
    MulCommutes(r, a.c2, b.c2);
    MulCommutes(r, a.c0, b.c2);
    MulCommutes(r, a.c1, b.c1);
    MulCommutes(r, a.c2, b.c0);
    AddRotate(r, r.Mul(a.c0, b.c2), r.Mul(a.c1, b.c1), r.Mul(a.c2, b.c0));
  }

  /** (x + y) + z = (z + y) + x */
  lemma AddRotate<T(!new)>(r: Ring<T>, x: T, y: T, z: T)
    requires IsRing(r)
    ensures r.Add(r.Add(x, y), z) == r.Add(r.Add(z, y), x)
  {
    AddCommutes(r, r.Add(x, y), z);
    AddCommutes(r, x, y);
    AddAssociates(r, z, y, x);
  }

  lemma CubeMulAssociates<T(!new)>(cfg: CubeConfig<T>, a: Cube<T>, b: Cube<T>, c: Cube<T>)
    requires ValidCube(cfg)
    ensures CubeMul(cfg, CubeMul(cfg, a, b), c) == CubeMul(cfg, a, CubeMul(cfg, b, c))
  {
    var r, w := cfg.R(), cfg.w;
    CubeMulCommutes(cfg, CubeMul(cfg, a, b), c);
    CubeMulIsApply(cfg, c, CubeMul(cfg, a, b));
    CubeMulIsApply(cfg, a, b);
    CApplySwap(r, w, c, a, b);
    CubeMulIsApply(cfg, c, b);
    CubeMulIsApply(cfg, a, CubeMul(cfg, c, b));
    CubeMulCommutes(cfg, c, b);
  }

  lemma CubeMulOne<T(!new)>(cfg: CubeConfig<T>, a: Cube<T>)
    requires ValidCube(cfg)
    ensures CubeMul(cfg, a, CubeFrom(cfg.R(), cfg.R().one)) == a
  {
    var r := cfg.R();
    CubeTimesBase(cfg, a, r.one);
    MulOne(r, a.c0);
    MulOne(r, a.c1);
    MulOne(r, a.c2);
  }

  /** Multiplying by a base element scales every component. */
  lemma CubeTimesBase<T(!new)>(cfg: CubeConfig<T>, a: Cube<T>, s: T)
    requires ValidCube(cfg)
    ensures CubeMul(cfg, a, CubeFrom(cfg.R(), s))
        == Cube(cfg.R().Mul(a.c0, s), cfg.R().Mul(a.c1, s), cfg.R().Mul(a.c2, s))
  {
    var r := cfg.R();
    assert FastWIsFull(cfg, r.zero);
    MulZero(r, a.c0);
    MulZero(r, a.c1);
    MulZero(r, a.c2);
    MulZero(r, cfg.w);
    AddZero(r, r.zero);
    AddZero(r, r.Mul(a.c0, s));
    AddZero(r, r.Mul(a.c1, s));
    AddZero(r, r.Mul(a.c2, s));
  }

  /** Adjoining alpha with alpha^3 = W to a commutative ring gives a commutative ring. */
  lemma CubeRingIsRing<T(!new)>(cfg: CubeConfig<T>)
    requires ValidCube(cfg)
    ensures IsRing(CubeRing(cfg))
  {
    var r, q := cfg.R(), CubeRing(cfg);
    CubeAdditive(cfg);
    forall a, b
      ensures MulComm(q, a, b)
    {
      CubeMulCommutes(cfg, a, b);
    }
    forall a, b, c
      ensures MulAssoc(q, a, b, c)
    {
      CubeMulAssociates(cfg, a, b, c);
    }
    forall a
      ensures MulUnit(q, a)
    {
      CubeMulOne(cfg, a);
    }
    forall a, b, c
      ensures Distrib(q, a, b, c)
    {
      CubeMulIsApply(cfg, a, CubeAdd(r, b, c));
      CubeMulIsApply(cfg, a, b);
      CubeMulIsApply(cfg, a, c);
      CApplyAdd(r, cfg.w, a, b, c);
    }
  }

  lemma CubeAdditive<T(!new)>(cfg: CubeConfig<T>)
    requires ValidCube(cfg)
    ensures
      var q := CubeRing(cfg);
      && (forall a, b :: AddComm(q, a, b)) && (forall a, b, c :: AddAssoc(q, a, b, c))
      && (forall a :: AddUnit(q, a)) && (forall a :: AddInverse(q, a))
  {
    var r, q := cfg.R(), CubeRing(cfg);
    forall a, b
      ensures AddComm(q, a, b)
    {
      AddCommutes(r, a.c0, b.c0);
      AddCommutes(r, a.c1, b.c1);
      AddCommutes(r, a.c2, b.c2);
    }
    forall a, b, c
      ensures AddAssoc(q, a, b, c)
    {
      AddAssociates(r, a.c0, b.c0, c.c0);
      AddAssociates(r, a.c1, b.c1, c.c1);
      AddAssociates(r, a.c2, b.c2, c.c2);
    }
    forall a
      ensures AddUnit(q, a)
    {
      AddZero(r, a.c0);
      AddZero(r, a.c1);
      AddZero(r, a.c2);
    }
    forall a
      ensures AddInverse(q, a)
    {
      AddNegates(r, a.c0);
      AddNegates(r, a.c1);
      AddNegates(r, a.c2);
    }
  }

  /** The shortened square is the product with itself. */
  lemma CubeSqIsProduct<T(!new)>(cfg: CubeConfig<T>, a: Cube<T>)
    requires ValidCube(cfg)
    ensures CubeSq(cfg, a) == CubeMul(cfg, a, a)
  {
    var r := cfg.R();
    MulCommutes(r, a.c1, a.c2);
    Distributes(r, a.c1, a.c0, a.c0);
    MulCommutes(r, a.c1, a.c0);
    Distributes(r, a.c2, a.c0, a.c0);
    MulCommutes(r, a.c2, a.c0);
    var (x, y) := (r.Mul(a.c0, a.c2), r.Mul(a.c1, a.c1));
    AddAssociates(r, x, x, y);
    AddCommutes(r, x, y);
    AddAssociates(r, x, y, x);
  }

  // ---------- norm and inverse ----------

  /** (x - y) + (y - z) + (z - x) = 0 */
  lemma Telescope<T(!new)>(r: Ring<T>, x: T, y: T, z: T)
    requires IsRing(r)
    ensures r.Add(r.Add(r.Sub(x, y), r.Sub(y, z)), r.Sub(z, x)) == r.zero
  {
    SubChain(r, x, y, z);
    SubChain(r, x, z, x);
    SubSelf(r, x, x);
  }

  lemma SubChain<T(!new)>(r: Ring<T>, x: T, y: T, z: T)
    requires IsRing(r)
    ensures r.Add(r.Sub(x, y), r.Sub(y, z)) == r.Sub(x, z)
  {
    AddAssociates(r, r.Sub(x, y), y, r.Neg(z));
    SubAdd(r, x, y);
  }

  /** (p - t) + ((q - t) + (s - t)) = (p + q + s) - (t + t + t) */
  lemma ThreeSubs<T(!new)>(r: Ring<T>, p: T, q: T, s: T, t: T)
    requires IsRing(r)
    ensures r.Add(r.Sub(p, t), r.Add(r.Sub(q, t), r.Sub(s, t))) == r.Sub(r.Add(r.Add(p, q), s), r.Add(r.Add(t, t), t))
  {
    var n := r.Neg(t);
    AddSwap(r, q, n, s, n);
    AddSwap(r, p, n, r.Add(q, s), r.Add(n, n));
    AddAssociates(r, p, q, s);
    NegAdd(r, t, t);
    NegAdd(r, r.Add(t, t), t);
    AddCommutes(r, r.Add(n, n), n);
  }

  lemma FastProducts<T(!new)>(cfg: CubeConfig<T>, a: Cube<T>)
    requires ValidCube(cfg)
    ensures
      var r := cfg.R();
      Adjugate(cfg, a) == Cube(r.Sub(r.Mul(a.c0, a.c0), r.Mul(cfg.w, r.Mul(a.c1, a.c2))),
                               r.Sub(r.Mul(cfg.w, r.Mul(a.c2, a.c2)), r.Mul(a.c0, a.c1)),
                               r.Sub(r.Mul(a.c1, a.c1), r.Mul(a.c0, a.c2)))
  {
    assert FastWIsFull(cfg, cfg.R().Mul(a.c1, a.c2)) && FastWIsFull(cfg, cfg.R().Mul(a.c2, a.c2));
  }

  /** a b c in any order */
  lemma TripleProduct<T(!new)>(r: Ring<T>, a: T, b: T, c: T)
    requires IsRing(r)
    ensures r.Mul(b, r.Mul(a, c)) == r.Mul(a, r.Mul(b, c)) == r.Mul(c, r.Mul(a, b))
  {
    MulLeftSwap(r, b, a, c);
    MulLeftSwap(r, c, a, b);
    MulCommutes(r, b, c);
  }

  lemma TimesAdjugate0<T(!new)>(cfg: CubeConfig<T>, a: Cube<T>)
    requires ValidCube(cfg)
    ensures CubeMul(cfg, a, Adjugate(cfg, a)).c0 == CubeNorm(cfg, a)
  {
    var r, w := cfg.R(), cfg.w;
    var (x, y, z) := (a.c0, a.c1, a.c2);
    var d := Adjugate(cfg, a);
    FastProducts(cfg, a);
    assert FastWIsFull(cfg, r.Add(r.Mul(y, d.c2), r.Mul(z, d.c1)));
    assert FastWIsFull(cfg, r.Mul(r.Mul(y, y), y));
    var t := r.Mul(w, r.Mul(x, r.Mul(y, z)));
    FirstTerm(r, w, x, y, z, t);
    SecondTerm(r, w, x, y, z, t);
    ThirdTerm(r, w, x, y, z, t);
    Distributes(r, w, r.Mul(y, d.c2), r.Mul(z, d.c1));
    ThreeSubs(r, r.Mul(r.Mul(x, x), x), r.Mul(w, r.Mul(r.Mul(y, y), y)), r.Mul(r.Mul(w, w), r.Mul(r.Mul(z, z), z)), t);
    ThreeTimes(r, w, x, y, z, t);
  }

  lemma FirstTerm<T(!new)>(r: Ring<T>, w: T, x: T, y: T, z: T, t: T)
    requires IsRing(r) && t == r.Mul(w, r.Mul(x, r.Mul(y, z)))
    ensures r.Mul(x, r.Sub(r.Mul(x, x), r.Mul(w, r.Mul(y, z)))) == r.Sub(r.Mul(r.Mul(x, x), x), t)
  {
    MulSub(r, x, r.Mul(x, x), r.Mul(w, r.Mul(y, z)));
    MulCommutes(r, x, r.Mul(x, x));
    MulLeftSwap(r, x, w, r.Mul(y, z));
  }

  lemma SecondTerm<T(!new)>(r: Ring<T>, w: T, x: T, y: T, z: T, t: T)
    requires IsRing(r) && t == r.Mul(w, r.Mul(x, r.Mul(y, z)))
    ensures r.Mul(w, r.Mul(y, r.Sub(r.Mul(y, y), r.Mul(x, z)))) == r.Sub(r.Mul(w, r.Mul(r.Mul(y, y), y)), t)
  {
    MulSub(r, y, r.Mul(y, y), r.Mul(x, z));
    MulCommutes(r, y, r.Mul(y, y));
    TripleProduct(r, x, y, z);
    MulSub(r, w, r.Mul(r.Mul(y, y), y), r.Mul(x, r.Mul(y, z)));
  }

  lemma ThirdTerm<T(!new)>(r: Ring<T>, w: T, x: T, y: T, z: T, t: T)
    requires IsRing(r) && t == r.Mul(w, r.Mul(x, r.Mul(y, z)))
    ensures r.Mul(w, r.Mul(z, r.Sub(r.Mul(w, r.Mul(z, z)), r.Mul(x, y))))
        == r.Sub(r.Mul(r.Mul(w, w), r.Mul(r.Mul(z, z), z)), t)
  {
    var c := r.Mul(r.Mul(z, z), z);
    MulSub(r, z, r.Mul(w, r.Mul(z, z)), r.Mul(x, y));
    MulLeftSwap(r, z, w, r.Mul(z, z));
    MulCommutes(r, z, r.Mul(z, z));
    TripleProduct(r, x, y, z);
    MulSub(r, w, r.Mul(w, c), r.Mul(x, r.Mul(y, z)));
    MulAssociates(r, w, w, c);
  }

  lemma ThreeTimes<T(!new)>(r: Ring<T>, w: T, x: T, y: T, z: T, t: T)
    requires IsRing(r) && t == r.Mul(w, r.Mul(x, r.Mul(y, z)))
    ensures r.Mul(r.Mul(r.Mul(r.Add(r.Add(w, w), w), x), y), z) == r.Add(r.Add(t, t), t)
  {
    var w3, m := r.Add(r.Add(w, w), w), r.Mul(x, r.Mul(y, z));
    MulAssociates(r, r.Mul(w3, x), y, z);
    MulAssociates(r, w3, x, r.Mul(y, z));
    Distributes(r, m, r.Add(w, w), w);
    Distributes(r, m, w, w);
  }

  lemma TimesAdjugate1<T(!new)>(cfg: CubeConfig<T>, a: Cube<T>)
    requires ValidCube(cfg)
    ensures CubeMul(cfg, a, Adjugate(cfg, a)).c1 == cfg.R().zero
  {
    var r, w := cfg.R(), cfg.w;
    var (x, y, z) := (a.c0, a.c1, a.c2);
    FastProducts(cfg, a);
    assert FastWIsFull(cfg, r.Mul(z, Adjugate(cfg, a).c2));
    MulSub(r, x, r.Mul(w, r.Mul(z, z)), r.Mul(x, y));
    MulSub(r, y, r.Mul(x, x), r.Mul(w, r.Mul(y, z)));
    MulLeftSwap(r, y, x, x);
    MulCommutes(r, y, x);
    MulSub(r, z, r.Mul(y, y), r.Mul(x, z));
    MulSub(r, w, r.Mul(z, r.Mul(y, y)), r.Mul(z, r.Mul(x, z)));
    MulLeftSwap(r, y, w, r.Mul(y, z));
    TripleProduct(r, y, y, z);
    MulLeftSwap(r, z, x, z);
    MulLeftSwap(r, x, w, r.Mul(z, z));
    Telescope(r, r.Mul(x, r.Mul(w, r.Mul(z, z))), r.Mul(x, r.Mul(x, y)), r.Mul(y, r.Mul(w, r.Mul(y, z))));
  }

  lemma TimesAdjugate2<T(!new)>(cfg: CubeConfig<T>, a: Cube<T>)
    requires ValidCube(cfg)
    ensures CubeMul(cfg, a, Adjugate(cfg, a)).c2 == cfg.R().zero
  {
    var r, w := cfg.R(), cfg.w;
    var (x, y, z) := (a.c0, a.c1, a.c2);
    FastProducts(cfg, a);
    var (p, q, s) := (r.Mul(x, r.Mul(y, y)), r.Mul(x, r.Mul(x, z)), r.Mul(y, r.Mul(w, r.Mul(z, z))));
    MulSub(r, x, r.Mul(y, y), r.Mul(x, z));
    MulSub(r, y, r.Mul(w, r.Mul(z, z)), r.Mul(x, y));
    MulLeftSwap(r, y, x, y);
    MulSub(r, z, r.Mul(x, x), r.Mul(w, r.Mul(y, z)));
    MulLeftSwap(r, z, x, x);
    MulCommutes(r, z, x);
    MulLeftSwap(r, z, w, r.Mul(y, z));
    MulLeftSwap(r, z, y, z);
    MulLeftSwap(r, y, w, r.Mul(z, z));
    // (p - q) + (s - p) + (q - s)
    AddCommutes(r, r.Sub(p, q), r.Sub(s, p));
    Telescope(r, s, p, q);
  }

  /** a times its adjugate is the norm. */
  lemma TimesAdjugate<T(!new)>(cfg: CubeConfig<T>, a: Cube<T>)
    requires ValidCube(cfg)
    ensures CubeMul(cfg, a, Adjugate(cfg, a)) == CubeFrom(cfg.R(), CubeNorm(cfg, a))
  {
    TimesAdjugate0(cfg, a);
    TimesAdjugate1(cfg, a);
    TimesAdjugate2(cfg, a);
  }

  /** Whenever the inverse is defined it is one; it is defined exactly when the norm is invertible. */
  lemma CubeInvertSound<T(!new)>(cfg: CubeConfig<T>, a: Cube<T>)
    requires ValidCube(cfg)
    ensures CubeInvert(cfg, a).Some? <==> cfg.base.field.Invert(CubeNorm(cfg, a)).Some?
    ensures CubeInvert(cfg, a).Some? ==> CubeMul(cfg, a, CubeInvert(cfg, a).value) == CubeFrom(cfg.R(), cfg.R().one)
  {
    if CubeInvert(cfg, a).Some? {
      var r, q := cfg.R(), CubeRing(cfg);
      var n := CubeNorm(cfg, a);
      var nInv := cfg.base.field.Invert(n).value;
      InvertWorks(cfg.base.field, n);
      CubeTimesBase(cfg, Adjugate(cfg, a), nInv);
      CubeRingIsRing(cfg);
      MulAssociates(q, a, Adjugate(cfg, a), CubeFrom(r, nInv));
      TimesAdjugate(cfg, a);
      CubeTimesBase(cfg, CubeFrom(r, n), nInv);
      MulZero(r, nInv);
    }
  }

  /** Over any level of the tower the cubic extension is a level of the tower again. */
  lemma CubeIsTower<T(!new)>(cfg: CubeConfig<T>)
    requires ValidCube(cfg)
    ensures IsTower(CubeTower(cfg))
  {
    var t := CubeTower(cfg);
    CubeRingIsRing(cfg);
    forall a
      ensures InvertSound(t.field, a)
    {
      CubeInvertSound(cfg, a);
    }
    forall a
      ensures SquareIsProduct(t, a)
    {
      CubeSqIsProduct(cfg, a);
    }
  }
}
