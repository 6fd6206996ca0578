/** Frobenius on the quadratic levels, and the concrete sextic and octic towers with their fast
    multiplications by the nonresidue. */
module Towers {
  import opened Rings
  import opened QuadExt
  import opened CubicExt
  import opened CubicNorm

  // ---------- Frobenius ----------

  ghost predicate FrobeniusIsHom<T(!new)>(t: Tower<T>) { IsHomomorphism(t.Ring(), t.Ring(), t.frobenius) }

  /** At x the Frobenius map is the p-th power. */
  ghost predicate FrobeniusIsPower<T>(t: Tower<T>, x: T, p: nat) { t.Frob(x) == Pow(t.Ring(), x, p) }

  /** x^(2n + 1) = x (x^n)^2 and x^(3n + 1) = x (x^n)^3 */
  lemma OddPower<T(!new)>(r: Ring<T>, x: T, n: nat)
    requires IsRing(r)
    ensures Pow(r, x, 2 * n + 1) == r.Mul(x, r.Mul(Pow(r, x, n), Pow(r, x, n)))
    ensures Pow(r, x, 3 * n + 1) == r.Mul(x, Pow(r, Pow(r, x, n), 3))
  {
    PowAdd(r, x, n, n);
    assert n + n == 2 * n && n * 3 == 3 * n;
    PowOfPower(r, x, n, 3);
  }

  /** On a quadratic level Frobenius preserves sums and products, because beta^p = phi(beta). */
  lemma QuadFrobeniusHom<T(!new)>(cfg: QuadConfig<T>)
    requires ValidQuad(cfg) && FrobeniusIsHom(cfg.base)
    requires FrobeniusIsPower(cfg.base, cfg.beta, 2 * cfg.halfOrder + 1)
    ensures FrobeniusIsHom(QuadTower(cfg))
  {
    var r, t, g := cfg.base.Ring(), QuadTower(cfg), Gamma(cfg);
    OddPower(r, cfg.beta, cfg.halfOrder);
    MulZero(r, g);
    forall a, b
      ensures Preserves(t.Ring(), t.Ring(), t.frobenius, a, b)
    {
      QuadFrobeniusAdd(cfg, a, b);
      QuadFrobeniusMul(cfg, a, b);
    }
  }

  lemma QuadFrobeniusAdd<T(!new)>(cfg: QuadConfig<T>, a: Quad<T>, b: Quad<T>)
    requires ValidQuad(cfg) && FrobeniusIsHom(cfg.base)
    ensures QuadFrobenius(cfg, PairAdd(cfg.base.Ring(), a, b))
        == PairAdd(cfg.base.Ring(), QuadFrobenius(cfg, a), QuadFrobenius(cfg, b))
  {
    var r, h := cfg.base.Ring(), cfg.base.frobenius;
    HomAdd(r, r, h, a.c0, b.c0);
    HomAdd(r, r, h, a.c1, b.c1);
    Distributes(r, Gamma(cfg), h(a.c1), h(b.c1));
  }

  lemma QuadFrobeniusMul<T(!new)>(cfg: QuadConfig<T>, a: Quad<T>, b: Quad<T>)
    requires ValidQuad(cfg) && FrobeniusIsHom(cfg.base)
    requires cfg.base.Frob(cfg.beta) == cfg.base.Ring().Mul(cfg.beta, cfg.base.Ring().Mul(Gamma(cfg), Gamma(cfg)))
    ensures QuadFrobenius(cfg, QuadMul(cfg, a, b)) == QuadMul(cfg, QuadFrobenius(cfg, a), QuadFrobenius(cfg, b))
  {
    var r, h, g := cfg.base.Ring(), cfg.base.frobenius, Gamma(cfg);
    KaratsubaIsSchoolbook(cfg, a, b);
    KaratsubaIsSchoolbook(cfg, QuadFrobenius(cfg, a), QuadFrobenius(cfg, b));
    var p := r.Mul(a.c1, b.c1);
    HomTwoProducts(r, h, a.c0, b.c0, cfg.beta, p);
    HomMul(r, r, h, a.c1, b.c1);
    MulSwap(r, h(a.c1), g, h(b.c1), g);
    MulAssociates(r, cfg.beta, r.Mul(g, g), h(p));
    MulCommutes(r, r.Mul(g, g), h(p));
    HomTwoProducts(r, h, a.c0, b.c1, a.c1, b.c0);
    var (x, y) := (r.Mul(h(a.c0), h(b.c1)), r.Mul(h(a.c1), h(b.c0)));
    Distributes(r, g, x, y);
    MulAssociates(r, h(a.c0), h(b.c1), g);
    MulSwap(r, h(a.c1), g, h(b.c0), r.one);
    MulOne(r, h(b.c0));
    MulOne(r, g);
  }

  /** On a cubic level Frobenius preserves sums and products, because W^p = phi(W). */
  lemma CubeFrobeniusHom<T(!new)>(cfg: CubeConfig<T>)
    requires ValidCube(cfg) && FrobeniusIsHom(cfg.base)
    requires FrobeniusIsPower(cfg.base, cfg.w, 3 * cfg.thirdOrder + 1)
    ensures FrobeniusIsHom(CubeTower(cfg))
  {
    var r, t, h := cfg.R(), CubeTower(cfg), cfg.base.frobenius;
    OddPower(r, cfg.w, cfg.thirdOrder);
    TwistIsHom(cfg, h, Omega(cfg));
    var twist := a => TwistMap(r, h, Omega(cfg), a);
    forall a, b
      ensures Preserves(t.Ring(), t.Ring(), t.frobenius, a, b)
    {
      assert Preserves(t.Ring(), t.Ring(), twist, a, b);
      assert forall x :: t.frobenius(x) == twist(x);
    }
    assert t.frobenius(t.Ring().one) == twist(t.Ring().one);
    assert t.frobenius(t.Ring().zero) == twist(t.Ring().zero);
  }

  // ---------- generators ----------

  function Gen<T>(r: Ring<T>): Quad<T> { Quad(r.zero, r.one) }

  function Alpha<T>(r: Ring<T>): Cube<T> { Cube(r.zero, r.one, r.zero) }

  /** u a = (beta a1, a0): the generator squares to the nonresidue. */
  lemma TimesGen<T(!new)>(cfg: QuadConfig<T>, a: Quad<T>)
    requires ValidQuad(cfg)
    ensures QuadMul(cfg, Gen(cfg.base.Ring()), a) == Quad(cfg.base.Ring().Mul(cfg.beta, a.c1), a.c0)
  {
    var r := cfg.base.Ring();
    KaratsubaIsSchoolbook(cfg, Gen(r), a);
    MulOne(r, a.c1);
    MulOne(r, a.c0);
    MulZero(r, a.c0);
    MulZero(r, a.c1);
    AddZero(r, r.Mul(cfg.beta, a.c1));
    AddZero(r, a.c0);
  }

  /** alpha a = (W a2, a0, a1) */
  lemma TimesAlpha<T(!new)>(cfg: CubeConfig<T>, a: Cube<T>)
    requires ValidCube(cfg)
    ensures CubeMul(cfg, Alpha(cfg.R()), a) == Cube(cfg.R().Mul(cfg.w, a.c2), a.c0, a.c1)
  {
    var r, w := cfg.R(), cfg.w;
    MulOne(r, a.c2);
    MulOne(r, a.c0);
    MulOne(r, a.c1);
    MulZero(r, a.c0);
    MulZero(r, a.c1);
    MulZero(r, a.c2);
    MulZero(r, w);
    AddZero(r, a.c2);
    AddZero(r, a.c0);
    AddZero(r, a.c1);
    AddZero(r, r.Mul(w, a.c2));
    assert FastWIsFull(cfg, a.c2) && FastWIsFull(cfg, r.zero);
  }

  lemma {:induction false} PowFromBase<T(!new)>(cfg: QuadConfig<T>, x: T, n: nat)
    requires ValidQuad(cfg)
    ensures Pow(QuadRing(cfg), FromBase(cfg.base.Ring(), x), n) == FromBase(cfg.base.Ring(), Pow(cfg.base.Ring(), x, n))
  {
    if n != 0 {
      PowFromBase(cfg, x, n - 1);
      FromBaseOfProduct(cfg, x, Pow(cfg.base.Ring(), x, n - 1));
    }
  }

  lemma {:induction false} PowCubeFrom<T(!new)>(cfg: CubeConfig<T>, x: T, n: nat)
    requires ValidCube(cfg)
    ensures Pow(CubeRing(cfg), CubeFrom(cfg.R(), x), n) == CubeFrom(cfg.R(), Pow(cfg.R(), x, n))
  {
    if n != 0 {
      var r := cfg.R();
      PowCubeFrom(cfg, x, n - 1);
      CubeTimesBase(cfg, CubeFrom(r, x), Pow(r, x, n - 1));
      MulZero(r, Pow(r, x, n - 1));
    }
  }

  /** Frobenius sends the generator u to u^p, so the next level may adjoin a square root of u. */
  lemma FrobeniusOfGen<T(!new)>(cfg: QuadConfig<T>)
    requires ValidQuad(cfg) && FrobeniusIsHom(cfg.base)
    ensures FrobeniusIsPower(QuadTower(cfg), Gen(cfg.base.Ring()), 2 * cfg.halfOrder + 1)
  {
    var r, q, n := cfg.base.Ring(), QuadRing(cfg), cfg.halfOrder;
    var u := Gen(r);
    QuadRingIsRing(cfg);
    TimesGen(cfg, u);
    MulOne(r, cfg.beta);
    assert q.Mul(u, u) == FromBase(r, cfg.beta);
    PowSmall(q, u);
    PowOfPower(q, u, 2, n);
    PowFromBase(cfg, cfg.beta, n);
    TimesGen(cfg, FromBase(r, Gamma(cfg)));
    MulZero(r, cfg.beta);
    MulOne(r, Gamma(cfg));
  }

  lemma AlphaCubed<T(!new)>(cfg: CubeConfig<T>)
    requires ValidCube(cfg)
    ensures Pow(CubeRing(cfg), Alpha(cfg.R()), 3) == CubeFrom(cfg.R(), cfg.w)
  {
    var r, q := cfg.R(), CubeRing(cfg);
    CubeRingIsRing(cfg);
    CubePower(q, Alpha(r));
    TimesAlpha(cfg, Alpha(r));
    MulZero(r, cfg.w);
    TimesAlpha(cfg, Cube(r.zero, r.zero, r.one));
    MulOne(r, cfg.w);
  }

  lemma FrobeniusOfAlpha<T(!new)>(cfg: CubeConfig<T>)
    requires ValidCube(cfg) && FrobeniusIsHom(cfg.base)
    ensures FrobeniusIsPower(CubeTower(cfg), Alpha(cfg.R()), 3 * cfg.thirdOrder + 1)
    ensures CubeFrobenius(cfg, Alpha(cfg.R())) == Cube(cfg.R().zero, Omega(cfg), cfg.R().zero)
  {
    var r, q, n := cfg.R(), CubeRing(cfg), cfg.thirdOrder;
    var a := Alpha(r);
    CubeRingIsRing(cfg);
    AlphaCubed(cfg);
    PowOfPower(q, a, 3, n);
    PowCubeFrom(cfg, cfg.w, n);
    TimesAlpha(cfg, CubeFrom(r, Omega(cfg)));
    MulZero(r, cfg.w);
    MulOne(r, Omega(cfg));
    MulZero(r, r.Mul(Omega(cfg), Omega(cfg)));
  }

  // ---------- the concrete towers ----------

  const GOLDILOCKS: nat := 0xFFFF_FFFF_0000_0001

  const THIRD_ORDER: nat := 6148914689804861440

  const HALF_ORDER: nat := 9223372034707292160

  /** F[alpha] with alpha^3 = 7 */
  function CubicConfig<T>(f: Tower<T>, seven: T): CubeConfig<T> {
    CubeConfig(f, seven, x => f.Ring().Mul(seven, x), THIRD_ORDER)
  }

  function CubicTower<T>(f: Tower<T>, seven: T): Tower<Cube<T>> { CubeTower(CubicConfig(f, seven)) }

  /** F^3[u] with u^2 = alpha: one base multiplication and a rotation multiply by alpha. */
  function SexticConfig<T>(f: Tower<T>, seven: T): QuadConfig<Cube<T>> {
    QuadConfig(CubicTower(f, seven), Alpha(f.Ring()), (x: Cube<T>) => Cube(CubicConfig(f, seven).ByW(x.c2), x.c0, x.c1),
               HALF_ORDER)
  }

  function SexticTower<T>(f: Tower<T>, seven: T): Tower<Quad<Cube<T>>> { QuadTower(SexticConfig(f, seven)) }

  /** F[i] with i^2 = 7 */
  function Quad2Config<T>(f: Tower<T>, seven: T): QuadConfig<T> {
    QuadConfig(f, seven, x => f.Ring().Mul(seven, x), HALF_ORDER)
  }

  /** F^2[j] with j^2 = i */
  function QuarticConfig<T>(f: Tower<T>, seven: T): QuadConfig<Quad<T>> {
    QuadConfig(QuadTower(Quad2Config(f, seven)), Gen(f.Ring()), (x: Quad<T>) => Quad(f.Ring().Mul(x.c1, seven), x.c0),
               HALF_ORDER)
  }

  /** F^4[k] with k^2 = j */
  function OcticConfig<T>(f: Tower<T>, seven: T): QuadConfig<Quad<Quad<T>>> {
    var quartic := QuarticConfig(f, seven);
    QuadConfig(QuadTower(quartic), Gen(quartic.base.Ring()), (x: Quad<Quad<T>>) => Quad(quartic.ByBeta(x.c1), x.c0),
               HALF_ORDER)
  }

  function OcticTower<T>(f: Tower<T>, seven: T): Tower<Quad<Quad<Quad<T>>>> { QuadTower(OcticConfig(f, seven)) }

  lemma CubicValid<T(!new)>(f: Tower<T>, seven: T)
    requires IsTower(f)
    ensures ValidCube(CubicConfig(f, seven)) && IsTower(CubicTower(f, seven))
  {
    assert forall x :: FastWIsFull(CubicConfig(f, seven), x);
    CubeIsTower(CubicConfig(f, seven));
  }

  /** The rotation that multiplies by alpha equals the full multiplication, and the sextic tower is a
      commutative ring with a sound inverse over any base. */
  lemma SexticValid<T(!new)>(f: Tower<T>, seven: T)
    requires IsTower(f)
    ensures ValidQuad(SexticConfig(f, seven)) && IsTower(SexticTower(f, seven))
  {
    var cfg := SexticConfig(f, seven);
    CubicValid(f, seven);
    forall x
      ensures FastIsFull(cfg, x)
    {
      TimesAlpha(CubicConfig(f, seven), x);
    }
    QuadIsTower(cfg);
  }

  /** The same for the three levels of the octic tower. */
  lemma OcticValid<T(!new)>(f: Tower<T>, seven: T)
    requires IsTower(f)
    ensures ValidQuad(Quad2Config(f, seven)) && ValidQuad(QuarticConfig(f, seven)) && ValidQuad(OcticConfig(f, seven))
    ensures IsTower(OcticTower(f, seven))
  {
    var c2, c4, c8 := Quad2Config(f, seven), QuarticConfig(f, seven), OcticConfig(f, seven);
    assert forall x :: FastIsFull(c2, x);
    QuadIsTower(c2);
    forall x
      ensures FastIsFull(c4, x)
    {
      TimesGen(c2, x);
      MulCommutes(f.Ring(), x.c1, seven);
    }
    QuadIsTower(c4);
    forall x
      ensures FastIsFull(c8, x)
    {
      TimesGen(c4, x);
      assert FastIsFull(c4, x.c1);
    }
    QuadIsTower(c8);
  }

  // ---------- Frobenius on the concrete towers ----------

  /** The ground field: Frobenius does nothing and 7 is a nonresidue by Euler's criterion. */
  ghost predicate IsGround<T(!new)>(f: Tower<T>, seven: T) {
    && IsTower(f) && (forall x :: f.Frob(x) == x)
    && Pow(f.Ring(), seven, HALF_ORDER) == f.Ring().Neg(f.Ring().one)
  }

  lemma GroundFrobenius<T(!new)>(f: Tower<T>, seven: T)
    requires IsGround(f, seven)
    ensures FrobeniusIsHom(f) && FrobeniusIsPower(f, seven, GOLDILOCKS)
    ensures Pow(f.Ring(), Pow(f.Ring(), seven, THIRD_ORDER), 3) == f.Ring().one
  {
    var r := f.Ring();
    assert forall x, y :: Preserves(r, r, f.frobenius, x, y) by {
      forall x, y
        ensures Preserves(r, r, f.frobenius, x, y)
      {
        assert f.Frob(r.Add(x, y)) == r.Add(x, y) && f.Frob(r.Mul(x, y)) == r.Mul(x, y);
        assert f.Frob(x) == x && f.Frob(y) == y;
      }
    }
    assert f.Frob(r.zero) == r.zero && f.Frob(r.one) == r.one;
    var p := Pow(r, seven, HALF_ORDER);
    PowAdd(r, seven, HALF_ORDER, HALF_ORDER);
    assert HALF_ORDER + HALF_ORDER + 1 == GOLDILOCKS && THIRD_ORDER * 3 == HALF_ORDER + HALF_ORDER;
    NegMul(r, r.one, p);
    MulOne(r, p);
    NegNeg(r, r.one);
    MulOne(r, seven);
    PowOfPower(r, seven, THIRD_ORDER, 3);
  }

  /** Frobenius is a ring homomorphism on the cubic and on the sextic extension. */
  lemma SexticFrobeniusHom<T(!new)>(f: Tower<T>, seven: T)
    requires IsGround(f, seven)
    ensures FrobeniusIsHom(CubicTower(f, seven)) && FrobeniusIsHom(SexticTower(f, seven))
  {
    CubicValid(f, seven);
    SexticValid(f, seven);
    GroundFrobenius(f, seven);
    assert 3 * THIRD_ORDER + 1 == GOLDILOCKS == 2 * HALF_ORDER + 1;
    CubeFrobeniusHom(CubicConfig(f, seven));
    FrobeniusOfAlpha(CubicConfig(f, seven));
    QuadFrobeniusHom(SexticConfig(f, seven));
  }

  /** Frobenius is a ring homomorphism on all three levels of the octic tower. */
  lemma OcticFrobeniusHom<T(!new)>(f: Tower<T>, seven: T)
    requires IsGround(f, seven)
    ensures FrobeniusIsHom(QuadTower(Quad2Config(f, seven))) && FrobeniusIsHom(QuadTower(QuarticConfig(f, seven)))
    ensures FrobeniusIsHom(OcticTower(f, seven))
  {
    OcticValid(f, seven);
    GroundFrobenius(f, seven);
    assert GOLDILOCKS == 2 * HALF_ORDER + 1;
    QuadFrobeniusHom(Quad2Config(f, seven));
    FrobeniusOfGen(Quad2Config(f, seven));
    QuadFrobeniusHom(QuarticConfig(f, seven));
    FrobeniusOfGen(QuarticConfig(f, seven));
    QuadFrobeniusHom(OcticConfig(f, seven));
  }

  /** The cube of the cubic Frobenius is the identity, because omega^3 = 1. */
  lemma CubicFrobeniusOrder<T(!new)>(f: Tower<T>, seven: T, a: Cube<T>)
    requires IsGround(f, seven)
    ensures var t := CubicTower(f, seven); t.Frob(t.Frob(t.Frob(a))) == a
  {
    var cfg, r := CubicConfig(f, seven), f.Ring();
    var o := Omega(cfg);
    var o2 := r.Mul(o, o);
    GroundFrobenius(f, seven);
    CubePower(r, o);
    assert r.Mul(o, o2) == r.one;
    assert forall x :: f.Frob(x) == x;
    assert cfg.base.Frob(a.c0) == a.c0;
    ThriceScaled(r, a.c1, o);
    ThriceScaled(r, a.c2, o2);
    MulSwap(r, o, o, o2, o2);
    MulSwap(r, o, o, o, o);
    MulAssociates(r, o2, o2, o2);
    MulSwap(r, o, o2, o, o2);
    MulOne(r, r.one);
  }

  /** ((x s) s) s = x (s (s s)) */
  lemma ThriceScaled<T(!new)>(r: Ring<T>, x: T, s: T)
    requires IsRing(r)
    ensures r.Mul(r.Mul(r.Mul(x, s), s), s) == r.Mul(x, r.Mul(s, r.Mul(s, s)))
    ensures r.Mul(s, r.Mul(s, s)) == r.one ==> r.Mul(r.Mul(r.Mul(x, s), s), s) == x
  {
    MulAssociates(r, x, s, s);
    MulAssociates(r, x, r.Mul(s, s), s);
    MulAssociates(r, s, s, s);
    MulOne(r, x);
  }

  /** gamma phi(gamma) phi^2(gamma) = -1, since alpha phi(alpha) phi^2(alpha) = 7. */
  lemma GammaNorm<T(!new)>(f: Tower<T>, seven: T)
    requires IsGround(f, seven)
    ensures
      var t := CubicTower(f, seven);
      var g := Gamma(SexticConfig(f, seven));
      t.Ring().Mul(t.Ring().Mul(g, t.Frob(g)), t.Frob(t.Frob(g))) == t.Ring().Neg(t.Ring().one)
  {
    var t, cfg, r := CubicTower(f, seven), CubicConfig(f, seven), f.Ring();
    var q, a := t.Ring(), Alpha(r);
    CubicValid(f, seven);
    SexticFrobeniusHom(f, seven);
    GroundFrobenius(f, seven);
    CubeRingIsRing(cfg);
    var (fa, ffa) := (t.Frob(a), t.Frob(t.Frob(a)));
    HomPow(q, q, t.frobenius, a, HALF_ORDER);
    HomPow(q, q, t.frobenius, fa, HALF_ORDER);
    PowOfProduct(q, a, fa, HALF_ORDER);
    PowOfProduct(q, q.Mul(a, fa), ffa, HALF_ORDER);
    AlphaConjugates(f, seven);
    PowCubeFrom(cfg, seven, HALF_ORDER);
    NegZero(r);
  }

  lemma AlphaConjugates<T(!new)>(f: Tower<T>, seven: T)
    requires IsGround(f, seven)
    ensures
      var (t, a) := (CubicTower(f, seven), Alpha(f.Ring()));
      t.Ring().Mul(t.Ring().Mul(a, t.Frob(a)), t.Frob(t.Frob(a))) == CubeFrom(f.Ring(), seven)
  {
    var t, cfg, r := CubicTower(f, seven), CubicConfig(f, seven), f.Ring();
    var q, a, o := t.Ring(), Alpha(r), Omega(cfg);
    CubicValid(f, seven);
    GroundFrobenius(f, seven);
    CubeRingIsRing(cfg);
    FrobeniusOfAlpha(cfg);
    var fa := Cube(r.zero, o, r.zero);
    assert f.Frob(o) == o && f.Frob(r.zero) == r.zero;
    MulZero(r, r.Mul(o, o));
    var ffa := Cube(r.zero, r.Mul(o, o), r.zero);
    assert t.Frob(fa) == ffa;
    CubePower(r, o);
    AlphaProducts(cfg, o);
  }

  /** (alpha (omega alpha)) (omega^2 alpha) = omega^3 alpha^3 */
  lemma AlphaProducts<T(!new)>(cfg: CubeConfig<T>, o: T)
    requires ValidCube(cfg) && cfg.R().Mul(o, cfg.R().Mul(o, o)) == cfg.R().one
    ensures
      var (r, q, a) := (cfg.R(), CubeRing(cfg), Alpha(cfg.R()));
      q.Mul(q.Mul(a, Cube(r.zero, o, r.zero)), Cube(r.zero, r.Mul(o, o), r.zero)) == CubeFrom(r, cfg.w)
  {
    var r, q, a := cfg.R(), CubeRing(cfg), Alpha(cfg.R());
    var o2 := r.Mul(o, o);
    TimesAlpha(cfg, Cube(r.zero, o, r.zero));
    MulZero(r, cfg.w);
    CubeTimesBase(cfg, a, o2);
    MulZero(r, o2);
    MulOne(r, o2);
    CubeRingIsRing(cfg);
    var b := Cube(r.zero, r.zero, o);
    // b (alpha o2) = alpha (b o2)
    MulLeftSwap(q, b, a, CubeFrom(r, o2));
    CubeTimesBase(cfg, b, o2);
    TimesAlpha(cfg, Cube(r.zero, r.zero, r.one));
    MulOne(r, cfg.w);
  }

  /** The cube of the sextic Frobenius is conjugation, so its sixth power is the identity. */
  lemma SexticFrobeniusOrder<T(!new)>(f: Tower<T>, seven: T, a: Quad<Cube<T>>)
    requires IsGround(f, seven)
    ensures
      var t := SexticTower(f, seven);
      t.Frob(t.Frob(t.Frob(a))) == Conjugate(SexticConfig(f, seven), a)
  {
    var c, cfg := CubicTower(f, seven), SexticConfig(f, seven);
    var q, g := c.Ring(), Gamma(cfg);
    CubicValid(f, seven);
    SexticFrobeniusHom(f, seven);
    CubicFrobeniusOrder(f, seven, a.c0);
    CubicFrobeniusOrder(f, seven, a.c1);
    GammaNorm(f, seven);
    var x := a.c1;
    var (fx, fg) := (c.Frob(x), c.Frob(g));
    HomMul(q, q, c.frobenius, fx, g);
    HomMul(q, q, c.frobenius, q.Mul(c.Frob(fx), fg), g);
    HomMul(q, q, c.frobenius, c.Frob(fx), fg);
    // ((x f2(g)) f(g)) g
    var ffg := c.Frob(fg);
    MulAssociates(q, q.Mul(x, ffg), fg, g);
    MulAssociates(q, x, ffg, q.Mul(fg, g));
    MulCommutes(q, fg, g);
    MulCommutes(q, ffg, q.Mul(g, fg));
    NegMul(q, x, q.one);
    MulOne(q, x);
  }
}
