/** On every level of the towers over a field of p elements the Frobenius map is x -> x^p, and its order is the
    degree of the level. */
module FrobeniusPower {
  import opened Rings
  import opened PrimeCharacteristic
  import opened QuadExt
  import opened CubicExt
  import opened Towers

  // ---------- Frobenius is the p-th power everywhere ----------

  ghost predicate FrobeniusIsPth<T(!new)>(t: Tower<T>, p: nat) { forall x :: FrobeniusIsPower(t, x, p) }

  /** Homomorphisms that agree at x, at y and at g agree at x + g y. */
  lemma HomsAgree<T(!new)>(q: Ring<T>, h1: T -> T, h2: T -> T, x: T, g: T, y: T)
    requires IsHomomorphism(q, q, h1) && IsHomomorphism(q, q, h2)
    requires h1(x) == h2(x) && h1(g) == h2(g) && h1(y) == h2(y)
    ensures h1(q.Add(x, q.Mul(g, y))) == h2(q.Add(x, q.Mul(g, y)))
  {
    HomAdd(q, q, h1, x, q.Mul(g, y));
    HomAdd(q, q, h2, x, q.Mul(g, y));
    HomMul(q, q, h1, g, y);
    HomMul(q, q, h2, g, y);
  }

  lemma {:induction false} QuadNatElem<T(!new)>(cfg: QuadConfig<T>, n: nat)
    requires ValidQuad(cfg)
    ensures NatElem(QuadRing(cfg), n) == FromBase(cfg.base.Ring(), NatElem(cfg.base.Ring(), n))
  {
    if n > 0 {
      QuadNatElem(cfg, n - 1);
      AddZero(cfg.base.Ring(), cfg.base.Ring().zero);
    }
  }

  lemma {:induction false} CubeNatElem<T(!new)>(cfg: CubeConfig<T>, n: nat)
    requires ValidCube(cfg)
    ensures NatElem(CubeRing(cfg), n) == CubeFrom(cfg.R(), NatElem(cfg.R(), n))
  {
    if n > 0 {
      CubeNatElem(cfg, n - 1);
      AddZero(cfg.R(), cfg.R().zero);
    }
  }

  /** Every pair is x0 + u x1. */
  lemma QuadParts<T(!new)>(cfg: QuadConfig<T>, x: Quad<T>)
    requires ValidQuad(cfg)
    ensures
      var (r, q) := (cfg.base.Ring(), QuadRing(cfg));
      x == q.Add(FromBase(r, x.c0), q.Mul(Gen(r), FromBase(r, x.c1)))
  {
    var r := cfg.base.Ring();
    TimesGen(cfg, FromBase(r, x.c1));
    MulZero(r, cfg.beta);
    AddZero(r, x.c0);
    AddZero(r, x.c1);
  }

  /** On a ground-field element both maps are the ground level's. */
  lemma QuadPthOfBase<T(!new)>(cfg: QuadConfig<T>, p: nat, x: T)
    requires ValidQuad(cfg) && FrobeniusIsHom(cfg.base) && FrobeniusIsPth(cfg.base, p)
    ensures FrobeniusIsPower(QuadTower(cfg), FromBase(cfg.base.Ring(), x), p)
  {
    var r := cfg.base.Ring();
    assert FrobeniusIsPower(cfg.base, x, p);
    PowFromBase(cfg, x, p);
    MulCommutes(r, r.zero, Gamma(cfg));
    MulZero(r, Gamma(cfg));
  }

  lemma QuadPthAt<T(!new)>(cfg: QuadConfig<T>, p: nat, x: Quad<T>)
    requires ValidQuad(cfg) && FrobeniusIsHom(cfg.base) && FrobeniusIsPth(cfg.base, p) && FrobeniusIsHom(QuadTower(cfg))
    requires FrobeniusIsPower(QuadTower(cfg), Gen(cfg.base.Ring()), p)
    requires IsHomomorphism(QuadRing(cfg), QuadRing(cfg), PowerMap(QuadRing(cfg), p))
    ensures FrobeniusIsPower(QuadTower(cfg), x, p)
  {
    var r, q, h := cfg.base.Ring(), QuadRing(cfg), QuadTower(cfg).frobenius;
    var power, x0, x1 := PowerMap(q, p), FromBase(r, x.c0), FromBase(r, x.c1);
    assert h(x0) == power(x0) && h(x1) == power(x1) by {
      QuadPthOfBase(cfg, p, x.c0);
      QuadPthOfBase(cfg, p, x.c1);
    }
    HomsAgree(q, h, power, x0, Gen(r), x1);
    QuadParts(cfg, x);
  }

  lemma QuadPth<T(!new)>(cfg: QuadConfig<T>, p: nat)
    requires ValidQuad(cfg) && FrobeniusIsHom(cfg.base) && FrobeniusIsPth(cfg.base, p)
    requires HasCharacteristic(cfg.base.Ring(), p) && p == 2 * cfg.halfOrder + 1
    ensures FrobeniusIsPth(QuadTower(cfg), p) && HasCharacteristic(QuadRing(cfg), p)
    ensures FrobeniusIsHom(QuadTower(cfg))
  {
    var q := QuadRing(cfg);
    assert FrobeniusIsHom(QuadTower(cfg)) by {
      assert FrobeniusIsPower(cfg.base, cfg.beta, p);
      QuadFrobeniusHom(cfg);
    }
    FrobeniusOfGen(cfg);
    QuadNatElem(cfg, p);
    QuadRingIsRing(cfg);
    PowerIsHom(q, p);
    forall x
      ensures FrobeniusIsPower(QuadTower(cfg), x, p)
    {
      QuadPthAt(cfg, p, x);
    }
  }

  /** Every triple is x0 + alpha (x1 + alpha x2). */
  lemma CubeParts<T(!new)>(cfg: CubeConfig<T>, x: Cube<T>)
    requires ValidCube(cfg)
    ensures
      var (r, q, a) := (cfg.R(), CubeRing(cfg), Alpha(cfg.R()));
      && Cube(x.c1, x.c2, r.zero) == q.Add(CubeFrom(r, x.c1), q.Mul(a, CubeFrom(r, x.c2)))
      && x == q.Add(CubeFrom(r, x.c0), q.Mul(a, Cube(x.c1, x.c2, r.zero)))
  {
    var r := cfg.R();
    TimesAlpha(cfg, CubeFrom(r, x.c2));
    TimesAlpha(cfg, Cube(x.c1, x.c2, r.zero));
    MulZero(r, cfg.w);
    AddZero(r, x.c0);
    AddZero(r, x.c1);
    AddZero(r, x.c2);
    AddZero(r, r.zero);
  }

  lemma CubePthOfBase<T(!new)>(cfg: CubeConfig<T>, p: nat, x: T)
    requires ValidCube(cfg) && FrobeniusIsHom(cfg.base) && FrobeniusIsPth(cfg.base, p)
    ensures FrobeniusIsPower(CubeTower(cfg), CubeFrom(cfg.R(), x), p)
  {
    var r, o := cfg.R(), Omega(cfg);
    assert FrobeniusIsPower(cfg.base, x, p);
    PowCubeFrom(cfg, x, p);
    MulCommutes(r, r.zero, o);
    MulZero(r, o);
    MulCommutes(r, r.zero, r.Mul(o, o));
    MulZero(r, r.Mul(o, o));
  }

  lemma CubePthAt<T(!new)>(cfg: CubeConfig<T>, p: nat, x: Cube<T>)
    requires ValidCube(cfg) && FrobeniusIsHom(cfg.base) && FrobeniusIsPth(cfg.base, p) && FrobeniusIsHom(CubeTower(cfg))
    requires FrobeniusIsPower(CubeTower(cfg), Alpha(cfg.R()), p)
    requires IsHomomorphism(CubeRing(cfg), CubeRing(cfg), PowerMap(CubeRing(cfg), p))
    ensures FrobeniusIsPower(CubeTower(cfg), x, p)
  {
    var r, q, h, a := cfg.R(), CubeRing(cfg), CubeTower(cfg).frobenius, Alpha(cfg.R());
    var power, x0, x1, x2 := PowerMap(q, p), CubeFrom(r, x.c0), CubeFrom(r, x.c1), CubeFrom(r, x.c2);
    assert h(x0) == power(x0) && h(x1) == power(x1) && h(x2) == power(x2) by {
      CubePthOfBase(cfg, p, x.c0);
      CubePthOfBase(cfg, p, x.c1);
      CubePthOfBase(cfg, p, x.c2);
    }
    HomsAgree(q, h, power, x1, a, x2);
    HomsAgree(q, h, power, x0, a, q.Add(x1, q.Mul(a, x2)));
    CubeParts(cfg, x);
  }

  lemma CubePth<T(!new)>(cfg: CubeConfig<T>, p: nat)
    requires ValidCube(cfg) && FrobeniusIsHom(cfg.base) && FrobeniusIsPth(cfg.base, p)
    requires HasCharacteristic(cfg.R(), p) && p == 3 * cfg.thirdOrder + 1
    ensures FrobeniusIsPth(CubeTower(cfg), p) && HasCharacteristic(CubeRing(cfg), p)
    ensures FrobeniusIsHom(CubeTower(cfg))
  {
    var q := CubeRing(cfg);
    assert FrobeniusIsHom(CubeTower(cfg)) by {
      assert FrobeniusIsPower(cfg.base, cfg.w, p);
      CubeFrobeniusHom(cfg);
    }
    FrobeniusOfAlpha(cfg);
    CubeNatElem(cfg, p);
    CubeRingIsRing(cfg);
    PowerIsHom(q, p);
    forall x
      ensures FrobeniusIsPower(CubeTower(cfg), x, p)
    {
      CubePthAt(cfg, p, x);
    }
  }

  /** A ground field of p elements: Fermat's little theorem holds. */
  ghost predicate IsPrimeGround<T(!new)>(f: Tower<T>, seven: T, p: nat) {
    && IsGround(f, seven) && HasCharacteristic(f.Ring(), p) && p == GOLDILOCKS
    && forall x :: Pow(f.Ring(), x, p) == x
  }

  lemma GroundPth<T(!new)>(f: Tower<T>, seven: T, p: nat)
    requires IsPrimeGround(f, seven, p)
    ensures FrobeniusIsHom(f) && FrobeniusIsPth(f, p)
  {
    GroundFrobenius(f, seven);
    forall x
      ensures FrobeniusIsPower(f, x, p)
    {
      assert Pow(f.Ring(), x, p) == x && f.Frob(x) == x;
    }
  }

  /** On the sextic tower Frobenius is the p-th power of every element. */
  lemma SexticFrobeniusIsPower<T(!new)>(f: Tower<T>, seven: T, p: nat, x: Quad<Cube<T>>)
    requires IsPrimeGround(f, seven, p)
    ensures SexticTower(f, seven).Frob(x) == Pow(SexticTower(f, seven).Ring(), x, p)
  {
    CubicValid(f, seven);
    SexticValid(f, seven);
    GroundPth(f, seven, p);
    CubePth(CubicConfig(f, seven), p);
    QuadPth(SexticConfig(f, seven), p);
    assert FrobeniusIsPower(SexticTower(f, seven), x, p);
  }

  /** On the octic tower Frobenius is the p-th power of every element. */
  lemma OcticFrobeniusIsPower<T(!new)>(f: Tower<T>, seven: T, p: nat, x: Quad<Quad<Quad<T>>>)
    requires IsPrimeGround(f, seven, p)
    ensures OcticTower(f, seven).Frob(x) == Pow(OcticTower(f, seven).Ring(), x, p)
  {
    OcticValid(f, seven);
    GroundPth(f, seven, p);
    QuadPth(Quad2Config(f, seven), p);
    QuadPth(QuarticConfig(f, seven), p);
    QuadPth(OcticConfig(f, seven), p);
    assert FrobeniusIsPower(OcticTower(f, seven), x, p);
  }

  // ---------- the order of Frobenius ----------

  function Iterate<T>(h: T -> T, n: nat, x: T): T {
    if n == 0 then x else h(Iterate(h, n - 1, x))
  }

  lemma {:induction false} IterateAdd<T>(h: T -> T, m: nat, n: nat, x: T)
    ensures Iterate(h, m + n, x) == Iterate(h, m, Iterate(h, n, x))
  {
    if m > 0 {
      IterateAdd(h, m - 1, n, x);
    }
  }

  /** beta phi(beta) phi^2(beta) ..., n factors. */
  function NormUpTo<T>(cfg: QuadConfig<T>, n: nat): T {
    var r := cfg.base.Ring();
    if n == 0 then r.one else r.Mul(cfg.base.Frob(NormUpTo(cfg, n - 1)), cfg.beta)
  }

  /** n applications act on the parts, and scale the second by that product's power. */
  lemma {:induction false} QuadIterate<T(!new)>(cfg: QuadConfig<T>, n: nat, a: Quad<T>)
    requires ValidQuad(cfg) && FrobeniusIsHom(cfg.base)
    ensures
      var (r, h) := (cfg.base.Ring(), cfg.base.frobenius);
      Iterate(QuadTower(cfg).frobenius, n, a)
      == Quad(Iterate(h, n, a.c0), r.Mul(Iterate(h, n, a.c1), Pow(r, NormUpTo(cfg, n), cfg.halfOrder)))
  {
    var r, h := cfg.base.Ring(), cfg.base.frobenius;
    if n == 0 {
      PowOfOne(r, cfg.halfOrder);
      MulOne(r, a.c1);
    } else {
      QuadIterate(cfg, n - 1, a);
      var x, norm := Iterate(h, n - 1, a.c1), NormUpTo(cfg, n - 1);
      var power := Pow(r, norm, cfg.halfOrder);
      HomMul(r, r, h, x, power);
      HomPow(r, r, h, norm, cfg.halfOrder);
      PowOfProduct(r, h(norm), cfg.beta, cfg.halfOrder);
      MulAssociates(r, h(x), h(power), Gamma(cfg));
    }
  }

  ghost predicate IdentityAt<T>(h: T -> T, n: nat, x: T) { Iterate(h, n, x) == x }

  ghost predicate HasOrder<T(!new)>(t: Tower<T>, n: nat) { forall x :: IdentityAt(t.frobenius, n, x) }

  /** The product of the n conjugates of beta is a nonresidue: Euler's criterion gives minus one. */
  ghost predicate NormIsNonresidue<T>(cfg: QuadConfig<T>, n: nat) {
    Pow(cfg.base.Ring(), NormUpTo(cfg, n), cfg.halfOrder) == cfg.base.Ring().Neg(cfg.base.Ring().one)
  }

  lemma LevelConjugates<T(!new)>(cfg: QuadConfig<T>, n: nat, a: Quad<T>)
    requires ValidQuad(cfg) && FrobeniusIsHom(cfg.base) && HasOrder(cfg.base, n) && NormIsNonresidue(cfg, n)
    ensures Iterate(QuadTower(cfg).frobenius, n, a) == Conjugate(cfg, a)
  {
    var r := cfg.base.Ring();
    QuadIterate(cfg, n, a);
    assert IdentityAt(cfg.base.frobenius, n, a.c0) && IdentityAt(cfg.base.frobenius, n, a.c1);
    NegMul(r, a.c1, r.one);
    MulOne(r, a.c1);
  }

  /** On top of a level of order n the order is 2n, and n applications conjugate. */
  lemma LevelOrder<T(!new)>(cfg: QuadConfig<T>, n: nat, twice: nat)
    requires ValidQuad(cfg) && FrobeniusIsHom(cfg.base) && HasOrder(cfg.base, n) && NormIsNonresidue(cfg, n)
    requires twice == n + n
    ensures HasOrder(QuadTower(cfg), twice)
  {
    var h := QuadTower(cfg).frobenius;
    forall a
      ensures IdentityAt(h, twice, a)
    {
      LevelConjugates(cfg, n, a);
      LevelConjugates(cfg, n, Conjugate(cfg, a));
      IterateAdd(h, n, n, a);
      NegNeg(cfg.base.Ring(), a.c1);
    }
  }

  /** (-7)^((p - 1) / 2) = -1, the exponent being even. */
  lemma MinusSeven<T(!new)>(f: Tower<T>, seven: T)
    requires IsGround(f, seven)
    ensures Pow(f.Ring(), f.Ring().Neg(seven), HALF_ORDER) == f.Ring().Neg(f.Ring().one)
  {
    var r := f.Ring();
    var m := r.Neg(r.one);
    NegMul(r, r.one, seven);
    MulOne(r, seven);
    MulCommutes(r, r.one, seven);
    PowOfProduct(r, m, seven, HALF_ORDER);
    assert Pow(r, m, HALF_ORDER) == r.one by {
      PowOfPower(r, m, 2, HALF_ORDER / 2);
      PowSmall(r, m);
      NegMul(r, r.one, m);
      MulOne(r, m);
      NegNeg(r, r.one);
      PowOfOne(r, HALF_ORDER / 2);
    }
    MulOne(r, m);
  }

  lemma GroundOrder<T(!new)>(f: Tower<T>, seven: T)
    requires IsGround(f, seven)
    ensures HasOrder(f, 1) && NormIsNonresidue(Quad2Config(f, seven), 1)
  {
    var r, cfg := f.Ring(), Quad2Config(f, seven);
    forall x
      ensures IdentityAt(f.frobenius, 1, x)
    {
      assert f.Frob(x) == x && Iterate(f.frobenius, 1, x) == f.frobenius(Iterate(f.frobenius, 0, x));
    }
    assert NormUpTo(cfg, 1) == r.Mul(f.Frob(r.one), seven) == r.Mul(r.one, seven) by {
      assert NormUpTo(cfg, 0) == r.one && f.Frob(r.one) == r.one;
    }
    MulOne(r, seven);
    MulCommutes(r, r.one, seven);
  }

  /** Two factors: phi(beta) beta. */
  lemma NormOfTwo<T(!new)>(cfg: QuadConfig<T>)
    requires IsTower(cfg.base) && FrobeniusIsHom(cfg.base)
    ensures NormUpTo(cfg, 2) == cfg.base.Ring().Mul(cfg.base.Frob(cfg.beta), cfg.beta)
  {
    var r := cfg.base.Ring();
    assert NormUpTo(cfg, 0) == r.one;
    assert NormUpTo(cfg, 1) == r.Mul(r.one, cfg.beta);
    MulOne(r, cfg.beta);
    MulCommutes(r, r.one, cfg.beta);
    assert NormUpTo(cfg, 2) == r.Mul(cfg.base.Frob(NormUpTo(cfg, 1)), cfg.beta);
  }

  /** phi(u) u = beta^((p + 1) / 2) for the generator u of a quadratic level. */
  lemma GenTimesConjugate<T(!new)>(cfg: QuadConfig<T>)
    requires ValidQuad(cfg) && FrobeniusIsHom(cfg.base)
    ensures
      var (r, u) := (cfg.base.Ring(), Gen(cfg.base.Ring()));
      QuadMul(cfg, QuadFrobenius(cfg, u), u) == FromBase(r, Pow(r, cfg.beta, cfg.halfOrder + 1))
  {
    var r, g, u := cfg.base.Ring(), Gamma(cfg), Gen(cfg.base.Ring());
    QuadRingIsRing(cfg);
    assert QuadFrobenius(cfg, u) == Quad(r.zero, g) by {
      MulOne(r, g);
      MulCommutes(r, r.one, g);
    }
    MulCommutes(QuadRing(cfg), QuadFrobenius(cfg, u), u);
    TimesGen(cfg, Quad(r.zero, g));
  }

  /** The quartic level: phi(i) i = -7. */
  lemma QuarticNorm<T(!new)>(f: Tower<T>, seven: T)
    requires IsGround(f, seven)
    ensures NormIsNonresidue(QuarticConfig(f, seven), 2)
  {
    var r, c2, c4 := f.Ring(), Quad2Config(f, seven), QuarticConfig(f, seven);
    OcticValid(f, seven);
    OcticFrobeniusHom(f, seven);
    GroundFrobenius(f, seven);
    NormOfTwo(c4);
    GenTimesConjugate(c2);
    assert Pow(r, seven, HALF_ORDER + 1) == r.Neg(seven) by {
      NegMul(r, seven, r.one);
      MulOne(r, seven);
    }
    PowFromBase(c2, r.Neg(seven), HALF_ORDER);
    MinusSeven(f, seven);
    NegZero(r);
  }

  /** Four factors over a level of order four: phi^2(phi(beta) beta) (phi(beta) beta). */
  lemma NormOfFour<T(!new)>(cfg: QuadConfig<T>)
    requires IsTower(cfg.base) && FrobeniusIsHom(cfg.base)
    ensures
      var m := NormUpTo(cfg, 2);
      NormUpTo(cfg, 4) == cfg.base.Ring().Mul(cfg.base.Frob(cfg.base.Frob(m)), m)
  {
    var r, h := cfg.base.Ring(), cfg.base.frobenius;
    var m := NormUpTo(cfg, 2);
    NormOfTwo(cfg);
    assert NormUpTo(cfg, 3) == r.Mul(h(m), cfg.beta);
    assert NormUpTo(cfg, 4) == r.Mul(h(NormUpTo(cfg, 3)), cfg.beta);
    HomMul(r, r, h, h(m), cfg.beta);
    MulAssociates(r, h(h(m)), h(cfg.beta), cfg.beta);
  }

  /** i^(p + 1) = -7, as i^2 = 7. */
  lemma PowerOfI<T(!new)>(f: Tower<T>, seven: T)
    requires IsGround(f, seven)
    ensures
      var (r, q) := (f.Ring(), QuadRing(Quad2Config(f, seven)));
      var m := Pow(q, Gen(r), HALF_ORDER + 1);
      q.Mul(m, m) == FromBase(r, r.Neg(seven))
  {
    var r, c2 := f.Ring(), Quad2Config(f, seven);
    var q, i, e := QuadRing(c2), Gen(r), HALF_ORDER + 1;
    OcticValid(f, seven);
    QuadRingIsRing(c2);
    PowAdd(q, i, e, e);
    PowOfPower(q, i, 2, e);
    assert e + e == 2 * e;
    assert Pow(q, i, 2) == FromBase(r, seven) by {
      PowSmall(q, i);
      TimesGen(c2, i);
      MulOne(r, seven);
    }
    PowFromBase(c2, seven, e);
    NegMul(r, seven, r.one);
    MulOne(r, seven);
  }

  /** The octic level: the four conjugates of j multiply to -7. */
  lemma OcticNorm<T(!new)>(f: Tower<T>, seven: T)
    requires IsGround(f, seven)
    ensures NormIsNonresidue(OcticConfig(f, seven), 4)
  {
    var r, c2, c4, c8 := f.Ring(), Quad2Config(f, seven), QuarticConfig(f, seven), OcticConfig(f, seven);
    var q2, q4 := QuadRing(c2), QuadRing(c4);
    OcticValid(f, seven);
    OcticFrobeniusHom(f, seven);
    var m := Pow(q2, Gen(r), HALF_ORDER + 1);
    assert NormUpTo(c8, 2) == FromBase(q2, m) by {
      NormOfTwo(c8);
      GenTimesConjugate(c4);
    }
    assert c8.base.Frob(c8.base.Frob(FromBase(q2, m))) == FromBase(q2, m) by {
      ConjugatesTwice(f, seven, FromBase(q2, m));
      NegZero(q2);
    }
    NormOfFour(c8);
    FromBaseOfProduct(c4, m, m);
    PowerOfI(f, seven);
    PowFromBase(c4, FromBase(r, r.Neg(seven)), HALF_ORDER);
    PowFromBase(c2, r.Neg(seven), HALF_ORDER);
    MinusSeven(f, seven);
    NegZero(r);
    NegZero(q2);
  }

  /** Two applications conjugate the quartic level. */
  lemma ConjugatesTwice<T(!new)>(f: Tower<T>, seven: T, x: Quad<Quad<T>>)
    requires IsGround(f, seven)
    ensures
      var c4 := QuarticConfig(f, seven);
      QuadTower(c4).Frob(QuadTower(c4).Frob(x)) == Conjugate(c4, x)
  {
    var c2, c4 := Quad2Config(f, seven), QuarticConfig(f, seven);
    OcticValid(f, seven);
    OcticFrobeniusHom(f, seven);
    GroundFrobenius(f, seven);
    GroundOrder(f, seven);
    LevelOrder(c2, 1, 2);
    QuarticNorm(f, seven);
    LevelConjugates(c4, 2, x);
    var h := QuadTower(c4).frobenius;
    assert Iterate(h, 2, x) == h(Iterate(h, 1, x)) && Iterate(h, 1, x) == h(Iterate(h, 0, x));
  }

  /** The fourth power of the octic Frobenius is conjugation at the top level, and its eighth the identity. */
  lemma OcticFrobeniusOrder<T(!new)>(f: Tower<T>, seven: T, a: Quad<Quad<Quad<T>>>)
    requires IsGround(f, seven)
    ensures Iterate(OcticTower(f, seven).frobenius, 4, a) == Conjugate(OcticConfig(f, seven), a)
    ensures Iterate(OcticTower(f, seven).frobenius, 8, a) == a
  {
    var c2, c4, c8 := Quad2Config(f, seven), QuarticConfig(f, seven), OcticConfig(f, seven);
    OcticValid(f, seven);
    OcticFrobeniusHom(f, seven);
    GroundFrobenius(f, seven);
    GroundOrder(f, seven);
    LevelOrder(c2, 1, 2);
    QuarticNorm(f, seven);
    LevelOrder(c4, 2, 4);
    OcticNorm(f, seven);
    LevelConjugates(c8, 4, a);
    LevelOrder(c8, 4, 8);
    assert IdentityAt(OcticTower(f, seven).frobenius, 8, a);
  }
}
