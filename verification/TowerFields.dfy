/** When the sextic and the octic tower are fields. */
module TowerFields {
  import opened Rings
  import opened QuadExt
  import opened CubicExt
  import opened CubicNorm
  import opened Towers

  /** The norm of a square is a square. */
  lemma QuadNormOfSquare<T(!new)>(cfg: QuadConfig<T>, x: Quad<T>)
    requires ValidQuad(cfg) && IsSquare(QuadRing(cfg), x)
    ensures IsSquare(cfg.base.Ring(), QuadNorm(cfg, x))
  {
    var s :| QuadRing(cfg).Mul(s, s) == x;
    QuadNormMultiplicative(cfg, s, s);
  }

  /** The generator and its negative have norm -beta. */
  lemma NormOfGen<T(!new)>(cfg: QuadConfig<T>)
    requires ValidQuad(cfg)
    ensures QuadNorm(cfg, Gen(cfg.base.Ring())) == cfg.base.Ring().Neg(cfg.beta)
    ensures QuadNorm(cfg, PairNeg(cfg.base.Ring(), Gen(cfg.base.Ring()))) == cfg.base.Ring().Neg(cfg.beta)
  {
    var r := cfg.base.Ring();
    NormIs(cfg, Gen(r));
    NormIs(cfg, PairNeg(r, Gen(r)));
    NegZero(r);
    MulZero(r, r.zero);
    NegMul(r, r.one, r.Neg(r.one));
    MulOne(r, r.Neg(r.one));
    NegNeg(r, r.one);
    MulOne(r, r.one);
    MulOne(r, cfg.beta);
    AddZero(r, r.Neg(cfg.beta));
  }

  lemma NormOfAlpha<T(!new)>(cfg: CubeConfig<T>)
    requires ValidCube(cfg)
    ensures CubeNorm(cfg, Alpha(cfg.R())) == cfg.w
  {
    var r, a := cfg.R(), Alpha(cfg.R());
    TimesAdjugate(cfg, a);
    FastProducts(cfg, a);
    TimesAlpha(cfg, Adjugate(cfg, a));
    MulZero(r, r.zero);
    MulOne(r, r.one);
    NegZero(r);
    AddZero(r, r.one);
    MulOne(r, cfg.w);
  }

  /** A sextic field contains a cubic field. */
  lemma CubicInsideSextic<T(!new)>(f: Tower<T>, seven: T)
    requires IsTower(f) && IsField(f.field) && IsField(SexticTower(f, seven).field)
    ensures IsField(CubicTower(f, seven).field)
  {
    var r, c, cfg := f.Ring(), CubicTower(f, seven), CubicConfig(f, seven);
    CubicValid(f, seven);
    SexticValid(f, seven);
    forall a
      ensures InvertTotal(c.field, a)
    {
      if a != CubeFrom(r, r.zero) {
        InverseFromSextic(f, seven, a);
      } else if CubeInvert(cfg, a).Some? {
        CubeInvertSound(cfg, a);
        MulZero(c.Ring(), CubeInvert(cfg, a).value);
      }
    }
  }

  lemma InverseFromSextic<T(!new)>(f: Tower<T>, seven: T, a: Cube<T>)
    requires IsTower(f) && IsField(f.field) && IsField(SexticTower(f, seven).field)
    requires a != CubeFrom(f.Ring(), f.Ring().zero)
    ensures CubeInvert(CubicConfig(f, seven), a).Some?
  {
    var r, q, cfg, six := f.Ring(), CubicTower(f, seven).Ring(), CubicConfig(f, seven), SexticConfig(f, seven);
    CubicValid(f, seven);
    SexticValid(f, seven);
    var x := FromBase(q, a);
    InvertDefined(SexticTower(f, seven).field, x);
    QuadInvertSound(six, x);
    NormIs(six, x);
    MulZero(q, q.zero);
    MulZero(q, six.beta);
    NegZero(q);
    AddZero(q, q.Mul(a, a));
    CubeInvertSound(cfg, q.Mul(a, a));
    InvertDefined(f.field, CubeNorm(cfg, q.Mul(a, a)));
    CubeNormMultiplicative(cfg, a, a);
    MulZero(r, r.zero);
    InvertDefined(f.field, CubeNorm(cfg, a));
    CubeInvertSound(cfg, a);
  }

  /** In the cubic field alpha is a square exactly when its norm 7 is one. */
  lemma AlphaSquareIff<T(!new)>(f: Tower<T>, seven: T)
    requires IsTower(f) && IsField(f.field) && IsField(CubicTower(f, seven).field)
    ensures IsSquare(CubicTower(f, seven).Ring(), Alpha(f.Ring())) <==> IsSquare(f.Ring(), seven)
  {
    var r, c, cfg := f.Ring(), CubicTower(f, seven), CubicConfig(f, seven);
    var q, a := c.Ring(), Alpha(f.Ring());
    CubicValid(f, seven);
    if IsSquare(q, a) {
      var s :| q.Mul(s, s) == a;
      CubeNormMultiplicative(cfg, s, s);
      NormOfAlpha(cfg);
      assert r.Mul(CubeNorm(cfg, s), CubeNorm(cfg, s)) == seven;
    }
    if IsSquare(r, seven) {
      var s :| r.Mul(s, s) == seven;
      InvertDefined(c.field, a);
      InvertWorks(c.field, a);
      var inv, t := c.field.Invert(a).value, CubeFrom(r, s);
      AlphaCubed(cfg);
      CubePower(q, a);
      CubeTimesBase(cfg, t, s);
      MulZero(r, s);
      RootFromCube(q, a, inv, t);
    }
  }

  /** If t^2 = a^3 then (t / a)^2 = a. */
  lemma RootFromCube<T(!new)>(r: Ring<T>, a: T, inv: T, t: T)
    requires IsRing(r) && r.Mul(a, inv) == r.one && r.Mul(t, t) == r.Mul(a, r.Mul(a, a))
    ensures IsSquare(r, a)
  {
    var s := r.Mul(t, inv);
    MulSwap(r, t, inv, t, inv);
    MulAssociates(r, a, r.Mul(a, a), r.Mul(inv, inv));
    MulSwap(r, a, a, inv, inv);
    MulOne(r, r.one);
    MulOne(r, a);
    assert r.Mul(s, s) == a;
  }

  /** Over a field, the sextic tower is a field if and only if 7 is neither a square nor a cube. */
  lemma SexticFieldIff<T(!new)>(f: Tower<T>, seven: T)
    requires IsTower(f) && IsField(f.field)
    ensures IsField(SexticTower(f, seven).field) <==> !IsSquare(f.Ring(), seven) && !IsCube(f.Ring(), seven)
  {
    CubicValid(f, seven);
    SexticValid(f, seven);
    CubeFieldIff(CubicConfig(f, seven));
    if IsField(SexticTower(f, seven).field) {
      CubicInsideSextic(f, seven);
    }
    if IsField(CubicTower(f, seven).field) {
      AlphaSquareIff(f, seven);
      QuadFieldIff(SexticConfig(f, seven));
    }
  }

  /** -1 is a square in the ground field: the square of 7^((p - 1) / 4). */
  lemma MinusOneIsSquare<T(!new)>(f: Tower<T>, seven: T)
    requires IsGround(f, seven)
    ensures IsSquare(f.Ring(), f.Ring().Neg(f.Ring().one))
  {
    PowAdd(f.Ring(), seven, HALF_ORDER / 2, HALF_ORDER / 2);
    assert HALF_ORDER / 2 + HALF_ORDER / 2 == HALF_ORDER;
  }

  /** -x is a square only if x is, once -1 is one. */
  lemma NegatedSquare<T(!new)>(r: Ring<T>, x: T)
    requires IsRing(r) && IsSquare(r, r.Neg(r.one)) && IsSquare(r, r.Neg(x))
    ensures IsSquare(r, x)
  {
    var m :| r.Mul(m, m) == r.Neg(r.one);
    var t :| r.Mul(t, t) == r.Neg(x);
    MulSwap(r, m, t, m, t);
    NegMul(r, r.one, r.Neg(x));
    MulOne(r, r.Neg(x));
    NegNeg(r, x);
    assert r.Mul(r.Mul(m, t), r.Mul(m, t)) == x;
  }

  /** Over a ground field in which 7 is no square, all three levels of the octic tower are fields. */
  lemma OcticIsField<T(!new)>(f: Tower<T>, seven: T)
    requires IsGround(f, seven) && IsField(f.field) && !IsSquare(f.Ring(), seven)
    ensures IsField(QuadTower(Quad2Config(f, seven)).field) && IsField(QuadTower(QuarticConfig(f, seven)).field)
    ensures IsField(OcticTower(f, seven).field)
  {
    var c2, c4, c8 := Quad2Config(f, seven), QuarticConfig(f, seven), OcticConfig(f, seven);
    OcticValid(f, seven);
    MinusOneIsSquare(f, seven);
    QuadFieldIff(c2);
    NormOfGen(c2);
    if IsSquare(QuadRing(c2), c4.beta) {
      QuadNormOfSquare(c2, c4.beta);
      NegatedSquare(f.Ring(), seven);
    }
    QuadFieldIff(c4);
    NormOfGen(c4);
    if IsSquare(QuadRing(c4), c8.beta) {
      QuadNormOfSquare(c4, c8.beta);
      QuadNormOfSquare(c2, PairNeg(f.Ring(), c4.beta));
      NegatedSquare(f.Ring(), seven);
    }
    QuadFieldIff(c8);
  }

  /** A square root of 7 in the ground field makes zero divisors in the octic tower. */
  lemma OcticZeroDivisors<T(!new)>(f: Tower<T>, seven: T)
    requires IsTower(f) && IsField(f.field) && IsSquare(f.Ring(), seven)
    ensures !IsField(OcticTower(f, seven).field)
  {
    var r, c2, c4, c8 := f.Ring(), Quad2Config(f, seven), QuarticConfig(f, seven), OcticConfig(f, seven);
    var q2, q4, q8 := QuadRing(c2), QuadRing(c4), QuadRing(c8);
    OcticValid(f, seven);
    var s :| r.Mul(s, s) == seven;
    var x := Quad(s, r.one);
    var y := Conjugate(c2, x);
    TimesConjugate(c2, x);
    NormIs(c2, x);
    MulOne(r, r.one);
    MulOne(r, seven);
    SubSelf(r, seven, seven);
    assert q2.Mul(x, y) == q2.zero;
    NegZero(r);
    NegNeg(r, r.one);
    assert x != q2.zero && y != q2.zero;
    FromBaseOfProduct(c4, x, y);
    FromBaseOfProduct(c8, FromBase(q2, x), FromBase(q2, y));
    if IsField(OcticTower(f, seven).field) {
      NoZeroDivisors(OcticTower(f, seven).field, FromBase(q4, FromBase(q2, x)), FromBase(q4, FromBase(q2, y)));
    }
  }

  /** Over such a ground field, the octic tower is a field if and only if 7 is no square. */
  lemma OcticFieldIff<T(!new)>(f: Tower<T>, seven: T)
    requires IsGround(f, seven) && IsField(f.field)
    ensures IsField(OcticTower(f, seven).field) <==> !IsSquare(f.Ring(), seven)
  {
    if IsSquare(f.Ring(), seven) {
      OcticZeroDivisors(f, seven);
    } else {
      OcticIsField(f, seven);
    }
  }
}
