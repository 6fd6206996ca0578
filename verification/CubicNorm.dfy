/** Twisted maps of the cubic extension: Frobenius as a ring homomorphism, and, after adjoining a cube root
    of unity, the norm as a product of conjugates. */
module CubicNorm {
  import opened Rings
  import opened QuadExt
  import opened CubicExt

  // ---------- twisted maps ----------

  /** Apply h to the components and multiply alpha by omega: the shape of `frobenius`. */
  function TwistMap<T>(r: Ring<T>, h: T -> T, omega: T, a: Cube<T>): Cube<T> {
    Cube(h(a.c0), r.Mul(h(a.c1), omega), r.Mul(h(a.c2), r.Mul(omega, omega)))
  }

  /** alpha may be sent to omega alpha exactly when (omega alpha)^3 is the image of W. */
  ghost predicate RespectsW<T(!new)>(cfg: CubeConfig<T>, h: T -> T, omega: T) {
    && IsHomomorphism(cfg.R(), cfg.R(), h)
    && h(cfg.w) == cfg.R().Mul(cfg.w, Pow(cfg.R(), omega, 3))
  }

  lemma CubePower<T(!new)>(r: Ring<T>, omega: T)
    requires IsRing(r)
    ensures Pow(r, omega, 3) == r.Mul(omega, r.Mul(omega, omega))
  {
    PowSmall(r, omega);
    assert Pow(r, omega, 3) == r.Mul(omega, Pow(r, omega, 2));
  }

  lemma TwistAdd<T(!new)>(cfg: CubeConfig<T>, h: T -> T, omega: T, a: Cube<T>, b: Cube<T>)
    requires ValidCube(cfg) && IsHomomorphism(cfg.R(), cfg.R(), h)
    ensures TwistMap(cfg.R(), h, omega, CubeAdd(cfg.R(), a, b))
         == CubeAdd(cfg.R(), TwistMap(cfg.R(), h, omega, a), TwistMap(cfg.R(), h, omega, b))
  {
    var r := cfg.R();
    HomAdd(r, r, h, a.c0, b.c0);
    HomAdd(r, r, h, a.c1, b.c1);
    HomAdd(r, r, h, a.c2, b.c2);
    Distributes(r, omega, h(a.c1), h(b.c1));
    Distributes(r, r.Mul(omega, omega), h(a.c2), h(b.c2));
  }

  /** h(x y + z t) = h(x) h(y) + h(z) h(t) */
  lemma HomTwoProducts<T(!new)>(r: Ring<T>, h: T -> T, x: T, y: T, z: T, t: T)
    requires IsHomomorphism(r, r, h)
    ensures h(r.Add(r.Mul(x, y), r.Mul(z, t))) == r.Add(r.Mul(h(x), h(y)), r.Mul(h(z), h(t)))
  {
    HomAdd(r, r, h, r.Mul(x, y), r.Mul(z, t));
    HomMul(r, r, h, x, y);
    HomMul(r, r, h, z, t);
  }

  lemma TwistMul0<T(!new)>(cfg: CubeConfig<T>, h: T -> T, omega: T, a: Cube<T>, b: Cube<T>)
    requires ValidCube(cfg) && RespectsW(cfg, h, omega)
    ensures TwistMap(cfg.R(), h, omega, CubeMul(cfg, a, b)).c0
         == CubeMul(cfg, TwistMap(cfg.R(), h, omega, a), TwistMap(cfg.R(), h, omega, b)).c0
  {
    var r, w, o2 := cfg.R(), cfg.w, cfg.R().Mul(omega, omega);
    var s := r.Add(r.Mul(a.c1, b.c2), r.Mul(a.c2, b.c1));
    assert FastWIsFull(cfg, s);
    HomAdd(r, r, h, r.Mul(a.c0, b.c0), r.Mul(w, s));
    HomMul(r, r, h, a.c0, b.c0);
    HomMul(r, r, h, w, s);
    HomTwoProducts(r, h, a.c1, b.c2, a.c2, b.c1);
    var (x, y) := (r.Mul(h(a.c1), h(b.c2)), r.Mul(h(a.c2), h(b.c1)));
    var o3 := r.Mul(omega, o2);
    CubePower(r, omega);
    MulSwap(r, h(a.c1), omega, h(b.c2), o2);
    MulSwap(r, h(a.c2), o2, h(b.c1), omega);
    MulCommutes(r, o2, omega);
    Distributes(r, o3, x, y);
    var twisted := r.Add(r.Mul(r.Mul(h(a.c1), omega), r.Mul(h(b.c2), o2)),
                         r.Mul(r.Mul(h(a.c2), o2), r.Mul(h(b.c1), omega)));
    assert FastWIsFull(cfg, twisted);
    MulAssociates(r, w, o3, r.Add(x, y));
    MulCommutes(r, o3, r.Add(x, y));
  }

  lemma TwistMul1<T(!new)>(cfg: CubeConfig<T>, h: T -> T, omega: T, a: Cube<T>, b: Cube<T>)
    requires ValidCube(cfg) && RespectsW(cfg, h, omega)
    ensures TwistMap(cfg.R(), h, omega, CubeMul(cfg, a, b)).c1
         == CubeMul(cfg, TwistMap(cfg.R(), h, omega, a), TwistMap(cfg.R(), h, omega, b)).c1
  {
    var r, w, o2 := cfg.R(), cfg.w, cfg.R().Mul(omega, omega);
    var (s, t) := (r.Add(r.Mul(a.c0, b.c1), r.Mul(a.c1, b.c0)), r.Mul(a.c2, b.c2));
    assert FastWIsFull(cfg, t);
    HomAdd(r, r, h, s, r.Mul(w, t));
    HomTwoProducts(r, h, a.c0, b.c1, a.c1, b.c0);
    HomMul(r, r, h, w, t);
    HomMul(r, r, h, a.c2, b.c2);
    var (x, y, z) := (r.Mul(h(a.c0), h(b.c1)), r.Mul(h(a.c1), h(b.c0)), r.Mul(h(a.c2), h(b.c2)));
    Distributes(r, omega, r.Add(x, y), r.Mul(h(w), z));
    Distributes(r, omega, x, y);
    MulAssociates(r, h(a.c0), h(b.c1), omega);
    MulSwap(r, h(a.c1), omega, h(b.c0), r.one);
    MulOne(r, h(b.c0));
    MulOne(r, omega);
    CubePower(r, omega);
    var o3 := r.Mul(omega, o2);
    MulSwap(r, h(a.c2), o2, h(b.c2), o2);
    assert FastWIsFull(cfg, r.Mul(r.Mul(h(a.c2), o2), r.Mul(h(b.c2), o2)));
    // (w o3) z omega = w (z (o2 o2))
    MulAssociates(r, w, o3, z);
    MulAssociates(r, w, r.Mul(o3, z), omega);
    MulCommutes(r, o3, z);
    MulAssociates(r, z, o3, omega);
    MulCommutes(r, o3, omega);
    MulAssociates(r, omega, omega, o2);
  }

  lemma TwistMul2<T(!new)>(cfg: CubeConfig<T>, h: T -> T, omega: T, a: Cube<T>, b: Cube<T>)
    requires ValidCube(cfg) && RespectsW(cfg, h, omega)
    ensures TwistMap(cfg.R(), h, omega, CubeMul(cfg, a, b)).c2
         == CubeMul(cfg, TwistMap(cfg.R(), h, omega, a), TwistMap(cfg.R(), h, omega, b)).c2
  {
    var r, o2 := cfg.R(), cfg.R().Mul(omega, omega);
    var s := r.Add(r.Mul(a.c0, b.c2), r.Mul(a.c1, b.c1));
    HomAdd(r, r, h, s, r.Mul(a.c2, b.c0));
    HomTwoProducts(r, h, a.c0, b.c2, a.c1, b.c1);
    HomMul(r, r, h, a.c2, b.c0);
    var (x, y, z) := (r.Mul(h(a.c0), h(b.c2)), r.Mul(h(a.c1), h(b.c1)), r.Mul(h(a.c2), h(b.c0)));
    Distributes(r, o2, r.Add(x, y), z);
    Distributes(r, o2, x, y);
    MulAssociates(r, h(a.c0), h(b.c2), o2);
    MulSwap(r, h(a.c1), omega, h(b.c1), omega);
    MulSwap(r, h(a.c2), o2, h(b.c0), r.one);
    MulOne(r, h(b.c0));
    MulOne(r, o2);
  }

  /** A twisted map is a ring homomorphism. */
  lemma TwistIsHom<T(!new)>(cfg: CubeConfig<T>, h: T -> T, omega: T)
    requires ValidCube(cfg) && RespectsW(cfg, h, omega)
    ensures IsHomomorphism(CubeRing(cfg), CubeRing(cfg), a => TwistMap(cfg.R(), h, omega, a))
  {
    var r, q := cfg.R(), CubeRing(cfg);
    MulZero(r, omega);
    MulZero(r, r.Mul(omega, omega));
    var twist := x => TwistMap(r, h, omega, x);
    forall a, b
      ensures Preserves(q, q, twist, a, b)
    {
      TwistAdd(cfg, h, omega, a, b);
      TwistMul0(cfg, h, omega, a, b);
      TwistMul1(cfg, h, omega, a, b);
      TwistMul2(cfg, h, omega, a, b);
    }
  }

  // ---------- conjugates over a base with a cube root of unity ----------

  /** 1 + omega + omega^2 = 0 */
  ghost predicate IsCubeRoot<T(!new)>(r: Ring<T>, omega: T) { r.Add(omega, r.Mul(omega, omega)) == r.Neg(r.one) }

  lemma CubeRootCubed<T(!new)>(r: Ring<T>, omega: T)
    requires IsRing(r) && IsCubeRoot(r, omega)
    ensures r.Mul(omega, r.Mul(omega, omega)) == r.one && Pow(r, omega, 3) == r.one
    ensures r.Mul(r.Mul(omega, omega), r.Mul(omega, omega)) == omega
  {
    var o2 := r.Mul(omega, omega);
    CubePower(r, omega);
    // omega (omega + omega^2) = -omega and omega + omega^2 = -1
    Distributes(r, omega, omega, o2);
    NegMul(r, omega, r.one);
    MulOne(r, omega);
    var o3 := r.Mul(omega, o2);
    assert r.Add(o2, o3) == r.Neg(omega);
    AddNegates(r, omega);
    AddNegates(r, r.one);
    AddAssociates(r, omega, o2, o3);
    assert r.Add(r.Neg(r.one), o3) == r.zero;
    NegUnique(r, r.Neg(r.one), o3);
    NegNeg(r, r.one);
    MulAssociates(r, o2, omega, omega);
    MulCommutes(r, o2, omega);
    MulOne(r, omega);
  }

  function Rotate<T>(cfg: CubeConfig<T>, omega: T, a: Cube<T>): Cube<T> { TwistMap(cfg.R(), x => x, omega, a) }

  lemma IdentityIsHom<T(!new)>(r: Ring<T>)
    ensures IsHomomorphism(r, r, x => x)
  {
    var id := (x: T) => x;
    assert forall x, y :: Preserves(r, r, id, x, y);
  }

  lemma RotateMul<T(!new)>(cfg: CubeConfig<T>, omega: T, a: Cube<T>, b: Cube<T>)
    requires ValidCube(cfg) && IsCubeRoot(cfg.R(), omega)
    ensures Rotate(cfg, omega, CubeMul(cfg, a, b)) == CubeMul(cfg, Rotate(cfg, omega, a), Rotate(cfg, omega, b))
  {
    IdentityIsHom(cfg.R());
    CubeRootCubed(cfg.R(), omega);
    MulOne(cfg.R(), cfg.w);
    TwistMul0(cfg, x => x, omega, a, b);
    TwistMul1(cfg, x => x, omega, a, b);
    TwistMul2(cfg, x => x, omega, a, b);
  }

  /** Rotating twice replaces omega by its square, three times does nothing. */
  lemma RotateOrder<T(!new)>(cfg: CubeConfig<T>, omega: T, a: Cube<T>)
    requires ValidCube(cfg) && IsCubeRoot(cfg.R(), omega)
    ensures Rotate(cfg, omega, Rotate(cfg, omega, a))
         == Cube(a.c0, cfg.R().Mul(a.c1, cfg.R().Mul(omega, omega)), cfg.R().Mul(a.c2, omega))
    ensures Rotate(cfg, omega, Rotate(cfg, omega, Rotate(cfg, omega, a))) == a
  {
    var r, o2 := cfg.R(), cfg.R().Mul(omega, omega);
    CubeRootCubed(r, omega);
    MulAssociates(r, a.c1, omega, omega);
    MulAssociates(r, a.c2, o2, o2);
    MulAssociates(r, a.c1, o2, omega);
    MulCommutes(r, o2, omega);
    MulAssociates(r, a.c2, omega, o2);
    MulOne(r, a.c1);
    MulOne(r, a.c2);
  }

  /** x omega + x omega^2 = -x */
  lemma RootsCancel<T(!new)>(r: Ring<T>, omega: T, x: T)
    requires IsRing(r) && IsCubeRoot(r, omega)
    ensures r.Add(r.Mul(x, omega), r.Mul(x, r.Mul(omega, omega))) == r.Neg(x)
    ensures r.Add(r.Mul(x, r.Mul(omega, omega)), r.Mul(x, omega)) == r.Neg(x)
  {
    Distributes(r, x, omega, r.Mul(omega, omega));
    NegMul(r, x, r.one);
    MulOne(r, x);
    AddCommutes(r, r.Mul(x, omega), r.Mul(x, r.Mul(omega, omega)));
  }

  /** The adjugate is the product of the two other conjugates. */
  lemma AdjugateSplits<T(!new)>(cfg: CubeConfig<T>, omega: T, a: Cube<T>)
    requires ValidCube(cfg) && IsCubeRoot(cfg.R(), omega)
    ensures Adjugate(cfg, a) == CubeMul(cfg, Rotate(cfg, omega, a), Rotate(cfg, omega, Rotate(cfg, omega, a)))
  {
    var r, o2 := cfg.R(), cfg.R().Mul(omega, omega);
    var (f, g) := (Rotate(cfg, omega, a), Rotate(cfg, omega, Rotate(cfg, omega, a)));
    RotateOrder(cfg, omega, a);
    CubeRootCubed(r, omega);
    FastProducts(cfg, a);
    SplitC0(cfg, omega, o2, a, f, g);
    SplitC1(cfg, omega, o2, a, f, g);
    SplitC2(cfg, omega, o2, a, f, g);
  }

  ghost predicate Conjugates<T(!new)>(r: Ring<T>, omega: T, o2: T, a: Cube<T>, f: Cube<T>, g: Cube<T>) {
    && IsCubeRoot(r, omega) && o2 == r.Mul(omega, omega)
    && f == Cube(a.c0, r.Mul(a.c1, omega), r.Mul(a.c2, o2))
    && g == Cube(a.c0, r.Mul(a.c1, o2), r.Mul(a.c2, omega))
  }

  lemma SplitC0<T(!new)>(cfg: CubeConfig<T>, omega: T, o2: T, a: Cube<T>, f: Cube<T>, g: Cube<T>)
    requires ValidCube(cfg) && Conjugates(cfg.R(), omega, o2, a, f, g)
    ensures CubeMul(cfg, f, g).c0 == cfg.R().Sub(cfg.R().Mul(a.c0, a.c0), cfg.R().Mul(cfg.w, cfg.R().Mul(a.c1, a.c2)))
  {
    var r := cfg.R();
    var p := r.Mul(a.c1, a.c2);
    CubeRootCubed(r, omega);
    MulSwap(r, a.c1, omega, a.c2, omega);
    MulSwap(r, a.c2, o2, a.c1, o2);
    MulCommutes(r, a.c1, a.c2);
    RootsCancel(r, omega, p);
    assert FastWIsFull(cfg, r.Add(r.Mul(f.c1, g.c2), r.Mul(f.c2, g.c1)));
    NegMul(r, cfg.w, p);
  }

  lemma SplitC1<T(!new)>(cfg: CubeConfig<T>, omega: T, o2: T, a: Cube<T>, f: Cube<T>, g: Cube<T>)
    requires ValidCube(cfg) && Conjugates(cfg.R(), omega, o2, a, f, g)
    ensures CubeMul(cfg, f, g).c1 == cfg.R().Sub(cfg.R().Mul(cfg.w, cfg.R().Mul(a.c2, a.c2)), cfg.R().Mul(a.c0, a.c1))
  {
    var r := cfg.R();
    var p := r.Mul(a.c0, a.c1);
    CubeRootCubed(r, omega);
    MulAssociates(r, a.c0, a.c1, o2);
    MulSwap(r, a.c1, omega, a.c0, r.one);
    MulOne(r, a.c0);
    MulOne(r, omega);
    MulCommutes(r, a.c1, a.c0);
    RootsCancel(r, omega, p);
    MulSwap(r, a.c2, o2, a.c2, omega);
    MulCommutes(r, o2, omega);
    MulOne(r, r.Mul(a.c2, a.c2));
    assert FastWIsFull(cfg, r.Mul(f.c2, g.c2));
    AddCommutes(r, r.Neg(p), r.Mul(cfg.w, r.Mul(a.c2, a.c2)));
  }

  lemma SplitC2<T(!new)>(cfg: CubeConfig<T>, omega: T, o2: T, a: Cube<T>, f: Cube<T>, g: Cube<T>)
    requires ValidCube(cfg) && Conjugates(cfg.R(), omega, o2, a, f, g)
    ensures CubeMul(cfg, f, g).c2 == cfg.R().Sub(cfg.R().Mul(a.c1, a.c1), cfg.R().Mul(a.c0, a.c2))
  {
    var r := cfg.R();
    var (p, s) := (r.Mul(a.c0, a.c2), r.Mul(a.c1, a.c1));
    CubeRootCubed(r, omega);
    MulAssociates(r, a.c0, a.c2, omega);
    MulSwap(r, a.c1, omega, a.c1, o2);
    MulOne(r, s);
    MulSwap(r, a.c2, o2, a.c0, r.one);
    MulOne(r, a.c0);
    MulOne(r, o2);
    MulCommutes(r, a.c2, a.c0);
    RootsCancel(r, omega, p);
    var (x, y) := (r.Mul(p, omega), r.Mul(p, o2));
    AddCommutes(r, x, s);
    AddAssociates(r, s, x, y);
  }

  lemma AdjugateOfProductSplit<T(!new)>(cfg: CubeConfig<T>, omega: T, a: Cube<T>, b: Cube<T>)
    requires ValidCube(cfg) && IsCubeRoot(cfg.R(), omega)
    ensures Adjugate(cfg, CubeMul(cfg, a, b)) == CubeMul(cfg, Adjugate(cfg, a), Adjugate(cfg, b))
  {
    var q := CubeRing(cfg);
    CubeRingIsRing(cfg);
    var (fa, fb) := (Rotate(cfg, omega, a), Rotate(cfg, omega, b));
    var (ga, gb) := (Rotate(cfg, omega, fa), Rotate(cfg, omega, fb));
    AdjugateSplits(cfg, omega, a);
    AdjugateSplits(cfg, omega, b);
    AdjugateSplits(cfg, omega, CubeMul(cfg, a, b));
    RotateMul(cfg, omega, a, b);
    RotateMul(cfg, omega, fa, fb);
    MulSwap(q, fa, fb, ga, gb);
  }

  lemma AdjugateTwiceSplit<T(!new)>(cfg: CubeConfig<T>, omega: T, a: Cube<T>)
    requires ValidCube(cfg) && IsCubeRoot(cfg.R(), omega)
    ensures Adjugate(cfg, Adjugate(cfg, a)) == CubeMul(cfg, a, CubeFrom(cfg.R(), CubeNorm(cfg, a)))
  {
    var q := CubeRing(cfg);
    CubeRingIsRing(cfg);
    var f := Rotate(cfg, omega, a);
    var g := Rotate(cfg, omega, f);
    var d := Adjugate(cfg, a);
    RotateOrder(cfg, omega, a);
    AdjugateSplits(cfg, omega, a);
    AdjugateSplits(cfg, omega, d);
    RotateMul(cfg, omega, f, g);
    RotateMul(cfg, omega, g, a);
    // (g a)(a f) = a (a (f g))
    assert Adjugate(cfg, d) == q.Mul(q.Mul(g, a), q.Mul(a, f));
    MulCommutes(q, g, a);
    MulCommutes(q, a, f);
    MulSwap(q, a, g, f, a);
    MulSwap(q, a, f, g, a);
    MulAssociates(q, a, f, q.Mul(g, a));
    MulAssociates(q, f, g, a);
    MulCommutes(q, q.Mul(f, g), a);
    TimesAdjugate(cfg, a);
  }

  // ---------- any base: adjoin the cube root of unity ----------

  /** Copy a cubic extension along a ring homomorphism of the bases. */
  function MapCube<A, B>(h: A -> B, a: Cube<A>): Cube<B> { Cube(h(a.c0), h(a.c1), h(a.c2)) }

  ghost predicate ExtendsTo<A(!new), B(!new)>(cfg: CubeConfig<A>, ext: CubeConfig<B>, h: A -> B) {
    && ValidCube(cfg) && ValidCube(ext)
    && IsHomomorphism(cfg.R(), ext.R(), h) && h(cfg.w) == ext.w
  }

  lemma MapByW<A(!new), B(!new)>(cfg: CubeConfig<A>, ext: CubeConfig<B>, h: A -> B, x: A)
    requires ExtendsTo(cfg, ext, h)
    ensures h(cfg.ByW(x)) == ext.ByW(h(x))
  {
    assert FastWIsFull(cfg, x) && FastWIsFull(ext, h(x));
    HomMul(cfg.R(), ext.R(), h, cfg.w, x);
  }

  lemma MapCubeMul<A(!new), B(!new)>(cfg: CubeConfig<A>, ext: CubeConfig<B>, h: A -> B, a: Cube<A>, b: Cube<A>)
    requires ExtendsTo(cfg, ext, h)
    ensures MapCube(h, CubeMul(cfg, a, b)) == CubeMul(ext, MapCube(h, a), MapCube(h, b))
  {
    var r, e := cfg.R(), ext.R();
    var (s, t) := (r.Add(r.Mul(a.c1, b.c2), r.Mul(a.c2, b.c1)), r.Mul(a.c2, b.c2));
    MapTwoProducts(r, e, h, a.c1, b.c2, a.c2, b.c1);
    MapByW(cfg, ext, h, s);
    HomAdd(r, e, h, r.Mul(a.c0, b.c0), cfg.ByW(s));
    HomMul(r, e, h, a.c0, b.c0);
    MapTwoProducts(r, e, h, a.c0, b.c1, a.c1, b.c0);
    MapByW(cfg, ext, h, t);
    HomMul(r, e, h, a.c2, b.c2);
    HomAdd(r, e, h, r.Add(r.Mul(a.c0, b.c1), r.Mul(a.c1, b.c0)), cfg.ByW(t));
    MapTwoProducts(r, e, h, a.c0, b.c2, a.c1, b.c1);
    HomMul(r, e, h, a.c2, b.c0);
    HomAdd(r, e, h, r.Add(r.Mul(a.c0, b.c2), r.Mul(a.c1, b.c1)), r.Mul(a.c2, b.c0));
  }

  lemma MapTwoProducts<A(!new), B>(f: Ring<A>, g: Ring<B>, h: A -> B, x: A, y: A, z: A, t: A)
    requires IsHomomorphism(f, g, h)
    ensures h(f.Add(f.Mul(x, y), f.Mul(z, t))) == g.Add(g.Mul(h(x), h(y)), g.Mul(h(z), h(t)))
  {
    HomAdd(f, g, h, f.Mul(x, y), f.Mul(z, t));
    HomMul(f, g, h, x, y);
    HomMul(f, g, h, z, t);
  }

  lemma MapAdjugate<A(!new), B(!new)>(cfg: CubeConfig<A>, ext: CubeConfig<B>, h: A -> B, a: Cube<A>)
    requires ExtendsTo(cfg, ext, h)
    ensures MapCube(h, Adjugate(cfg, a)) == Adjugate(ext, MapCube(h, a))
  {
    var r, e := cfg.R(), ext.R();
    MapByW(cfg, ext, h, r.Mul(a.c1, a.c2));
    MapByW(cfg, ext, h, r.Mul(a.c2, a.c2));
    HomMul(r, e, h, a.c0, a.c0);
    HomMul(r, e, h, a.c1, a.c2);
    HomMul(r, e, h, a.c2, a.c2);
    HomMul(r, e, h, a.c0, a.c1);
    HomMul(r, e, h, a.c1, a.c1);
    HomMul(r, e, h, a.c0, a.c2);
    HomSub(r, e, h, r.Mul(a.c0, a.c0), cfg.ByW(r.Mul(a.c1, a.c2)));
    HomSub(r, e, h, cfg.ByW(r.Mul(a.c2, a.c2)), r.Mul(a.c0, a.c1));
    HomSub(r, e, h, r.Mul(a.c1, a.c1), r.Mul(a.c0, a.c2));
  }

  lemma MapNorm<A(!new), B(!new)>(cfg: CubeConfig<A>, ext: CubeConfig<B>, h: A -> B, a: Cube<A>)
    requires ExtendsTo(cfg, ext, h)
    ensures h(CubeNorm(cfg, a)) == CubeNorm(ext, MapCube(h, a))
  {
    TimesAdjugate(cfg, a);
    TimesAdjugate(ext, MapCube(h, a));
    MapAdjugate(cfg, ext, h, a);
    MapCubeMul(cfg, ext, h, a, Adjugate(cfg, a));
  }

  /** The base with a formal cube root of unity omega, omega^2 = -1 - omega. */
  function Eisenstein<T>(r: Ring<T>): Ring<Quad<T>> { PairAlgebra(r, r.Neg(r.one), r.Neg(r.one)) }

  function Split<T>(cfg: CubeConfig<T>): CubeConfig<Quad<T>> {
    var e := Eisenstein(cfg.R());
    var w := FromBase(cfg.R(), cfg.w);
    CubeConfig(Tower(Field(e, _ => None), x => e.Mul(x, x), x => x), w, x => e.Mul(w, x), 0)
  }

  lemma SplitExtends<T(!new)>(cfg: CubeConfig<T>)
    requires ValidCube(cfg)
    ensures ExtendsTo(cfg, Split(cfg), x => FromBase(cfg.R(), x))
  {
    var r, ext := cfg.R(), Split(cfg);
    var e := Eisenstein(r);
    PairAlgebraIsRing(r, r.Neg(r.one), r.Neg(r.one));
    assert forall a :: InvertSound(ext.base.field, a);
    assert forall a :: SquareIsProduct(ext.base, a);
    assert forall x :: FastWIsFull(ext, x);
    var h := x => FromBase(r, x);
    forall x, y
      ensures Preserves(r, e, h, x, y)
    {
      AddZero(r, r.zero);
      FromBaseApply(r, r.Neg(r.one), r.Neg(r.one), x, y);
    }
  }

  lemma FromBaseApply<T(!new)>(r: Ring<T>, beta: T, tau: T, x: T, y: T)
    requires IsRing(r)
    ensures Apply(r, beta, tau, FromBase(r, x), FromBase(r, y)) == FromBase(r, r.Mul(x, y))
  {
    MulZero(r, beta);
    MulZero(r, tau);
    MulZero(r, x);
    MulZero(r, r.zero);
    AddZero(r, y);
    MulZero(r, y);
    AddZero(r, r.Mul(x, y));
    AddZero(r, r.zero);
  }

  lemma SplitRoot<T(!new)>(cfg: CubeConfig<T>)
    requires ValidCube(cfg)
    ensures IsCubeRoot(Split(cfg).R(), Quad(cfg.R().zero, cfg.R().one))
  {
    var r := cfg.R();
    var (n, z) := (r.Neg(r.one), r.zero);
    var u := Quad(z, r.one);
    // u u = (-1, -1)
    MulOne(r, n);
    AddZero(r, n);
    MulZero(r, n);
    MulZero(r, r.one);
    assert Shift(r, n, n, u) == Quad(n, n);
    assert Scale(r, z, u) == Quad(z, z) by {
      MulZero(r, z);
    }
    assert Apply(r, n, n, u, u) == Quad(n, n);
    AddNegates(r, r.one);
    assert PairAdd(r, u, Quad(n, n)) == Quad(n, z);
    NegZero(r);
  }

  /** Over any commutative base the adjugate of a product is the product of the adjugates. */
  lemma AdjugateOfProduct<T(!new)>(cfg: CubeConfig<T>, a: Cube<T>, b: Cube<T>)
    requires ValidCube(cfg)
    ensures Adjugate(cfg, CubeMul(cfg, a, b)) == CubeMul(cfg, Adjugate(cfg, a), Adjugate(cfg, b))
  {
    var ext, h := Split(cfg), x => FromBase(cfg.R(), x);
    SplitExtends(cfg);
    SplitRoot(cfg);
    var (u, v) := (MapCube(h, a), MapCube(h, b));
    AdjugateOfProductSplit(ext, Quad(cfg.R().zero, cfg.R().one), u, v);
    MapCubeMul(cfg, ext, h, a, b);
    MapAdjugate(cfg, ext, h, CubeMul(cfg, a, b));
    MapAdjugate(cfg, ext, h, a);
    MapAdjugate(cfg, ext, h, b);
    MapCubeMul(cfg, ext, h, Adjugate(cfg, a), Adjugate(cfg, b));
  }

  /** The norm is multiplicative. */
  lemma CubeNormMultiplicative<T(!new)>(cfg: CubeConfig<T>, a: Cube<T>, b: Cube<T>)
    requires ValidCube(cfg)
    ensures CubeNorm(cfg, CubeMul(cfg, a, b)) == cfg.R().Mul(CubeNorm(cfg, a), CubeNorm(cfg, b))
  {
    var r, q := cfg.R(), CubeRing(cfg);
    CubeRingIsRing(cfg);
    AdjugateOfProduct(cfg, a, b);
    TimesAdjugate(cfg, a);
    TimesAdjugate(cfg, b);
    TimesAdjugate(cfg, CubeMul(cfg, a, b));
    MulSwap(q, a, b, Adjugate(cfg, a), Adjugate(cfg, b));
    CubeTimesBase(cfg, CubeFrom(r, CubeNorm(cfg, a)), CubeNorm(cfg, b));
  }

  /** The adjugate of the adjugate is the norm times the element. */
  lemma AdjugateTwice<T(!new)>(cfg: CubeConfig<T>, a: Cube<T>)
    requires ValidCube(cfg)
    ensures Adjugate(cfg, Adjugate(cfg, a)) == CubeMul(cfg, a, CubeFrom(cfg.R(), CubeNorm(cfg, a)))
  {
    var ext, h := Split(cfg), x => FromBase(cfg.R(), x);
    SplitExtends(cfg);
    SplitRoot(cfg);
    AdjugateTwiceSplit(ext, Quad(cfg.R().zero, cfg.R().one), MapCube(h, a));
    MapAdjugate(cfg, ext, h, a);
    MapAdjugate(cfg, ext, h, Adjugate(cfg, a));
    MapNorm(cfg, ext, h, a);
    MapCubeMul(cfg, ext, h, a, CubeFrom(cfg.R(), CubeNorm(cfg, a)));
  }

  // ---------- when the extension is a field ----------

  ghost predicate IsCube<T(!new)>(r: Ring<T>, x: T) { exists s :: Pow(r, s, 3) == x }

  /** Over a field, a nonzero element with zero adjugate exhibits W as a cube. */
  lemma ZeroAdjugate<T(!new)>(cfg: CubeConfig<T>, a: Cube<T>)
    requires ValidCube(cfg) && IsField(cfg.base.field)
    requires a != CubeFrom(cfg.R(), cfg.R().zero) && Adjugate(cfg, a) == CubeFrom(cfg.R(), cfg.R().zero)
    ensures IsCube(cfg.R(), cfg.w)
  {
    var r, k, w := cfg.R(), cfg.base.field, cfg.w;
    var (x, y, z) := (a.c0, a.c1, a.c2);
    FastProducts(cfg, a);
    SubSelf(r, r.Mul(x, x), r.Mul(w, r.Mul(y, z)));
    SubSelf(r, r.Mul(w, r.Mul(z, z)), r.Mul(x, y));
    SubSelf(r, r.Mul(y, y), r.Mul(x, z));
    MulZero(r, x);
    MulZero(r, y);
    MulZero(r, w);
    if z == r.zero {
      NoZeroDivisors(k, y, y);
      NoZeroDivisors(k, x, x);
      assert false;
    }
    InvertDefined(k, z);
    InvertWorks(k, z);
    CubeFromRatio(r, w, x, y, z, k.Invert(z).value);
  }

  /** From w z z = x y and y y = x z: w = (y / z)^3. */
  lemma CubeFromRatio<T(!new)>(r: Ring<T>, w: T, x: T, y: T, z: T, inv: T)
    requires IsRing(r) && r.Mul(z, inv) == r.one
    requires r.Mul(w, r.Mul(z, z)) == r.Mul(x, y) && r.Mul(y, y) == r.Mul(x, z)
    ensures IsCube(r, w)
  {
    var s := r.Mul(y, inv);
    var (z3, i3) := (Pow(r, z, 3), Pow(r, inv, 3));
    PowOfProduct(r, y, inv, 3);
    CubePower(r, y);
    CubePower(r, z);
    // y^3 = y (x z) = z (x y) = w z^3
    TripleProduct(r, x, y, z);
    MulLeftSwap(r, z, w, r.Mul(z, z));
    assert Pow(r, y, 3) == r.Mul(w, z3);
    MulAssociates(r, w, z3, i3);
    PowOfInverse(r, z, inv, 3);
    MulOne(r, w);
    assert Pow(r, s, 3) == w;
  }

  /** Over a field, the extension is a field if and only if W is not a cube. */
  lemma CubeFieldIff<T(!new)>(cfg: CubeConfig<T>)
    requires ValidCube(cfg) && IsField(cfg.base.field)
    ensures IsField(CubeTower(cfg).field) <==> !IsCube(cfg.R(), cfg.w)
  {
    var r, t := cfg.R(), CubeTower(cfg);
    CubeIsTower(cfg);
    if IsCube(r, cfg.w) {
      var s :| Pow(r, s, 3) == cfg.w;
      RootHasNoInverse(cfg, s);
      assert !InvertTotal(t.field, Cube(r.Neg(s), r.one, r.zero));
    } else {
      forall a
        ensures InvertTotal(t.field, a)
      {
        InvertDefined(cfg.base.field, CubeNorm(cfg, a));
        ZeroNormOnlyAtZero(cfg, a);
      }
    }
  }

  lemma ZeroNormOnlyAtZero<T(!new)>(cfg: CubeConfig<T>, a: Cube<T>)
    requires ValidCube(cfg) && IsField(cfg.base.field) && !IsCube(cfg.R(), cfg.w)
    ensures CubeNorm(cfg, a) == cfg.R().zero <==> a == CubeFrom(cfg.R(), cfg.R().zero)
  {
    var r := cfg.R();
    var z := CubeFrom(r, r.zero);
    var d := Adjugate(cfg, a);
    if a == z {
      CubeRingIsRing(cfg);
      MulZero(CubeRing(cfg), Adjugate(cfg, z));
      TimesAdjugate(cfg, z);
    } else if CubeNorm(cfg, a) == r.zero {
      AdjugateTwice(cfg, a);
      CubeRingIsRing(cfg);
      MulZero(CubeRing(cfg), a);
      if d == z {
        ZeroAdjugate(cfg, a);
      } else {
        ZeroAdjugate(cfg, d);
      }
    }
  }

  /** If W = s^3 then alpha - s has norm zero. */
  lemma RootHasNoInverse<T(!new)>(cfg: CubeConfig<T>, s: T)
    requires ValidCube(cfg) && IsField(cfg.base.field) && Pow(cfg.R(), s, 3) == cfg.w
    ensures CubeInvert(cfg, Cube(cfg.R().Neg(s), cfg.R().one, cfg.R().zero)).None?
  {
    var r := cfg.R();
    var a := Cube(r.Neg(s), r.one, r.zero);
    var d := Adjugate(cfg, a);
    TimesAdjugate(cfg, a);
    FastProducts(cfg, a);
    var s2 := r.Mul(s, s);
    MulZero(r, r.one);
    MulZero(r, r.zero);
    MulZero(r, cfg.w);
    MulZero(r, r.Neg(s));
    MulOne(r, r.Neg(s));
    MulOne(r, r.one);
    NegMul(r, s, r.Neg(s));
    NegMul(r, s, s);
    NegNeg(r, s2);
    NegNeg(r, s);
    NegZero(r);
    AddZero(r, s2);
    AddZero(r, s);
    AddZero(r, r.one);
    assert d == Cube(s2, s, r.one);
    // the norm is -s s^2 + W
    assert FastWIsFull(cfg, r.Add(r.Mul(r.one, r.one), r.Mul(r.zero, s)));
    MulZero(r, s);
    MulOne(r, cfg.w);
    NegMul(r, s, s2);
    CubePower(r, s);
    AddNegates(r, cfg.w);
    assert CubeNorm(cfg, a) == r.zero;
    InvertDefined(cfg.base.field, r.zero);
  }
}
