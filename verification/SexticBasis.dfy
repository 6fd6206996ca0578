/** The sextic tower as lists of six ground-field components, `to_fp_components` and `from_fp_components`. */
module SexticBasis {
  import opened Rings
  import opened ExtTransform
  import opened QuadExt
  import opened CubicExt
  import opened Towers

  type Sextic<T> = Quad<Cube<T>>

  function Emb<T>(r: Ring<T>, x: T): Sextic<T> { Quad(CubeFrom(r, x), CubeFrom(r, r.zero)) }

  function Comps<T>(x: Sextic<T>): (cs: seq<T>)
    ensures |cs| == 6
  {
    [x.c0.c0, x.c0.c1, x.c0.c2, x.c1.c0, x.c1.c1, x.c1.c2]
  }

  function FromComps<T>(r: Ring<T>, cs: seq<T>): Sextic<T> {
    if |cs| == 6 then Quad(Cube(cs[0], cs[1], cs[2]), Cube(cs[3], cs[4], cs[5])) else Emb(r, r.zero)
  }

  /** The list with c at position i and zeros elsewhere. */
  function UnitList<T>(r: Ring<T>, i: nat, c: T): (cs: seq<T>)
    ensures |cs| == 6
  {
    seq(6, j => if j == i then c else r.zero)
  }

  function BasisElements<T>(r: Ring<T>): (elements: seq<Sextic<T>>)
    ensures |elements| == 6
  {
    seq(6, i requires 0 <= i < 6 => FromComps(r, UnitList(r, i, r.one)))
  }

  /** 1, alpha, alpha^2, u, u alpha, u alpha^2 */
  function BasisFor<T>(f: Tower<T>): Basis<T, Sextic<T>> {
    var r := f.Ring();
    Basis(r, x => Emb(r, x), x => Comps(x), cs => FromComps(r, cs), BasisElements(r))
  }

  /** The first k entries, then zeros. */
  function Prefix<T>(r: Ring<T>, cs: seq<T>, k: nat): (p: seq<T>)
    requires |cs| == 6
    ensures |p| == 6
  {
    seq(6, j requires 0 <= j < 6 => if j < k then cs[j] else r.zero)
  }

  /** Multiplying by a ground-field element multiplies every component. */
  lemma TimesEmb<T(!new)>(f: Tower<T>, seven: T, x: Sextic<T>, s: T)
    requires IsTower(f)
    ensures
      var (r, q) := (f.Ring(), SexticTower(f, seven).Ring());
      q.Mul(x, Emb(r, s)) == Quad(Cube(r.Mul(x.c0.c0, s), r.Mul(x.c0.c1, s), r.Mul(x.c0.c2, s)),
                                  Cube(r.Mul(x.c1.c0, s), r.Mul(x.c1.c1, s), r.Mul(x.c1.c2, s)))
  {
    var r, c3, c6 := f.Ring(), CubicConfig(f, seven), SexticConfig(f, seven);
    var q3, t := CubicTower(f, seven).Ring(), CubeFrom(f.Ring(), s);
    CubicValid(f, seven);
    SexticValid(f, seven);
    KaratsubaIsSchoolbook(c6, x, FromBase(q3, t));
    MulZero(q3, x.c0);
    MulZero(q3, x.c1);
    MulZero(q3, c6.beta);
    AddZero(q3, q3.Mul(x.c0, t));
    AddZero(q3, q3.Mul(x.c1, t));
    CubeTimesBase(c3, x.c0, s);
    CubeTimesBase(c3, x.c1, s);
  }

  lemma UnitTimes<T(!new)>(f: Tower<T>, seven: T, i: nat, c: T)
    requires IsTower(f) && i < 6
    ensures
      var r := f.Ring();
      SexticTower(f, seven).Ring().Mul(BasisElements(r)[i], Emb(r, c)) == FromComps(r, UnitList(r, i, c))
  {
    var r := f.Ring();
    TimesEmb(f, seven, BasisElements(r)[i], c);
    MulOne(r, c);
    MulCommutes(r, r.one, c);
    MulCommutes(r, r.zero, c);
    MulZero(r, c);
  }

  lemma PrefixAdds<T(!new)>(r: Ring<T>, cs: seq<T>, k: nat, j: nat)
    requires IsRing(r) && |cs| == 6 && k < 6 && j < 6
    ensures r.Add(Prefix(r, cs, k)[j], UnitList(r, k, cs[k])[j]) == Prefix(r, cs, k + 1)[j]
  {
    AddZero(r, cs[j]);
    AddZero(r, r.zero);
  }

  lemma PrefixStep<T(!new)>(f: Tower<T>, seven: T, cs: seq<T>, k: nat)
    requires IsTower(f) && |cs| == 6 && k < 6
    ensures
      var (r, q) := (f.Ring(), SexticTower(f, seven).Ring());
      q.Add(FromComps(r, Prefix(r, cs, k)), FromComps(r, UnitList(r, k, cs[k]))) == FromComps(r, Prefix(r, cs, k + 1))
  {
    var r := f.Ring();
    PrefixAdds(r, cs, k, 0);
    PrefixAdds(r, cs, k, 1);
    PrefixAdds(r, cs, k, 2);
    PrefixAdds(r, cs, k, 3);
    PrefixAdds(r, cs, k, 4);
    PrefixAdds(r, cs, k, 5);
  }

  lemma {:induction false} PartSumIs<T(!new)>(f: Tower<T>, seven: T, cs: seq<T>, k: nat)
    requires IsTower(f) && |cs| == 6 && k <= 6
    ensures PartSum(SexticTower(f, seven).Ring(), BasisFor(f), cs, k) == FromComps(f.Ring(), Prefix(f.Ring(), cs, k))
  {
    if k > 0 {
      var i := k - 1;
      PartSumIs(f, seven, cs, i);
      UnitTimes(f, seven, i, cs[i]);
      PrefixStep(f, seven, cs, i);
    }
  }

  lemma EmbIsHom<T(!new)>(f: Tower<T>, seven: T)
    requires IsTower(f)
    ensures IsHomomorphism(f.Ring(), SexticTower(f, seven).Ring(), BasisFor(f).emb)
  {
    var r, q, emb := f.Ring(), SexticTower(f, seven).Ring(), BasisFor(f).emb;
    forall x, y
      ensures Preserves(r, q, emb, x, y)
    {
      TimesEmb(f, seven, Emb(r, x), y);
      MulCommutes(r, r.zero, y);
      MulZero(r, y);
      AddZero(r, r.zero);
    }
  }

  lemma SexticJoins<T(!new)>(f: Tower<T>, seven: T, cs: seq<T>)
    requires IsTower(f)
    ensures Joins(SexticTower(f, seven).Ring(), BasisFor(f), cs)
  {
    if |cs| == 6 {
      PartSumIs(f, seven, cs, 6);
      assert Prefix(f.Ring(), cs, 6) == cs;
      assert Comps(FromComps(f.Ring(), cs)) == cs;
    }
  }

  lemma SexticSplits<T(!new)>(f: Tower<T>, seven: T, x: Sextic<T>)
    requires IsTower(f)
    ensures Splits(SexticTower(f, seven).Ring(), BasisFor(f), x)
  {
    PartSumIs(f, seven, Comps(x), 6);
    assert Prefix(f.Ring(), Comps(x), 6) == Comps(x);
  }

  /** The six components are a basis of the tower over its ground field. */
  lemma SexticHasBasis<T(!new)>(f: Tower<T>, seven: T)
    requires IsTower(f)
    ensures IsBasis(SexticTower(f, seven).Ring(), BasisFor(f))
  {
    SexticValid(f, seven);
    EmbIsHom(f, seven);
    forall cs
      ensures Joins(SexticTower(f, seven).Ring(), BasisFor(f), cs)
    {
      SexticJoins(f, seven, cs);
    }
    forall x
      ensures Splits(SexticTower(f, seven).Ring(), BasisFor(f), x)
    {
      SexticSplits(f, seven, x);
    }
  }
}
