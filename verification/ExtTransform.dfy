/** The inverse transform of an extension-field word by its ground-field components: split, transform each component
    over the ground field, recombine. */
module ExtTransform {
  import opened Rings
  import opened Polynomials
  import opened Domains

  /** The ground field, its embedding, and the two conversions between elements and component lists. */
  datatype Basis<!A, !T> = Basis(ground: Ring<A>, emb: A -> T, comps: T -> seq<A>, fromComps: seq<A> -> T,
                                 elements: seq<T>)
  {
    function Degree(): nat { |elements| }
  }

  /** The combination of the first j basis elements. */
  function PartSum<A, T>(r: Ring<T>, B: Basis<A, T>, cs: seq<A>, j: nat): T
    requires j <= |cs| && j <= B.Degree()
  {
    if j == 0 then r.zero else r.Add(PartSum(r, B, cs, j - 1), r.Mul(B.elements[j - 1], B.emb(cs[j - 1])))
  }

  /** An element is the combination of its components. */
  ghost predicate Splits<A, T>(r: Ring<T>, B: Basis<A, T>, x: T) {
    |B.comps(x)| == B.Degree() && PartSum(r, B, B.comps(x), B.Degree()) == x
  }

  /** A list of components is that of its combination. */
  ghost predicate Joins<A, T>(r: Ring<T>, B: Basis<A, T>, cs: seq<A>) {
    |cs| == B.Degree() ==> B.fromComps(cs) == PartSum(r, B, cs, B.Degree()) && B.comps(B.fromComps(cs)) == cs
  }

  ghost predicate IsBasis<A(!new), T(!new)>(r: Ring<T>, B: Basis<A, T>) {
    && IsRing(r) && IsRing(B.ground) && IsHomomorphism(B.ground, r, B.emb)
    && (forall x :: Splits(r, B, x)) && (forall cs :: Joins(r, B, cs))
  }

  /** Component j of every entry. */
  function Components<A, T>(B: Basis<A, T>, values: seq<T>, j: nat): (cs: seq<A>)
    requires forall i :: 0 <= i < |values| ==> |B.comps(values[i])| == B.Degree()
    requires j < B.Degree()
    ensures |cs| == |values|
  {
    seq(|values|, i requires 0 <= i < |values| => B.comps(values[i])[j])
  }

  /** A ground-field domain seen in the extension. */
  function EmbedDomain<A, T>(emb: A -> T, d: Domain<A>): Domain<T> {
    Domain(d.size, emb(d.gen), emb(d.genInv), emb(d.sizeInv))
  }

  ghost predicate AllSplit<A, T>(B: Basis<A, T>, values: seq<T>) {
    forall i :: 0 <= i < |values| ==> |B.comps(values[i])| == B.Degree()
  }

  lemma SplitWord<A(!new), T(!new)>(r: Ring<T>, B: Basis<A, T>, values: seq<T>)
    requires IsBasis(r, B)
    ensures AllSplit(B, values)
  {
    forall i: nat | i < |values|
      ensures |B.comps(values[i])| == B.Degree()
    {
      assert Splits(r, B, values[i]);
    }
  }

  /** The word of the first j components. */
  function PartWord<A, T>(r: Ring<T>, B: Basis<A, T>, values: seq<T>, j: nat): (word: seq<T>)
    requires AllSplit(B, values) && j <= B.Degree()
    ensures |word| == |values|
  {
    seq(|values|, i requires 0 <= i < |values| => PartSum(r, B, B.comps(values[i]), j))
  }

  lemma PartWordStep<A, T>(r: Ring<T>, B: Basis<A, T>, values: seq<T>, j: nat)
    requires AllSplit(B, values) && j < B.Degree()
    ensures PartWord(r, B, values, j + 1)
         == AddSeq(r, PartWord(r, B, values, j), ScaleSeq(r, B.elements[j], Image(B.emb, Components(B, values, j))))
  {
  }

  lemma WholeWord<A(!new), T(!new)>(r: Ring<T>, B: Basis<A, T>, values: seq<T>)
    requires IsBasis(r, B) && AllSplit(B, values)
    ensures PartWord(r, B, values, B.Degree()) == values
  {
    forall i: nat | i < |values|
      ensures PartWord(r, B, values, B.Degree())[i] == values[i]
    {
      assert Splits(r, B, values[i]);
    }
  }

  /** The components' values at a ground-field point. */
  function ComponentValues<A, T>(B: Basis<A, T>, values: seq<T>, x: A): (cs: seq<A>)
    requires AllSplit(B, values)
    ensures |cs| == B.Degree()
  {
    seq(B.Degree(), j requires 0 <= j < B.Degree() => Eval(B.ground, Components(B, values, j), x))
  }

  /** At a ground-field point a polynomial is the combination of its components' values. */
  lemma {:induction false} EvalParts<A(!new), T(!new)>(r: Ring<T>, B: Basis<A, T>, values: seq<T>, x: A, j: nat)
    requires IsBasis(r, B) && AllSplit(B, values) && j <= B.Degree()
    ensures Eval(r, PartWord(r, B, values, j), B.emb(x)) == PartSum(r, B, ComponentValues(B, values, x), j)
  {
    if j == 0 {
      assert PartWord(r, B, values, 0) == Zeros(r, |values|);
      EvalZeros(r, |values|, B.emb(x));
    } else {
      var i := j - 1;
      EvalParts(r, B, values, x, i);
      EvalPart(r, B, values, x, i, j);
    }
  }

  lemma {:induction false} EvalPart<A(!new), T(!new)>(r: Ring<T>, B: Basis<A, T>, values: seq<T>, x: A, i: nat, j: nat)
    requires IsBasis(r, B) && AllSplit(B, values) && i + 1 == j <= B.Degree()
    requires Eval(r, PartWord(r, B, values, i), B.emb(x)) == PartSum(r, B, ComponentValues(B, values, x), i)
    ensures Eval(r, PartWord(r, B, values, j), B.emb(x)) == PartSum(r, B, ComponentValues(B, values, x), j)
  {
    var part, image := PartWord(r, B, values, i), Image(B.emb, Components(B, values, i));
    var scaled, y := ScaleSeq(r, B.elements[i], image), B.emb(x);
    assert Eval(r, PartWord(r, B, values, j), y) == r.Add(Eval(r, part, y), Eval(r, scaled, y)) by {
      PartWordStep(r, B, values, i);
      EvalAdd(r, part, scaled, y);
    }
    assert Eval(r, scaled, y) == r.Mul(B.elements[i], Eval(r, image, y)) by {
      EvalScale(r, B.elements[i], image, y);
    }
    assert Eval(r, image, y) == B.emb(ComponentValues(B, values, x)[i]) by {
      EvalImage(B.ground, r, B.emb, Components(B, values, i), x);
    }
  }

  function ScaledBy<A>(f: Ring<A>, cs: seq<A>, s: A): (scaled: seq<A>)
    ensures |scaled| == |cs|
  {
    seq(|cs|, j requires 0 <= j < |cs| => f.Mul(cs[j], s))
  }

  /** Scaling by a ground-field element scales every component. */
  lemma {:induction false} PartSumScales<A(!new), T(!new)>(r: Ring<T>, B: Basis<A, T>, cs: seq<A>, s: A, j: nat)
    requires IsBasis(r, B) && |cs| == B.Degree() && j <= |cs|
    ensures r.Mul(PartSum(r, B, cs, j), B.emb(s)) == PartSum(r, B, ScaledBy(B.ground, cs, s), j)
  {
    var t := B.emb(s);
    if j == 0 {
      MulCommutes(r, r.zero, t);
      MulZero(r, t);
    } else {
      var i := j - 1;
      var e, c := B.elements[i], B.emb(cs[i]);
      PartSumScales(r, B, cs, s, i);
      MulCommutes(r, r.Add(PartSum(r, B, cs, i), r.Mul(e, c)), t);
      Distributes(r, t, PartSum(r, B, cs, i), r.Mul(e, c));
      MulCommutes(r, t, PartSum(r, B, cs, i));
      MulCommutes(r, t, r.Mul(e, c));
      MulAssociates(r, e, c, t);
      HomMul(B.ground, r, B.emb, cs[i], s);
    }
  }

  /** Entry k of the components' inverse transforms. */
  function TransformedAt<A, T>(B: Basis<A, T>, d: Domain<A>, values: seq<T>, k: nat): (cs: seq<A>)
    requires AllSplit(B, values) && k < |values|
    ensures |cs| == B.Degree()
  {
    seq(B.Degree(), j requires 0 <= j < B.Degree() => Ifft(B.ground, d, Components(B, values, j))[k])
  }

  lemma TransformedIsScaled<A(!new), T(!new)>(r: Ring<T>, B: Basis<A, T>, d: Domain<A>, values: seq<T>, k: nat)
    requires IsBasis(r, B) && AllSplit(B, values) && k < |values|
    ensures TransformedAt(B, d, values, k)
         == ScaledBy(B.ground, ComponentValues(B, values, Pow(B.ground, d.genInv, k)), d.sizeInv)
  {
    var f := B.ground;
    forall j: nat | j < B.Degree()
      ensures Ifft(f, d, Components(B, values, j))[k]
           == f.Mul(Eval(f, Components(B, values, j), Pow(f, d.genInv, k)), d.sizeInv)
    {
      PowOfOne(f, k);
      MulOne(f, f.Mul(Eval(f, Components(B, values, j), Pow(f, d.genInv, k)), d.sizeInv));
    }
  }

  /** The inverse transform of a word, entry by entry, is the combination of those of its components, and its
      components are theirs. */
  lemma IfftByComponents<A(!new), T(!new)>(r: Ring<T>, B: Basis<A, T>, d: Domain<A>, values: seq<T>, k: nat)
    requires IsBasis(r, B) && AllSplit(B, values) && k < |values|
    ensures Ifft(r, EmbedDomain(B.emb, d), values)[k] == B.fromComps(TransformedAt(B, d, values, k))
    ensures B.comps(Ifft(r, EmbedDomain(B.emb, d), values)[k]) == TransformedAt(B, d, values, k)
  {
    var f, x := B.ground, Pow(B.ground, d.genInv, k);
    var cs := ComponentValues(B, values, x);
    var value := Ifft(r, EmbedDomain(B.emb, d), values)[k];
    assert value == r.Mul(Eval(r, values, B.emb(x)), B.emb(d.sizeInv)) by {
      HomPow(f, r, B.emb, d.genInv, k);
      PowOfOne(r, k);
      MulOne(r, r.Mul(Eval(r, values, B.emb(x)), B.emb(d.sizeInv)));
    }
    EvalParts(r, B, values, x, B.Degree());
    WholeWord(r, B, values);
    PartSumScales(r, B, cs, d.sizeInv, B.Degree());
    TransformedIsScaled(r, B, d, values, k);
    assert Joins(r, B, TransformedAt(B, d, values, k));
  }

  /** The loops: split the word, transform every component, recombine entry by entry. */
  method IfftOfExt<A(!new), T(!new)>(r: Ring<T>, B: Basis<A, T>, d: Domain<A>, values: seq<T>) returns (coeffs: seq<T>)
    requires IsBasis(r, B)
    ensures coeffs == Ifft(r, EmbedDomain(B.emb, d), values)
  {
    SplitWord(r, B, values);
    var transformed := TransformComponents(B, d, values);
    coeffs := [];
    for k := 0 to |values|
      invariant |coeffs| == k
      invariant forall i :: 0 <= i < k ==> coeffs[i] == Ifft(r, EmbedDomain(B.emb, d), values)[i]
    {
      var cs := seq(B.Degree(), j requires 0 <= j < B.Degree() => transformed[j][k]);
      IfftByComponents(r, B, d, values, k);
      assert cs == TransformedAt(B, d, values, k);
      coeffs := coeffs + [B.fromComps(cs)];
    }
  }

  method TransformComponents<A, T>(B: Basis<A, T>, d: Domain<A>, values: seq<T>) returns (transformed: seq<seq<A>>)
    requires AllSplit(B, values)
    ensures |transformed| == B.Degree()
    ensures forall j :: 0 <= j < B.Degree() ==> transformed[j] == Ifft(B.ground, d, Components(B, values, j))
  {
    transformed := [];
    for j := 0 to B.Degree()
      invariant |transformed| == j
      invariant forall i :: 0 <= i < j ==> transformed[i] == Ifft(B.ground, d, Components(B, values, i))
    {
      transformed := transformed + [Ifft(B.ground, d, Components(B, values, j))];
    }
  }

  // ---------- zero components ----------

  lemma {:induction false} PartSumOfZeros<A(!new), T(!new)>(r: Ring<T>, B: Basis<A, T>, cs: seq<A>, j: nat)
    requires IsBasis(r, B) && |cs| == B.Degree() && j <= |cs| && forall i :: 0 <= i < |cs| ==> cs[i] == B.ground.zero
    ensures PartSum(r, B, cs, j) == r.zero
  {
    if j > 0 {
      PartSumOfZeros(r, B, cs, j - 1);
      MulZero(r, B.elements[j - 1]);
      AddZero(r, r.zero);
    }
  }

  /** An element is zero exactly when its components are. */
  lemma ZeroComponents<A(!new), T(!new)>(r: Ring<T>, B: Basis<A, T>, x: T)
    requires IsBasis(r, B)
    ensures x == r.zero <==> forall j :: 0 <= j < |B.comps(x)| ==> B.comps(x)[j] == B.ground.zero
  {
    var zeros := seq(B.Degree(), _ => B.ground.zero);
    PartSumOfZeros(r, B, zeros, B.Degree());
    assert Joins(r, B, zeros) && Splits(r, B, x);
    if forall j :: 0 <= j < |B.comps(x)| ==> B.comps(x)[j] == B.ground.zero {
      assert B.comps(x) == zeros;
    }
  }
}
