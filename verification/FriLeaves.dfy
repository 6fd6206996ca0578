/** Leaves determine the values serialized in them, and the protocol's trees never hash one another's inputs. */
module FriLeaves {
  import opened Arith
  import opened Hashing
  import opened Merkle
  import opened FriSetup
  import opened FriProtocol
  import opened FriBinding

  /** Ground-field elements are serialized injectively, all to one length. */
  ghost predicate Serializes<A(!new), T>(S: Setup<A, T>, len: nat) {
    BytesApart(S) && forall a :: |S.fieldBytes(a)| == len
  }

  lemma EncodeBinds<A(!new), T>(S: Setup<A, T>, xs: seq<A>, ys: seq<A>, len: nat)
    requires Serializes(S, len) && |xs| == |ys|
    ensures Encode(S, xs) == Encode(S, ys) <==> xs == ys
  {
    var (a, b) := (FieldItems(S, xs), FieldItems(S, ys));
    if Encode(S, xs) == Encode(S, ys) {
      assert forall i :: 0 <= i < |a| ==> a[i] == S.fieldBytes(xs[i]) && b[i] == S.fieldBytes(ys[i]);
      ConcatInjective(a, b, len);
      FieldItemsBind(S, xs, ys);
    }
  }

  lemma StirLeafBinds<A(!new), T(!new)>(S: Setup<A, T>, f: T, g: T, len: nat)
    requires ValidSetup(S) && Serializes(S, len)
    ensures StirLeaf(S, f) == StirLeaf(S, g) <==> f == g
  {
    assert ComponentsFit(S, f) && ComponentsFit(S, g);
    EncodeBinds(S, S.comps(f), S.comps(g), len);
    if S.comps(f) == S.comps(g) {
      ComponentsBind(S, f, g);
    }
  }

  lemma SplitThree<X>(a: seq<X>, b: seq<X>, c: seq<X>, x: seq<X>, y: seq<X>, z: seq<X>)
    requires |a| == |x| && |b| == |y| && a + b + c == x + y + z
    ensures a == x && b == y && c == z
  {
    PrefixesAgree(a + b, c, x + y, z);
    PrefixesAgree(a, b, x, y);
  }

  /** A classic leaf determines value, fold value and quotient. */
  lemma ClassicLeafBinds<A(!new), T(!new)>(S: Setup<A, T>, f: T, s: T, q: T, g: T, t: T, p: T, len: nat)
    requires ValidSetup(S) && Serializes(S, len)
    ensures ClassicLeaf(S, f, s, q) == ClassicLeaf(S, g, t, p) <==> f == g && s == t && q == p
  {
    assert ComponentsFit(S, f) && ComponentsFit(S, s) && ComponentsFit(S, q);
    assert ComponentsFit(S, g) && ComponentsFit(S, t) && ComponentsFit(S, p);
    if ClassicLeaf(S, f, s, q) == ClassicLeaf(S, g, t, p) {
      var (xs, ys) := (S.comps(f) + S.comps(s) + S.comps(q), S.comps(g) + S.comps(t) + S.comps(p));
      EncodeBinds(S, xs, ys, len);
      SplitThree(S.comps(f), S.comps(s), S.comps(q), S.comps(g), S.comps(t), S.comps(p));
      ComponentsBind(S, f, g);
      ComponentsBind(S, s, t);
      ComponentsBind(S, q, p);
    }
  }

  lemma {:induction false} TupleFieldsBind<A(!new), T(!new)>(S: Setup<A, T>, vs: seq<T>, us: seq<T>)
    requires ValidSetup(S) && |vs| == |us|
    ensures |TupleFields(S, vs)| == |TupleFields(S, us)|
    ensures TupleFields(S, vs) == TupleFields(S, us) ==> vs == us
  {
    if vs != [] {
      var last := |vs| - 1;
      TupleFieldsBind(S, vs[..last], us[..last]);
      assert ComponentsFit(S, vs[last]) && ComponentsFit(S, us[last]);
      if TupleFields(S, vs) == TupleFields(S, us) {
        PrefixesAgree(TupleFields(S, vs[..last]), S.comps(vs[last]), TupleFields(S, us[..last]), S.comps(us[last]));
        ComponentsBind(S, vs[last], us[last]);
        assert vs == vs[..last] + [vs[last]] && us == us[..last] + [us[last]];
      }
    }
  }

  /** A coefficient leaf determines its tuple. */
  lemma CoeffLeafBinds<A(!new), T(!new)>(S: Setup<A, T>, vs: seq<T>, us: seq<T>, len: nat)
    requires ValidSetup(S) && Serializes(S, len) && |vs| == |us|
    ensures Encode(S, TupleFields(S, vs)) == Encode(S, TupleFields(S, us)) <==> vs == us
  {
    TupleFieldsBind(S, vs, us);
    EncodeBinds(S, TupleFields(S, vs), TupleFields(S, us), len);
  }

  // ---------- one tree's inputs are not another's ----------

  /** The trees of a proof: over the first word, over each layer, over the last coefficients. */
  datatype Tree = FirstTree | LayerTree(ell: nat) | CoeffTree

  ghost predicate InSchedule(schedule: seq<nat>, t: Tree) { t.LayerTree? ==> t.ell < |schedule| }

  /** How each tree is configured: the first word's fibres or single values, a layer's points, the last tuples. */
  function ConfigOf(params: Params, n0: nat, t: Tree): MerkleChannelCfg
    requires params.schedule != [] && (t.LayerTree? ==> t.ell < |params.schedule|)
  {
    match t
    case FirstTree => TreeConfig(if params.stir then SizeAt(n0, params.schedule, 1) else n0, 16, F0_LABEL)
    case LayerTree(ell) => LayerConfig(params, n0, ell)
    case CoeffTree => TreeConfig(SizeAt(n0, params.schedule, |params.schedule|), 16, COEFF_LABEL)
  }

  /** The labels: 255, the layer's number, 254. */
  lemma LabelIs(params: Params, n0: nat, t: Tree)
    requires params.schedule != [] && InSchedule(params.schedule, t)
    ensures ConfigOf(params, n0, t).treeLabel == if t.FirstTree? then 255 else if t.CoeffTree? then 254 else t.ell
  {
  }

  lemma {:induction false} TwoPowerLength(schedule: seq<nat>)
    requires TwoPowerFactors(schedule)
    ensures Pow2(|schedule|) <= ProductOf(schedule)
  {
    if schedule != [] {
      TwoPowerLength(schedule[1..]);
      BlocksMonotone(2, schedule[0], ProductOf(schedule[1..]));
    }
  }

  /** A schedule has at most as many layers as the largest domain has doublings. */
  lemma LayersFew(n0: nat, schedule: seq<nat>)
    requires GoodSchedule(n0, schedule)
    ensures |schedule| <= 32
  {
    FactorsOfGood(n0, schedule);
    TwoPowerLength(schedule);
    MaxDomainIsPower();
    var p := ProductOf(schedule);
    QuotientExists(n0, p);
    if |schedule| > 32 {
      Pow2Below(32, |schedule|);
    }
  }

  /** No leaf or node input of one tree of a proof is an input of another. */
  lemma TreesApart(params: Params, n0: nat, t: Tree, u: Tree, a1: nat, l1: nat, p1: nat, x1: seq<Byte>,
                   c1: seq<Digest>, a2: nat, l2: nat, p2: nat, x2: seq<Byte>, c2: seq<Digest>)
    requires GoodSchedule(n0, params.schedule) && t != u
    requires InSchedule(params.schedule, t) && InSchedule(params.schedule, u)
    ensures
      var (one, other) := (ConfigOf(params, n0, t).treeLabel, ConfigOf(params, n0, u).treeLabel);
      && LeafInput(a1, one, p1, x1) != LeafInput(a2, other, p2, x2)
      && LeafInput(a1, one, p1, x1) != NodeInput(a2, other, l2, p2, c2)
      && NodeInput(a1, one, l1, p1, c1) != NodeInput(a2, other, l2, p2, c2)
  {
    LayersFew(n0, params.schedule);
    LabelIs(params, n0, t);
    LabelIs(params, n0, u);
    var (one, other) := (ConfigOf(params, n0, t).treeLabel, ConfigOf(params, n0, u).treeLabel);
    assert LeafInput(a1, one, p1, x1).tag.treeLabel == NodeInput(a1, one, l1, p1, c1).tag.treeLabel == one;
    assert LeafInput(a2, other, p2, x2).tag.treeLabel == NodeInput(a2, other, l2, p2, c2).tag.treeLabel == other;
  }
}
