/** The prover after its transcript: final coefficients, query seed, query phase, and the proof. Its loops take the
    relation their entries have to meet as a ghost parameter `due`, so that no invariant carries its definition. */
module FriQueries {
  import opened Arith
  import opened Rings
  import opened Polynomials
  import opened Domains
  import opened ExtTransform
  import opened FriLayers
  import opened Hashing
  import opened Merkle
  import opened MerkleChannel
  import opened FriSetup
  import opened FriProtocol
  import opened FriPositions
  import opened FriProver

  // ---------- the final polynomial ----------

  /** `ext_evals_to_coeffs`: a single value is its own coefficient. */
  method ExtEvalsToCoeffs<A(!new), T(!new)>(r: Ring<T>, B: Basis<A, T>, gd: Domain<A>, d: Domain<T>, evals: seq<T>)
    returns (coeffs: seq<T>)
    requires ValidDomain(r, d) && |evals| == d.size && IsBasis(r, B) && d == EmbedDomain(B.emb, gd)
    ensures coeffs == Ifft(r, d, evals)
  {
    if |evals| == 1 {
      coeffs := evals;
      CodewordOfIfft(r, d, evals);
      ghost var c := Ifft(r, d, evals);
      assert c == [c[0]];
      EvalSingleton(r, c[0], Pow(r, d.gen, 0));
      assert Codeword(r, c, d.gen, 1)[0] == c[0];
    } else {
      coeffs := IfftOfExt(r, B, gd, evals);
    }
  }

  method FinalPolynomial<A(!new), T(!new)>(r: Ring<T>, B: Basis<A, T>, gd: Domain<A>, d: Domain<T>, word: seq<T>,
                                           dFinal: nat)
    returns (final: seq<T>)
    requires ValidDomain(r, d) && |word| == d.size && IsBasis(r, B) && d == EmbedDomain(B.emb, gd)
    ensures final == FinalCoeffs(r, d, word, dFinal)
  {
    var all := ExtEvalsToCoeffs(r, B, gd, d, word);
    var count := if dFinal < |all| then dFinal else |all|;
    final := all[..count];
  }

  // ---------- the query seed ----------

  /** A fresh transcript fed the same commitments, then the final coefficients. */
  method ReplaySeed<A(!new), T(!new)>(S: Setup<A, T>, params: Params, c: Commitments<T>) returns (seed: A)
    requires |c.msgs| == |params.schedule|
    ensures seed == QuerySeed(S, params, c)
  {
    var tr := new Transcript<A, T>(S);
    BindStatement(tr, params, c.n0);
    tr.AbsorbBytes(c.rootF0);
    var _ := tr.Challenge("z_fp3");
    assert tr.log == StartLog(S, params, c.n0, c.rootF0);
    ReplayMessages(S, params, c, tr);
    tr.AbsorbAll(c.final);
    seed := S.squeeze(tr.log, "query_seed");
  }

  /** The layers' messages, and the coefficient root when there is one. */
  method ReplayMessages<A(!new), T(!new)>(S: Setup<A, T>, params: Params, c: Commitments<T>, tr: Transcript<A, T>)
    requires |c.msgs| == |params.schedule| && tr.S == S && tr.log == LayersLog(S, params, c, 0)
    modifies tr
    ensures tr.log == CommitLog(S, params, c)
  {
    for ell := 0 to params.NormalLayers()
      invariant tr.log == LayersLog(S, params, c, ell)
    {
      var _ := tr.Challenge("alpha");
      AbsorbMsg(tr, c.msgs[ell]);
    }
    if params.UsesCommit() {
      AbsorbMsg(tr, c.msgs[|params.schedule| - 1]);
      tr.AbsorbBytes(c.coeffRoot);
      var _ := tr.Challenge("alpha");
      var _ := tr.Challenge("beta_deg");
    }
  }

  // ---------- STIR queries ----------

  /** One payload: the fibre under the seed's position and the openings that commit to it. */
  method StirPayloadAt<A, T>(S: Setup<A, T>, f0: seq<A>, m: nat, half: nat, tree0: MerkleTreeChannel,
                             ghost rootF0: Digest, second: Option<SecondLayer<T>>, tree1: MerkleTreeChannel, raw: nat)
    returns (pq: StirPayload<A, T>)
    requires |f0| == m * half && half > 0 && TreesFit(S, f0, m, half, tree0, rootF0, second, tree1)
    ensures StirHonest(S, f0, rootF0, m, half, second, raw, pq)
  {
    var b := Rem(raw, half);
    var fibre := Fibre(f0, m, half, b);
    var opening := OpenLeaf(S.hasher, 16, F0_LABEL, tree0, PackedLeaves(S, f0, m, half), b);
    if second.Some? {
      var value := second.value.word[b];
      var inner := OpenLeaf(S.hasher, second.value.arity, 1, tree1, StirLeaves(S, second.value.word), b);
      pq := StirPayload(b, raw, FibreIndices(b, half, m), fibre, opening, value, Some(inner));
    } else {
      pq := StirPayload(b, raw, FibreIndices(b, half, m), fibre, opening, S.k.ring.zero, None);
    }
  }

  /** The trees the queries open: packed fibres, and the second layer. */
  ghost predicate TreesFit<A, T>(S: Setup<A, T>, f0: seq<A>, m: nat, half: nat, tree0: MerkleTreeChannel,
                                 rootF0: Digest, second: Option<SecondLayer<T>>, tree1: MerkleTreeChannel)
    requires |f0| == m * half && half > 0
    reads tree0, tree1
  {
    && IsTreeOver(S.hasher, 16, F0_LABEL, PackedLeaves(S, f0, m, half), tree0)
    && rootF0 == TreeRoot(S.hasher, 16, F0_LABEL, PackedLeaves(S, f0, m, half))
    && (second.Some? ==>
        && |second.value.word| == half && second.value.root
           == TreeRoot(S.hasher, second.value.arity, 1, StirLeaves(S, second.value.word))
        && IsTreeOver(S.hasher, second.value.arity, 1, StirLeaves(S, second.value.word), tree1))
  }

  /** `stir_prove_proximity_queries` */
  method StirProveProximityQueries<A(!new), T(!new)>(S: Setup<A, T>, f0: seq<A>, m: nat, half: nat, rootF0: Digest,
                                                     second: Option<SecondLayer<T>>, s0: nat, seed: A)
    returns (payloads: seq<StirPayload<A, T>>)
    requires |f0| == m * half > 0 && half > 0
    requires rootF0 == TreeRoot(S.hasher, 16, F0_LABEL, PackedLeaves(S, f0, m, half))
    requires second.Some? ==>
      && |second.value.word| == half
      && second.value.root == TreeRoot(S.hasher, second.value.arity, 1, StirLeaves(S, second.value.word))
    ensures |payloads| == s0
    ensures forall qi :: 0 <= qi < s0 ==>
      StirHonest(S, f0, rootF0, m, half, second, RawIndex(S, seed, qi, |f0|), payloads[qi])
    ensures forall qi :: 0 <= qi < s0 ==> FibreSent(S, seed, f0, m, half, qi, payloads[qi])
  {
    var tree0, _ := GrowTree(S.hasher, 16, F0_LABEL, PackedLeaves(S, f0, m, half));
    var tree1 := tree0;
    if second.Some? {
      var r1;
      tree1, r1 := GrowTree(S.hasher, second.value.arity, 1, StirLeaves(S, second.value.word));
    }
    ghost var due := (qi: nat, pq: StirPayload<A, T>) =>
        StirHonest(S, f0, rootF0, m, half, second, RawIndex(S, seed, qi, |f0|), pq);
    payloads := StirPayloads(S, f0, m, half, tree0, rootF0, second, tree1, s0, seed, due);
    forall qi: nat | qi < s0
      ensures FibreSent(S, seed, f0, m, half, qi, payloads[qi])
    {
      assert due(qi, payloads[qi]);
      StirHonestSends(S, f0, rootF0, m, half, second, seed, qi, payloads[qi]);
    }
  }

  /** The loop over the queries; `due` says which payloads are in order. */
  method StirPayloads<A(!new), T(!new)>(S: Setup<A, T>, f0: seq<A>, m: nat, half: nat, tree0: MerkleTreeChannel,
                                        ghost rootF0: Digest, second: Option<SecondLayer<T>>,
                                        tree1: MerkleTreeChannel, s0: nat, seed: A,
                                        ghost due: (nat, StirPayload<A, T>) -> bool)
    returns (payloads: seq<StirPayload<A, T>>)
    requires |f0| == m * half > 0 && half > 0 && TreesFit(S, f0, m, half, tree0, rootF0, second, tree1)
    requires StirDue(S, f0, m, half, rootF0, second, seed, due)
    ensures |payloads| == s0 && forall qi :: 0 <= qi < s0 ==> due(qi, payloads[qi])
  {
    payloads := [];
    for qi := 0 to s0
      invariant |payloads| == qi && forall i :: 0 <= i < qi ==> due(i, payloads[i])
    {
      var pq := StirPayloadAt(S, f0, m, half, tree0, rootF0, second, tree1, RawIndex(S, seed, qi, |f0|));
      assert due(qi, pq);
      payloads := payloads + [pq];
    }
  }

  /** What StirHonest accepts is due. */
  ghost predicate StirDue<A(!new), T(!new)>(S: Setup<A, T>, f0: seq<A>, m: nat, half: nat, rootF0: Digest,
                                            second: Option<SecondLayer<T>>, seed: A,
                                            due: (nat, StirPayload<A, T>) -> bool)
    requires |f0| == m * half > 0 && half > 0
  {
    forall qi, pq {:trigger StirHonest(S, f0, rootF0, m, half, second, RawIndex(S, seed, qi, |f0|), pq)} ::
      StirHonest(S, f0, rootF0, m, half, second, RawIndex(S, seed, qi, |f0|), pq) ==> due(qi, pq)
  }

  // ---------- classic queries ----------

  /** Positions step from layer to layer. */
  ghost predicate IndexStep(index: nat -> nat, sizes: seq<nat>, ell: nat)
    requires ell + 1 < |sizes|
  {
    sizes[ell + 1] > 0 && index(ell + 1) == Rem(index(ell), sizes[ell + 1])
  }

  ghost predicate RefIs(ref: QueryRef, index: nat -> nat, ell: nat, m: nat) {
    m > 0 && ref == QueryRef(index(ell), Rem(index(ell), m), index(ell + 1), 0)
  }

  /** The chain of positions of one query. */
  method QueryRefs(raw: nat, schedule: seq<nat>, sizes: seq<nat>, ghost index: nat -> nat)
    returns (refs: seq<QueryRef>, finalIndex: nat)
    requires |sizes| == |schedule| + 1 && index(0) == raw && forall i :: 0 <= i < |schedule| ==> schedule[i] > 0
    requires forall ell {:trigger IndexStep(index, sizes, ell)} :: 0 <= ell < |schedule| ==>
      IndexStep(index, sizes, ell)
    ensures |refs| == |schedule| && finalIndex == index(|schedule|)
    ensures forall ell :: 0 <= ell < |schedule| ==> RefIs(refs[ell], index, ell, schedule[ell])
  {
    refs, finalIndex := [], raw;
    for ell := 0 to |schedule|
      invariant |refs| == ell && finalIndex == index(ell)
      invariant forall i :: 0 <= i < ell ==> RefIs(refs[i], index, i, schedule[i])
    {
      assert IndexStep(index, sizes, ell);
      var next := Rem(finalIndex, sizes[ell + 1]);
      refs := refs + [QueryRef(finalIndex, Rem(finalIndex, schedule[ell]), next, 0)];
      finalIndex := next;
    }
  }

  ghost predicate RefsAre(refs: seq<QueryRef>, finalIndex: nat, index: nat -> nat, schedule: seq<nat>) {
    && |refs| == |schedule| && finalIndex == index(|schedule|)
    && forall ell :: 0 <= ell < |schedule| ==> RefIs(refs[ell], index, ell, schedule[ell])
  }

  /** The positions of query q, layer by layer. */
  function Positions<A, T>(S: Setup<A, T>, seed: A, n0: nat, schedule: seq<nat>, q: nat): nat -> nat
    requires n0 > 0
  {
    (ell: nat) => if ell <= |schedule| then IndexAt(RawIndex(S, seed, q, n0), n0, schedule, ell) else 0
  }

  ghost predicate SizesPositive(n0: nat, schedule: seq<nat>, sizes: seq<nat>) {
    && |sizes| == |schedule| + 1 && (forall i :: 0 <= i <= |schedule| ==> sizes[i] == SizeAt(n0, schedule, i) > 0)
    && forall i :: 0 <= i < |schedule| ==> schedule[i] > 0
  }

  lemma PositionsStep<A, T>(S: Setup<A, T>, seed: A, n0: nat, schedule: seq<nat>, sizes: seq<nat>, q: nat, ell: nat)
    requires SizesPositive(n0, schedule, sizes) && n0 > 0 && ell < |schedule|
    ensures IndexStep(Positions(S, seed, n0, schedule, q), sizes, ell)
  {
  }

  method AllRefs<A, T>(S: Setup<A, T>, seed: A, n0: nat, schedule: seq<nat>, sizes: seq<nat>, r: nat)
    returns (refs: seq<seq<QueryRef>>, finals: seq<nat>)
    requires SizesPositive(n0, schedule, sizes) && n0 > 0
    ensures |refs| == |finals| == r && forall q :: 0 <= q < r ==>
      RefsAre(refs[q], finals[q], Positions(S, seed, n0, schedule, q), schedule)
  {
    refs, finals := [], [];
    for q := 0 to r
      invariant |refs| == |finals| == q
      invariant forall i :: 0 <= i < q ==> RefsAre(refs[i], finals[i], Positions(S, seed, n0, schedule, i), schedule)
    {
      forall ell: nat | ell < |schedule|
        ensures IndexStep(Positions(S, seed, n0, schedule, q), sizes, ell)
      {
        PositionsStep(S, seed, n0, schedule, sizes, q, ell);
      }
      var chain, final := QueryRefs(RawIndex(S, seed, q, n0), schedule, sizes, Positions(S, seed, n0, schedule, q));
      refs, finals := refs + [chain], finals + [final];
    }
  }

  /** The values opened in a layer. */
  function PayloadOf<T>(y: Layer<T>, i: nat): OpenPayload<T>
    requires i < |y.word| == |y.s| == |y.q|
  {
    OpenPayload(y.word[i], y.s[i], y.q[i])
  }

  ghost predicate LayerTree<A, T>(S: Setup<A, T>, n: nat, m: nat, ell: nat, y: Layer<T>) {
    n > 0 && |y.word| == |y.s| == |y.q| == n
        && y.msg.root == TreeRoot(S.hasher, m, ell, ClassicLeaves(S, y.word, y.s, y.q))
  }

  ghost predicate Reaches(refs: seq<seq<QueryRef>>, ell: nat, n: nat) {
    forall q :: 0 <= q < |refs| ==> ell < |refs[q]| && refs[q][ell].i < n
  }

  /** Every query's position in layer ell is opened. */
  ghost predicate ColumnOpened<A, T>(S: Setup<A, T>, cfg: MerkleChannelCfg, y: Layer<T>, ell: nat,
                                     refs: seq<seq<QueryRef>>, openings: seq<MerkleOpening>) {
    && |openings| == |refs| && |y.word| == |y.s| == |y.q| && Reaches(refs, ell, |y.word|)
    && forall q :: 0 <= q < |refs| ==> PayloadAt(S, cfg, y, refs[q][ell].i, openings[q])
  }

  method OpenColumn<A, T>(S: Setup<A, T>, n: nat, m: nat, ell: nat, y: Layer<T>, refs: seq<seq<QueryRef>>)
    returns (openings: seq<MerkleOpening>)
    requires LayerTree(S, n, m, ell, y) && Reaches(refs, ell, n)
    ensures ColumnOpened(S, TreeConfig(n, m, ell), y, ell, refs, openings)
  {
    var tree, _ := GrowTree(S.hasher, m, ell, ClassicLeaves(S, y.word, y.s, y.q));
    openings := OpenEach(S, n, m, ell, y, refs, tree);
  }

  method OpenEach<A, T>(S: Setup<A, T>, n: nat, m: nat, ell: nat, y: Layer<T>, refs: seq<seq<QueryRef>>,
                        tree: MerkleTreeChannel)
    returns (openings: seq<MerkleOpening>)
    requires LayerTree(S, n, m, ell, y) && Reaches(refs, ell, n)
    requires IsTreeOver(S.hasher, m, ell, ClassicLeaves(S, y.word, y.s, y.q), tree)
    ensures ColumnOpened(S, TreeConfig(n, m, ell), y, ell, refs, openings)
  {
    openings := [];
    ghost var due := (q: nat, o: MerkleOpening) =>
      q < |refs| && ell < |refs[q]| && PayloadAt(S, TreeConfig(n, m, ell), y, refs[q][ell].i, o);
    for q := 0 to |refs|
      invariant |openings| == q && forall i :: 0 <= i < q ==> due(i, openings[i])
    {
      var o := OpenOne(S, n, m, ell, y, tree, refs[q][ell].i);
      openings := openings + [o];
    }
  }

  ghost predicate PayloadAt<A, T>(S: Setup<A, T>, cfg: MerkleChannelCfg, y: Layer<T>, i: nat, o: MerkleOpening) {
    i < |y.word| == |y.s| == |y.q| && PayloadHonest(S, cfg, y, i, PayloadOf(y, i), o)
  }

  method OpenOne<A, T>(S: Setup<A, T>, n: nat, m: nat, ell: nat, y: Layer<T>, tree: MerkleTreeChannel, i: nat)
    returns (o: MerkleOpening)
    requires LayerTree(S, n, m, ell, y) && i < n
    requires IsTreeOver(S.hasher, m, ell, ClassicLeaves(S, y.word, y.s, y.q), tree)
    ensures PayloadAt(S, TreeConfig(n, m, ell), y, i, o)
  {
    o := OpenLeaf(S.hasher, m, ell, tree, ClassicLeaves(S, y.word, y.s, y.q), i);
  }

  ghost predicate ColumnAt<A, T>(S: Setup<A, T>, params: Params, n0: nat, layers: seq<Layer<T>>,
                                 refs: seq<seq<QueryRef>>, ell: nat, openings: seq<MerkleOpening>)
    requires |layers| == |params.schedule|
  {
    ell < |layers| && ColumnOpened(S, LayerConfig(params, n0, ell), layers[ell], ell, refs, openings)
  }

  ghost predicate LayerReady<A, T>(S: Setup<A, T>, params: Params, n0: nat, layers: seq<Layer<T>>,
                                   refs: seq<seq<QueryRef>>, ell: nat)
    requires ell < |layers| == |params.schedule|
  {
    && LayerTree(S, SizeAt(n0, params.schedule, ell), params.schedule[ell], ell, layers[ell])
    && Reaches(refs, ell, SizeAt(n0, params.schedule, ell))
  }

  /** The openings of every layer; `due` says which columns are in order. */
  method OpenColumns<A, T>(S: Setup<A, T>, params: Params, n0: nat, layers: seq<Layer<T>>, refs: seq<seq<QueryRef>>,
                           ghost due: (nat, seq<MerkleOpening>) -> bool)
    returns (columns: seq<seq<MerkleOpening>>)
    requires |layers| == |params.schedule| && ColumnsDue(S, params, n0, layers, refs, due)
    ensures |columns| == |layers| && forall ell :: 0 <= ell < |layers| ==> due(ell, columns[ell])
  {
    columns := [];
    for ell := 0 to |layers|
      invariant |columns| == ell && forall i :: 0 <= i < ell ==> due(i, columns[i])
    {
      var openings := OpenNext(S, params, n0, layers, refs, ell, due);
      columns := columns + [openings];
    }
  }

  ghost predicate ColumnsDue<A, T>(S: Setup<A, T>, params: Params, n0: nat, layers: seq<Layer<T>>,
                                   refs: seq<seq<QueryRef>>, due: (nat, seq<MerkleOpening>) -> bool)
    requires |layers| == |params.schedule|
  {
    && (forall ell {:trigger LayerReady(S, params, n0, layers, refs, ell)} :: 0 <= ell < |layers| ==>
      LayerReady(S, params, n0, layers, refs, ell))
    && forall ell, openings {:trigger ColumnAt(S, params, n0, layers, refs, ell, openings)} ::
         ColumnAt(S, params, n0, layers, refs, ell, openings) ==> due(ell, openings)
  }

  method OpenNext<A, T>(S: Setup<A, T>, params: Params, n0: nat, layers: seq<Layer<T>>, refs: seq<seq<QueryRef>>,
                        ell: nat, ghost due: (nat, seq<MerkleOpening>) -> bool)
    returns (openings: seq<MerkleOpening>)
    requires |layers| == |params.schedule| && ColumnsDue(S, params, n0, layers, refs, due) && ell < |layers|
    ensures due(ell, openings)
  {
    assert LayerReady(S, params, n0, layers, refs, ell);
    openings := OpenColumn(S, SizeAt(n0, params.schedule, ell), params.schedule[ell], ell, layers[ell], refs);
    assert ColumnAt(S, params, n0, layers, refs, ell, openings);
  }

  ghost predicate BaseOpened<A, T>(S: Setup<A, T>, f0: seq<A>, rootF0: Digest, i: nat, o: MerkleOpening) {
    i < |f0| && OpensTo(S.hasher, TreeConfig(|f0|, 16, F0_LABEL), rootF0, o, i, Encode(S, [f0[i]]))
  }

  /** Openings of the base-field word, one per query. */
  method OpenBase<A, T>(S: Setup<A, T>, f0: seq<A>, refs: seq<seq<QueryRef>>) returns (openings: seq<MerkleOpening>)
    requires f0 != [] && Reaches(refs, 0, |f0|)
    ensures |openings| == |refs|
    ensures forall q :: 0 <= q < |refs| ==>
      BaseOpened(S, f0, TreeRoot(S.hasher, 16, F0_LABEL, PlainLeaves(S, f0)), refs[q][0].i, openings[q])
  {
    var tree, root := GrowTree(S.hasher, 16, F0_LABEL, PlainLeaves(S, f0));
    openings := OpenBaseEach(S, f0, refs, tree);
  }

  method OpenBaseEach<A, T>(S: Setup<A, T>, f0: seq<A>, refs: seq<seq<QueryRef>>, tree: MerkleTreeChannel)
    returns (openings: seq<MerkleOpening>)
    requires f0 != [] && Reaches(refs, 0, |f0|) && IsTreeOver(S.hasher, 16, F0_LABEL, PlainLeaves(S, f0), tree)
    ensures |openings| == |refs|
    ensures forall q :: 0 <= q < |refs| ==>
      BaseOpened(S, f0, TreeRoot(S.hasher, 16, F0_LABEL, PlainLeaves(S, f0)), refs[q][0].i, openings[q])
  {
    openings := [];
    ghost var root := TreeRoot(S.hasher, 16, F0_LABEL, PlainLeaves(S, f0));
    for q := 0 to |refs|
      invariant |openings| == q && forall i :: 0 <= i < q ==> BaseOpened(S, f0, root, refs[i][0].i, openings[i])
    {
      var o := OpenLeaf(S.hasher, 16, F0_LABEL, tree, PlainLeaves(S, f0), refs[q][0].i);
      openings := openings + [o];
    }
  }

  /** The values a query opens, layer by layer. */
  method PayloadsOf<T>(layers: seq<Layer<T>>, refs: seq<QueryRef>) returns (payloads: seq<OpenPayload<T>>)
    requires |refs| == |layers| && forall ell :: 0 <= ell < |layers| ==>
      refs[ell].i < |layers[ell].word| == |layers[ell].s| == |layers[ell].q|
    ensures |payloads| == |layers| && forall ell :: 0 <= ell < |layers| ==>
      payloads[ell] == PayloadOf(layers[ell], refs[ell].i)
  {
    payloads := [];
    for ell := 0 to |layers|
      invariant |payloads| == ell && forall i :: 0 <= i < ell ==> payloads[i] == PayloadOf(layers[i], refs[i].i)
    {
      payloads := payloads + [PayloadOf(layers[ell], refs[ell].i)];
    }
  }

  function Row(columns: seq<seq<MerkleOpening>>, q: nat): (row: seq<MerkleOpening>)
    requires forall ell :: 0 <= ell < |columns| ==> q < |columns[ell]|
    ensures |row| == |columns|
  {
    seq(|columns|, ell requires 0 <= ell < |columns| => columns[ell][q])
  }

  /** The queries' positions, layer by layer, follow the seed and stay inside the layers. */
  ghost predicate RefsFollow<A, T>(S: Setup<A, T>, seed: A, n0: nat, schedule: seq<nat>, refs: seq<seq<QueryRef>>,
                                   finals: seq<nat>)
    requires n0 > 0
  {
    |refs| == |finals| && forall q :: 0 <= q < |refs| ==>
      RefsAre(refs[q], finals[q], Positions(S, seed, n0, schedule, q), schedule)
  }

  lemma PositionsInside<A, T>(S: Setup<A, T>, seed: A, n0: nat, schedule: seq<nat>, refs: seq<seq<QueryRef>>,
                              finals: seq<nat>, ell: nat)
    requires n0 > 0 && RefsFollow(S, seed, n0, schedule, refs, finals) && ell < |schedule|
    requires SizeAt(n0, schedule, ell) > 0
    ensures Reaches(refs, ell, SizeAt(n0, schedule, ell))
  {
    var n := SizeAt(n0, schedule, ell);
    forall q: nat | q < |refs|
      ensures ell < |refs[q]| && refs[q][ell].i < n
    {
      assert RefsAre(refs[q], finals[q], Positions(S, seed, n0, schedule, q), schedule);
      assert RefIs(refs[q][ell], Positions(S, seed, n0, schedule, q), ell, schedule[ell]);
      IndexBelow(RawIndex(S, seed, q, n0), n0, schedule, ell);
    }
  }

  lemma ReadyAt<A, T>(S: Setup<A, T>, params: Params, f0: seq<A>, run: Run<T>, seed: A, refs: seq<seq<QueryRef>>,
                      finals: seq<nat>, ell: nat)
    requires !params.stir && |f0| > 0 && ell < |params.schedule| == |run.layers| == |run.c.msgs|
    requires LayerOfRun(S, params, f0, run, ell)
    requires RefsFollow(S, seed, |f0|, params.schedule, refs, finals) && SizeAt(|f0|, params.schedule, ell) > 0
    ensures LayerReady(S, params, |f0|, run.layers, refs, ell)
  {
    PositionsInside(S, seed, |f0|, params.schedule, refs, finals, ell);
  }

  lemma SizesOfGood(n0: nat, schedule: seq<nat>, sizes: seq<nat>)
    requires GoodSchedule(n0, schedule)
    requires |sizes| == |schedule| + 1 && forall ell :: 0 <= ell <= |schedule| ==>
      sizes[ell] == SizeAt(n0, schedule, ell)
    ensures SizesPositive(n0, schedule, sizes) && n0 > 0
  {
    SizesStayPositive(n0, schedule);
    FactorsPositive(n0, schedule);
  }

  /** What the query phase opens. */
  ghost predicate PhaseOpened<A, T>(S: Setup<A, T>, params: Params, f0: seq<A>, run: Run<T>, seed: A,
                                    refs: seq<seq<QueryRef>>, finals: seq<nat>, base: seq<MerkleOpening>,
                                    columns: seq<seq<MerkleOpening>>)
    requires |f0| > 0 && |run.layers| == |params.schedule|
  {
    && |refs| == |base| == params.r && |columns| == |params.schedule|
    && RefsFollow(S, seed, |f0|, params.schedule, refs, finals)
    && (forall ell :: 0 <= ell < |columns| ==> ColumnAt(S, params, |f0|, run.layers, refs, ell, columns[ell]))
    && forall q :: 0 <= q < |refs| ==> |refs[q]| > 0 && BaseOpened(S, f0, run.c.rootF0, refs[q][0].i, base[q])
  }

  /** `fri_prove_queries` */
  method FriProveQueries<A, T>(S: Setup<A, T>, params: Params, f0: seq<A>, run: Run<T>, seed: A)
    returns (refs: seq<seq<QueryRef>>, finals: seq<nat>, base: seq<MerkleOpening>, columns: seq<seq<MerkleOpening>>)
    requires !params.stir && HonestLayers(S, params, f0, run)
    ensures |f0| > 0 && PhaseOpened(S, params, f0, run, seed, refs, finals, base, columns)
  {
    var n0 := |f0|;
    FactorsPositive(n0, params.schedule);
    GoodIsFit(n0, params.schedule);
    var divides, sizes := LayerSizesFromSchedule(n0, params.schedule);
    SizesOfGood(n0, params.schedule, sizes);
    refs, finals := AllRefs(S, seed, n0, params.schedule, sizes, params.r);
    PositionsInside(S, seed, n0, params.schedule, refs, finals, 0);
    base := OpenBase(S, f0, refs);
    ghost var due := (ell: nat, openings: seq<MerkleOpening>) =>
        ColumnAt(S, params, n0, run.layers, refs, ell, openings);
    AllReady(S, params, f0, run, seed, refs, finals, sizes);
    columns := OpenColumns(S, params, n0, run.layers, refs, due);
  }

  lemma AllReady<A, T>(S: Setup<A, T>, params: Params, f0: seq<A>, run: Run<T>, seed: A, refs: seq<seq<QueryRef>>,
                       finals: seq<nat>, sizes: seq<nat>)
    requires !params.stir && HonestLayers(S, params, f0, run) && |f0| > 0 && SizesPositive(|f0|, params.schedule, sizes)
    requires RefsFollow(S, seed, |f0|, params.schedule, refs, finals)
    ensures forall ell {:trigger LayerReady(S, params, |f0|, run.layers, refs, ell)} :: 0 <= ell < |run.layers| ==>
      LayerReady(S, params, |f0|, run.layers, refs, ell)
  {
    forall ell: nat | ell < |run.layers|
      ensures LayerReady(S, params, |f0|, run.layers, refs, ell)
    {
      assert sizes[ell] == SizeAt(|f0|, params.schedule, ell) > 0;
      assert LayerOfRun(S, params, f0, run, ell);
      ReadyAt(S, params, f0, run, seed, refs, finals, ell);
    }
  }

  /** The payloads of all queries. */
  method GatherQueries<T>(layers: seq<Layer<T>>, refs: seq<seq<QueryRef>>, finals: seq<nat>, base: seq<MerkleOpening>)
    returns (queries: seq<QueryPayload<T>>)
    requires |refs| == |finals| == |base|
    requires forall q :: 0 <= q < |refs| ==> CanOpen(layers, refs[q])
    ensures |queries| == |refs| && forall q :: 0 <= q < |refs| ==>
      Gathered(layers, refs[q], finals[q], base[q], queries[q])
  {
    queries := [];
    for q := 0 to |refs|
      invariant |queries| == q && forall i :: 0 <= i < q ==> Gathered(layers, refs[i], finals[i], base[i], queries[i])
    {
      assert CanOpen(layers, refs[q]);
      var payloads := PayloadsOf(layers, refs[q]);
      queries := queries + [QueryPayload(refs[q], payloads, base[q], finals[q])];
    }
  }

  ghost predicate CanOpen<T>(layers: seq<Layer<T>>, refs: seq<QueryRef>) {
    |refs| == |layers| && forall ell :: 0 <= ell < |layers| ==>
      refs[ell].i < |layers[ell].word| == |layers[ell].s| == |layers[ell].q|
  }

  ghost predicate Gathered<T>(layers: seq<Layer<T>>, refs: seq<QueryRef>, finalIndex: nat, base: MerkleOpening,
                              qp: QueryPayload<T>) {
    && CanOpen(layers, refs) && qp.refs == refs && qp.finalIndex == finalIndex && qp.f0Opening == base
    && |qp.payloads| == |layers|
    && forall ell :: 0 <= ell < |layers| ==> qp.payloads[ell] == PayloadOf(layers[ell], refs[ell].i)
  }

  // ---------- the proof ----------

  lemma RowHonest<A, T>(S: Setup<A, T>, params: Params, f0: seq<A>, run: Run<T>, seed: A, refs: seq<seq<QueryRef>>,
                        finals: seq<nat>,
                        base: seq<MerkleOpening>, columns: seq<seq<MerkleOpening>>, q: nat, qp: QueryPayload<T>,
                        row: seq<MerkleOpening>)
    requires |f0| > 0 && |run.layers| == |params.schedule| > 0
    requires PhaseOpened(S, params, f0, run, seed, refs, finals, base, columns)
    requires q < |refs| && Gathered(run.layers, refs[q], finals[q], base[q], qp)
    requires |row| == |columns| && forall ell :: 0 <= ell < |columns| ==>
      q < |columns[ell]| && row[ell] == columns[ell][q]
    ensures ClassicHonest(S, params, f0, run, RawIndex(S, seed, q, |f0|), qp, row)
  {
    var raw, index := RawIndex(S, seed, q, |f0|), Positions(S, seed, |f0|, params.schedule, q);
    assert RefsAre(refs[q], finals[q], index, params.schedule);
    forall ell: nat | ell < |params.schedule|
      ensures qp.refs[ell].i == IndexAt(raw, |f0|, params.schedule, ell)
      ensures PayloadHonest(S, LayerConfig(params, |f0|, ell), run.layers[ell], qp.refs[ell].i, qp.payloads[ell],
                            row[ell])
    {
      assert RefIs(refs[q][ell], index, ell, params.schedule[ell]);
      assert ColumnAt(S, params, |f0|, run.layers, refs, ell, columns[ell]);
      assert PayloadAt(S, LayerConfig(params, |f0|, ell), run.layers[ell], refs[q][ell].i, columns[ell][q]);
    }
    assert BaseOpened(S, f0, run.c.rootF0, refs[q][0].i, base[q]);
    RefsArePlaced(refs[q], finals[q], index, params.schedule, qp);
  }

  lemma RefsArePlaced<T>(refs: seq<QueryRef>, finalIndex: nat, index: nat -> nat, schedule: seq<nat>,
                         qp: QueryPayload<T>)
    requires RefsAre(refs, finalIndex, index, schedule) && qp.refs == refs && qp.finalIndex == finalIndex
    ensures RefsPlaced(qp, schedule)
  {
    forall ell: nat | ell < |schedule|
      ensures RefPlaced(qp, schedule, ell)
    {
      assert RefIs(refs[ell], index, ell, schedule[ell]);
      assert ell + 1 < |schedule| ==> RefIs(refs[ell + 1], index, ell + 1, schedule[ell + 1]);
      RemainderLeaves(index(ell), schedule[ell]);
    }
  }

  lemma RemainderLeaves(i: nat, m: nat)
    requires m > 0
    ensures Rem(i, m) <= i && Divides(m, i - Rem(i, m))
  {
    BlockOf(i, m, Quot(i, m) * m);
    MultipleDivides(Quot(i, m), m);
    assert i - Rem(i, m) == Quot(i, m) * m;
  }

  lemma QueriesCanOpen<A, T>(S: Setup<A, T>, params: Params, f0: seq<A>, run: Run<T>, seed: A, refs: seq<seq<QueryRef>>,
                             finals: seq<nat>, base: seq<MerkleOpening>, columns: seq<seq<MerkleOpening>>, q: nat)
    requires |f0| > 0 && |run.layers| == |params.schedule| > 0
    requires PhaseOpened(S, params, f0, run, seed, refs, finals, base, columns) && q < |refs|
    ensures CanOpen(run.layers, refs[q])
    ensures forall ell :: 0 <= ell < |columns| ==> q < |columns[ell]|
  {
    assert RefsAre(refs[q], finals[q], Positions(S, seed, |f0|, params.schedule, q), params.schedule);
    forall ell: nat | ell < |params.schedule|
      ensures refs[q][ell].i < |run.layers[ell].word| == |run.layers[ell].s| == |run.layers[ell].q|
      ensures q < |columns[ell]|
    {
      assert ColumnAt(S, params, |f0|, run.layers, refs, ell, columns[ell]);
    }
  }

  /** All classic payloads and openings. */
  method ProveClassic<A, T>(S: Setup<A, T>, params: Params, f0: seq<A>, run: Run<T>, seed: A)
    returns (queries: seq<QueryPayload<T>>, columns: seq<seq<MerkleOpening>>)
    requires !params.stir && HonestLayers(S, params, f0, run)
    ensures |queries| == params.r && |columns| == |params.schedule| == |run.layers| && |f0| > 0
    ensures forall q :: 0 <= q < params.r ==>
      && RowFits(columns, q)
      && ClassicHonest(S, params, f0, run, RawIndex(S, seed, q, |f0|), queries[q], Row(columns, q))
    ensures forall q :: 0 <= q < params.r ==> ClassicSeated(S, seed, |f0|, params.schedule, q, queries[q])
  {
    var refs, finals, base;
    refs, finals, base, columns := FriProveQueries(S, params, f0, run, seed);
    ghost var done := (q: nat) => q < |refs| && CanOpen(run.layers, refs[q]) && RowFits(columns, q);
    forall q: nat | q < |refs|
      ensures CanOpen(run.layers, refs[q]) && RowFits(columns, q)
    {
      QueriesCanOpen(S, params, f0, run, seed, refs, finals, base, columns, q);
    }
    queries := GatherQueries(run.layers, refs, finals, base);
    forall q: nat | q < |refs|
      ensures ClassicHonest(S, params, f0, run, RawIndex(S, seed, q, |f0|), queries[q], Row(columns, q))
    {
      RowHonest(S, params, f0, run, seed, refs, finals, base, columns, q, queries[q], Row(columns, q));
    }
    forall q: nat | q < params.r
      ensures ClassicSeated(S, seed, |f0|, params.schedule, q, queries[q])
    {
      ClassicHonestSeated(S, params, f0, run, seed, q, queries[q], Row(columns, q));
    }
  }

  ghost predicate RowFits(columns: seq<seq<MerkleOpening>>, q: nat) {
    forall ell :: 0 <= ell < |columns| ==> q < |columns[ell]|
  }

  /** What the STIR queries need from the run. */
  lemma StirFacts<A, T>(S: Setup<A, T>, params: Params, f0: seq<A>, run: Run<T>, m: nat, half: nat)
    requires params.stir && HonestLayers(S, params, f0, run) && m == params.schedule[0]
    requires half == SizeAt(|f0|, params.schedule, 1)
    ensures |f0| == m * half && |f0| > 0 && half > 0
    ensures run.c.rootF0 == TreeRoot(S.hasher, 16, F0_LABEL, PackedLeaves(S, f0, m, half))
    ensures SecondFits(S, half, SecondOf(params, run))
  {
    assert LayerFits(|f0|, params.schedule, 0);
    if |params.schedule| >= 2 {
      assert LayerOfRun(S, params, f0, run, 1);
    }
  }

  ghost predicate SecondFits<A, T>(S: Setup<A, T>, half: nat, second: Option<SecondLayer<T>>) {
    second.Some? ==>
      && |second.value.word| == half
      && second.value.root == TreeRoot(S.hasher, second.value.arity, 1, StirLeaves(S, second.value.word))
  }

  function OodOf<T>(layers: seq<Layer<T>>): seq<seq<T>> {
    seq(|layers|, i requires 0 <= i < |layers| => layers[i].msg.ood)
  }

  function RootsOf<T>(layers: seq<Layer<T>>): seq<Digest> {
    seq(|layers|, i requires 0 <= i < |layers| => layers[i].msg.root)
  }

  /** The proof record. */
  function ProofOf<A, T>(params: Params, run: Run<T>, zero: T, queries: seq<QueryPayload<T>>,
                         columns: seq<seq<MerkleOpening>>, stirQueries: Option<seq<StirPayload<A, T>>>): Proof<A, T> {
    var firsts := seq(|run.layers|, i requires 0 <= i < |run.layers| => if run.layers[i].msg.ood == [] then zero
                      else run.layers[i].msg.ood[0]);
    Proof(run.c.rootF0, RootsOf(run.layers), columns, queries, firsts, run.c.final, run.c.n0,
          if params.UsesCommit() then Some(run.tuples) else None, if params.UsesCommit() then Some(run.c.coeffRoot)
              else None,
          if params.stir then Some(OodOf(run.layers)) else None, stirQueries)
  }

  /** The messages the verifier will read off the proof. */
  ghost predicate MsgFits<T>(params: Params, run: Run<T>, ell: nat)
    requires ell < |params.schedule| == |run.layers| == |run.c.msgs|
  {
    && |run.layers[ell].msg.ood| == (if params.stir then params.schedule[ell] else 1)
    && IsPowerOfTwo(|run.layers[ell].msg.ood|) && run.layers[ell].msg == run.c.msgs[ell]
  }

  lemma MsgOfRun<A, T>(S: Setup<A, T>, params: Params, f0: seq<A>, run: Run<T>, ell: nat)
    requires HonestLayers(S, params, f0, run) && ell < |params.schedule|
    ensures MsgFits(params, run, ell)
  {
    assert LayerOfRun(S, params, f0, run, ell) && LayerFits(|f0|, params.schedule, ell);
  }

  lemma ProofCommits<A, T>(params: Params, run: Run<T>, proof: Proof<A, T>, zero: T)
    requires |params.schedule| == |run.layers| == |run.c.msgs| && (!params.UsesCommit() ==> run.c.coeffRoot == [])
    requires forall ell :: 0 <= ell < |params.schedule| ==> MsgFits(params, run, ell)
    requires proof == ProofOf(params, run, zero, proof.queries, proof.layerOpenings, proof.stirProximityQueries)
    ensures CommitmentsFit(params, proof) && CommitmentsOf(params, proof) == run.c
  {
    forall ell: nat | ell < |params.schedule|
      ensures MsgFits(params, run, ell) && proof.roots[ell] == run.c.msgs[ell].root
      ensures if params.stir then proof.stirCosetEvals.value[ell] == run.c.msgs[ell].ood
              else [proof.fzPerLayer[ell]] == run.c.msgs[ell].ood
    {
    }
    assert CommitmentsFit(params, proof);
    assert CommitmentsOf(params, proof).msgs == run.c.msgs;
  }

  /** Adding the final coefficients does not disturb the layers: no challenge they use depends on them. */
  lemma WithFinal<A, T>(S: Setup<A, T>, params: Params, f0: seq<A>, run: Run<T>, final: seq<T>)
    requires HonestLayers(S, params, f0, run)
    ensures HonestLayers(S, params, f0, run.(c := run.c.(final := final)))
  {
    var more := run.(c := run.c.(final := final));
    forall ell: nat | ell < |params.schedule|
      ensures LayerOfRun(S, params, f0, more, ell)
    {
      assert LayerOfRun(S, params, f0, run, ell);
    }
  }

  lemma LastWord<A(!new), T(!new)>(S: Setup<A, T>, params: Params, f0: seq<A>, run: Run<T>, end: nat)
    requires ValidSetup(S) && HonestLayers(S, params, f0, run) && end == |params.schedule| == |run.layers| > 0
    ensures
      var n := SizeAt(|f0|, params.schedule, end);
      ValidDomain(S.k.ring, S.domains(n)) && |run.layers[end - 1].next| == n == S.domains(n).size
  {
    var last := end - 1;
    assert LayerFits(|f0|, params.schedule, last) && LayerOfRun(S, params, f0, run, last);
    assert DomainFits(S, SizeAt(|f0|, params.schedule, end));
  }

  /** The run with its final coefficients. */
  method BuildRun<A(!new), T(!new, ==)>(S: Setup<A, T>, params: Params, f0: seq<A>) returns (run: Run<T>)
    requires ValidSetup(S) && GoodSchedule(|f0|, params.schedule) && ChallengeFits(S, params, f0)
    ensures HonestRun(S, params, f0, run)
  {
    var built := FriBuildTranscript(S, params, f0);
    var end := |params.schedule|;
    var n := SizeAt(|f0|, params.schedule, end);
    LastWord(S, params, f0, built, end);
    assert DomainEmbeds(S, n);
    var final := FinalPolynomial(S.k.ring, BasisOf(S), S.groundDomains(n), S.domains(n), built.layers[end - 1].next,
                                 params.dFinal);
    WithFinal(S, params, f0, built, final);
    run := built.(c := built.c.(final := final));
  }

  lemma ProofIsHonest<A, T>(S: Setup<A, T>, params: Params, f0: seq<A>, run: Run<T>, proof: Proof<A, T>, zero: T)
    requires HonestRun(S, params, f0, run) && QueriesHonest(S, params, f0, run, proof)
    requires proof == ProofOf(params, run, zero, proof.queries, proof.layerOpenings, proof.stirProximityQueries)
    ensures HonestProof(S, params, f0, run, proof)
  {
    forall ell: nat | ell < |params.schedule|
      ensures MsgFits(params, run, ell)
    {
      MsgOfRun(S, params, f0, run, ell);
    }
    ProofCommits(params, run, proof, zero);
  }

  /** `deep_fri_prove` */
  method DeepFriProve<A(!new), T(!new, ==)>(S: Setup<A, T>, params: Params, f0: seq<A>)
    returns (proof: Proof<A, T>, ghost run: Run<T>)
    requires ValidSetup(S) && GoodSchedule(|f0|, params.schedule) && ChallengeFits(S, params, f0)
    ensures HonestProof(S, params, f0, run, proof) && QueriesSeated(S, params, proof)
  {
    var st := BuildRun(S, params, f0);
    run := st;
    var seed := ReplaySeed(S, params, st.c);
    if params.stir {
      var m, half := params.schedule[0], SizeAt(|f0|, params.schedule, 1);
      StirFacts(S, params, f0, st, m, half);
      var payloads := StirProveProximityQueries(S, f0, m, half, st.c.rootF0, SecondOf(params, st), params.s0, seed);
      proof := ProofOf(params, st, S.k.ring.zero, [], [], Some(payloads));
    } else {
      var queries, columns := ProveClassic(S, params, f0, st, seed);
      proof := ProofOf(params, st, S.k.ring.zero, queries, columns, None);
      RowsOfProof(S, params, f0, st, seed, proof);
    }
    ProofIsHonest(S, params, f0, st, proof, S.k.ring.zero);
    HonestSeated(S, params, f0, st, proof);
  }

  lemma RowsOfProof<A, T>(S: Setup<A, T>, params: Params, f0: seq<A>, run: Run<T>, seed: A, proof: Proof<A, T>)
    requires !params.stir && RunShape(S, params, f0, run) && |f0| > 0 && seed == QuerySeed(S, params, run.c)
    requires |proof.queries| == params.r && |proof.layerOpenings| == |params.schedule| == |run.layers|
    requires forall q :: 0 <= q < params.r ==>
      RowFits(proof.layerOpenings, q)
          && ClassicHonest(S, params, f0, run, RawIndex(S, seed, q, |f0|), proof.queries[q],
                           Row(proof.layerOpenings, q))
    ensures QueriesHonest(S, params, f0, run, proof)
  {
    forall q: nat | q < params.r
      ensures QueriesFit(params, proof, q) && OpeningsOf(params, proof, q) == Row(proof.layerOpenings, q)
    {
      assert RowFits(proof.layerOpenings, q);
    }
  }
}
