/** What acceptance says about committed words, honest or not: when the roots are those of trees over some words, every
    accepted query finds the protocol's relations on those words, or its openings exhibit two different hash inputs
    with one digest. */
module FriSoundness {
  import opened Arith
  import opened Rings
  import opened Polynomials
  import opened Folding
  import opened Domains
  import opened FriLayers
  import opened Hashing
  import opened Merkle
  import opened MerkleReads
  import opened FriSetup
  import opened FriProtocol
  import opened FriAcceptance
  import opened FriBinding
  import opened FriLeaves
  import opened FriVerifier
  import opened FriCompleteness

  // ---------- one opening ----------

  /** The opening and the tree over these leaves hash different inputs to one digest. */
  ghost predicate Broken(h: Hasher, requested: nat, treeLabel: nat, leaves: seq<seq<Byte>>, o: MerkleOpening,
                         v: seq<Byte>) {
    var cfg := TreeConfig(|leaves|, requested, treeLabel);
    && leaves != [] && Covers(cfg.layerArities, 0, |leaves|)
    && PathFits(cfg, o.path) && EnoughSiblings(cfg, o.path, |o.path|)
    && var (x, y) := ReadCollision(h, cfg, leaves, o, v);
       Collision(h, x, y)
  }

  /** A leaf check against a tree's root reads the tree's leaf. */
  lemma OpensToReads(h: Hasher, requested: nat, treeLabel: nat, leaves: seq<seq<Byte>>, o: MerkleOpening, index: nat,
                     v: seq<Byte>)
    requires FixedLength(h) && WellSized(h, o) && 0 < |leaves| <= MAX_DOMAIN
    requires OpensTo(h, TreeConfig(|leaves|, requested, treeLabel), TreeRoot(h, requested, treeLabel, leaves), o, index,
                     v)
    ensures Broken(h, requested, treeLabel, leaves, o, v) || (index < |leaves| && leaves[index] == v)
  {
    var cfg := TreeConfig(|leaves|, requested, treeLabel);
    TreeConfigCovers(|leaves|, requested, treeLabel);
    assert |cfg.layerArities| <= 32 by {
      MaxDomainIsPower();
      DepthBound(|leaves|, TreeArity(|leaves|, requested), 32);
    }
    LeafCheckReads(h, cfg, leaves, o, v);
  }

  // ---------- committed words ----------

  /** What is asked of setup and hash: elements are told apart in the leaves, digests have one length. */
  ghost predicate SoundSetup<A(!new), T(!new)>(S: Setup<A, T>, len: nat) {
    ValidSetup(S) && Serializes(S, len) && FixedLength(S.hasher)
  }

  /** The proof's first root is that of a tree over f0. */
  ghost predicate FirstCommits<A, T>(S: Setup<A, T>, params: Params, proof: Proof<A, T>, f0: seq<A>) {
    && GoodSchedule(|f0|, params.schedule) && proof.n0 == |f0| && proof.rootF0 == F0Commitment(S, params, f0)
  }

  /** The second layer's root is that of a tree over this word. */
  ghost predicate SecondCommits<A, T>(S: Setup<A, T>, params: Params, proof: Proof<A, T>, word: seq<T>) {
    |params.schedule| >= 2 ==>
      && |word| == SizeAt(proof.n0, params.schedule, 1) && |proof.roots| >= 2
      && proof.roots[1] == TreeRoot(S.hasher, params.schedule[1], 1, StirLeaves(S, word))
  }

  // ---------- STIR queries ----------

  ghost predicate StirSized<A, T>(h: Hasher, pq: StirPayload<A, T>) {
    && WellSized(h, pq.f0PackedOpening) && (pq.layer1Opening.Some? ==> WellSized(h, pq.layer1Opening.value))
  }

  /** One of the query's openings collides with its tree. */
  ghost predicate StirBroken<A, T>(S: Setup<A, T>, params: Params, f0: seq<A>, word: seq<T>, pq: StirPayload<A, T>)
    requires GoodSchedule(|f0|, params.schedule)
  {
    assert LayerFits(|f0|, params.schedule, 0);
    var (m, half) := (params.schedule[0], SizeAt(|f0|, params.schedule, 1));
    || Broken(S.hasher, 16, F0_LABEL, PackedLeaves(S, f0, m, half), pq.f0PackedOpening, Encode(S, pq.fiberFVals))
    || (|params.schedule| >= 2 && pq.layer1Opening.Some?
        && Broken(S.hasher, params.schedule[1], 1, StirLeaves(S, word), pq.layer1Opening.value,
                  StirLeaf(S, pq.fNextVal)))
  }

  lemma FibreReads<A(!new), T(!new)>(S: Setup<A, T>, f0: seq<A>, m: nat, half: nat, raw: nat, pq: StirPayload<A, T>,
                                     len: nat)
    requires SoundSetup(S, len) && StirSized(S.hasher, pq) && |f0| == m * half && 0 < half <= MAX_DOMAIN
    requires FibreOk(S, TreeRoot(S.hasher, 16, F0_LABEL, PackedLeaves(S, f0, m, half)), m, half, raw, pq)
    ensures
      || Broken(S.hasher, 16, F0_LABEL, PackedLeaves(S, f0, m, half), pq.f0PackedOpening, Encode(S, pq.fiberFVals))
      || pq.fiberFVals == Fibre(f0, m, half, Rem(raw, half))
  {
    var (leaves, b) := (PackedLeaves(S, f0, m, half), Rem(raw, half));
    OpensToReads(S.hasher, 16, F0_LABEL, leaves, pq.f0PackedOpening, b, Encode(S, pq.fiberFVals));
    EncodeBinds(S, pq.fiberFVals, Fibre(f0, m, half, b), len);
  }

  lemma NextReads<A(!new), T(!new)>(S: Setup<A, T>, arity: nat, word: seq<T>, o: MerkleOpening, b: nat, v: T, len: nat)
    requires SoundSetup(S, len) && WellSized(S.hasher, o) && b < |word| <= MAX_DOMAIN
    requires OpensTo(S.hasher, TreeConfig(|word|, arity, 1), TreeRoot(S.hasher, arity, 1, StirLeaves(S, word)), o, b,
                     StirLeaf(S, v))
    ensures Broken(S.hasher, arity, 1, StirLeaves(S, word), o, StirLeaf(S, v)) || v == word[b]
  {
    OpensToReads(S.hasher, arity, 1, StirLeaves(S, word), o, b, StirLeaf(S, v));
    StirLeafBinds(S, v, word[b], len);
  }

  /** The fold of the committed first word at the verifier's challenge. */
  function FirstFolded<A, T>(S: Setup<A, T>, params: Params, c: Commitments<T>, f0: seq<A>): seq<T>
    requires GoodSchedule(|f0|, params.schedule) && c.msgs != []
  {
    assert LayerFits(|f0|, params.schedule, 0);
    FoldedWord(S.k, S.domains(|f0|), Image(S.emb, f0), params.schedule[0], SizeAt(|f0|, params.schedule, 1),
               AlphaAt(S, params, c, 0))
  }

  /** What the folded word is compared with: the committed second word, or the final polynomial's values. */
  function ComparedWith<A, T>(S: Setup<A, T>, params: Params, c: Commitments<T>, word: seq<T>, b: nat): T {
    if b < |word| && |params.schedule| >= 2 then word[b]
    else FinalAt(S, SizeAt(c.n0, params.schedule, |params.schedule|), c.final, b)
  }

  lemma AcceptedStir<A, T>(S: Setup<A, T>, params: Params, proof: Proof<A, T>, qi: nat)
    requires Accepts(S, params, proof) && params.stir && qi < params.s0
    ensures proof.n0 > 0 && CommitmentsFit(params, proof) && qi < |proof.stirProximityQueries.value|
    ensures
      var x := ContextOf(S, params, CommitmentsOf(params, proof), proof.coeffTuples);
      ContextFits(x) && StirQueryOk(S, x, qi, proof.stirProximityQueries.value[qi])
  {
    CommitmentsShape(S, params, proof);
  }

  lemma FirstSizes<A(!new), T(!new)>(S: Setup<A, T>, schedule: seq<nat>, n0: nat)
    requires ValidSetup(S) && GoodSchedule(n0, schedule)
    ensures
      var (m, half) := (schedule[0], SizeAt(n0, schedule, 1));
      && n0 == m * half && 0 < half <= n0 <= MAX_DOMAIN && IsPowerOfTwo(m) && IsPowerOfTwo(half)
      && ValidDomain(S.k.ring, S.domains(n0)) && S.domains(n0).size == n0
  {
    assert LayerFits(n0, schedule, 0);
    assert DomainFits(S, n0);
    SizesStayPositive(n0, schedule);
  }

  /** An accepted STIR query finds, at the position the seed gives it, the fold of the committed first word equal to
      the committed second word, or to the final polynomial: otherwise an opening collides with its tree. */
  lemma StirQuerySound<A(!new), T(!new)>(S: Setup<A, T>, params: Params, proof: Proof<A, T>, f0: seq<A>, word: seq<T>,
                                         qi: nat, len: nat)
    requires SoundSetup(S, len) && Accepts(S, params, proof) && params.stir && qi < params.s0
    requires FirstCommits(S, params, proof, f0) && SecondCommits(S, params, proof, word)
    requires StirSized(S.hasher, proof.stirProximityQueries.value[qi])
    ensures
      var (pq, c) := (proof.stirProximityQueries.value[qi], CommitmentsOf(params, proof));
      || StirBroken(S, params, f0, word, pq)
      || (pq.baseIndex < |FirstFolded(S, params, c, f0)|
          && FirstFolded(S, params, c, f0)[pq.baseIndex] == ComparedWith(S, params, c, word, pq.baseIndex))
  {
    AcceptedStir(S, params, proof, qi);
    var (pq, c) := (proof.stirProximityQueries.value[qi], CommitmentsOf(params, proof));
    var (m, half) := (params.schedule[0], SizeAt(|f0|, params.schedule, 1));
    FirstSizes(S, params.schedule, |f0|);
    var x := ContextOf(S, params, c, proof.coeffTuples);
    var raw := RawIndex(S, x.seed, qi, x.n0);
    if !StirBroken(S, params, f0, word, pq) {
      FibreReads(S, f0, m, half, raw, pq, len);
      FibreFolds(S, f0, m, half, AlphaAt(S, params, c, 0), pq.baseIndex);
      if |params.schedule| >= 2 {
        assert c.msgs[1] == MsgOf(params, proof, 1);
        NextReads(S, params.schedule[1], word, pq.layer1Opening.value, pq.baseIndex, pq.fNextVal, len);
      }
    }
  }

  // ---------- all STIR queries ----------

  ghost predicate Reached<A, T>(queries: seq<StirPayload<A, T>>, b: nat) {
    exists qi :: 0 <= qi < |queries| && queries[qi].baseIndex == b
  }

  ghost predicate NoneBroken<A, T>(S: Setup<A, T>, params: Params, f0: seq<A>, word: seq<T>,
                                   queries: seq<StirPayload<A, T>>)
    requires GoodSchedule(|f0|, params.schedule)
  {
    forall qi :: 0 <= qi < |queries| ==>
      StirSized(S.hasher, queries[qi]) && !StirBroken(S, params, f0, word, queries[qi])
  }

  /** The word the fold is compared with, as a whole. */
  function ComparedWord<A, T>(S: Setup<A, T>, params: Params, c: Commitments<T>, word: seq<T>, half: nat): seq<T> {
    if |params.schedule| >= 2 then word else Codeword(S.k.ring, c.final, S.domains(half).gen, half)
  }

  lemma AcceptedCounts<A, T>(S: Setup<A, T>, params: Params, proof: Proof<A, T>)
    requires Accepts(S, params, proof) && params.stir && proof.n0 > 0
    ensures CommitmentsFit(params, proof) && proof.stirProximityQueries.Some?
    ensures |proof.stirProximityQueries.value| == params.s0 && |proof.finalPolyCoeffs| == params.dFinal
  {
    CommitmentsShape(S, params, proof);
  }

  lemma ComparedAt<A, T>(S: Setup<A, T>, params: Params, c: Commitments<T>, word: seq<T>, half: nat, b: nat)
    requires b < half && params.schedule != [] && half == SizeAt(c.n0, params.schedule, 1)
    requires |params.schedule| >= 2 ==> |word| == half
    ensures |ComparedWord(S, params, c, word, half)| == half
    ensures ComparedWord(S, params, c, word, half)[b] == ComparedWith(S, params, c, word, b)
  {
  }

  lemma FibreSoundAt<A(!new), T(!new)>(S: Setup<A, T>, params: Params, proof: Proof<A, T>, f0: seq<A>, word: seq<T>,
                                       b: nat, len: nat)
    requires SoundSetup(S, len) && Accepts(S, params, proof) && params.stir
    requires FirstCommits(S, params, proof, f0) && SecondCommits(S, params, proof, word)
    requires proof.stirProximityQueries.Some? && Reached(proof.stirProximityQueries.value, b)
    requires NoneBroken(S, params, f0, word, proof.stirProximityQueries.value)
    ensures
      var c := CommitmentsOf(params, proof);
      b < |FirstFolded(S, params, c, f0)| && FirstFolded(S, params, c, f0)[b] == ComparedWith(S, params, c, word, b)
  {
    AcceptedCounts(S, params, proof);
    var qi: nat :| qi < |proof.stirProximityQueries.value| && proof.stirProximityQueries.value[qi].baseIndex == b;
    assert StirSized(S.hasher, proof.stirProximityQueries.value[qi]);
    StirQuerySound(S, params, proof, f0, word, qi, len);
  }

  lemma FoldedSize<A(!new), T(!new)>(S: Setup<A, T>, params: Params, c: Commitments<T>, f0: seq<A>)
    requires GoodSchedule(|f0|, params.schedule) && c.msgs != []
    ensures |FirstFolded(S, params, c, f0)| == SizeAt(|f0|, params.schedule, 1)
  {
  }

  /** Queries that reach every fibre leave no room: the committed second word is the fold of the committed first, and
      with a single layer the fold is the codeword of the dFinal coefficients sent. */
  lemma EveryFibreSound<A(!new), T(!new)>(S: Setup<A, T>, params: Params, proof: Proof<A, T>, f0: seq<A>, word: seq<T>,
                                          half: nat, len: nat)
    requires SoundSetup(S, len) && Accepts(S, params, proof) && params.stir
    requires FirstCommits(S, params, proof, f0) && SecondCommits(S, params, proof, word)
    requires half == SizeAt(|f0|, params.schedule, 1) && proof.stirProximityQueries.Some?
    requires forall b :: 0 <= b < half ==> Reached(proof.stirProximityQueries.value, b)
    requires NoneBroken(S, params, f0, word, proof.stirProximityQueries.value)
    ensures
      var c := CommitmentsOf(params, proof);
      |c.final| == params.dFinal && FirstFolded(S, params, c, f0) == ComparedWord(S, params, c, word, half)
  {
    FirstSizes(S, params.schedule, |f0|);
    AcceptedCounts(S, params, proof);
    var c := CommitmentsOf(params, proof);
    var (folded, compared) := (FirstFolded(S, params, c, f0), ComparedWord(S, params, c, word, half));
    FoldedSize(S, params, c, f0);
    forall b: nat | b < half
      ensures |compared| == |folded| && folded[b] == compared[b]
    {
      FibreSoundAt(S, params, proof, f0, word, b, len);
      ComparedAt(S, params, c, word, half, b);
    }
    ComparedAt(S, params, c, word, half, 0);
    assert folded == compared;
  }

  // ---------- classic queries ----------

  /** Values, fold values and quotients of one committed layer. */
  datatype Table<T> = Table(word: seq<T>, s: seq<T>, q: seq<T>)

  ghost predicate LayerCommits<A, T>(S: Setup<A, T>, params: Params, proof: Proof<A, T>, y: Table<T>, ell: nat)
    requires ell < |params.schedule|
  {
    && |y.word| == |y.s| == |y.q| == SizeAt(proof.n0, params.schedule, ell) && ell < |proof.roots|
    && proof.roots[ell] == TreeRoot(S.hasher, params.schedule[ell], ell, ClassicLeaves(S, y.word, y.s, y.q))
  }

  /** The layers' roots are those of trees over these tables. */
  ghost predicate LayersCommit<A, T>(S: Setup<A, T>, params: Params, proof: Proof<A, T>, tables: seq<Table<T>>) {
    |tables| == |params.schedule| && forall ell :: 0 <= ell < |tables| ==>
      LayerCommits(S, params, proof, tables[ell], ell)
  }

  ghost predicate LayerUnbroken<A, T>(S: Setup<A, T>, arity: nat, ell: nat, y: Table<T>, o: MerkleOpening,
                                      pay: OpenPayload<T>) {
    && |y.word| == |y.s| == |y.q| && WellSized(S.hasher, o)
    && !Broken(S.hasher, arity, ell, ClassicLeaves(S, y.word, y.s, y.q), o,
               ClassicLeaf(S, pay.fVal, pay.sVal, pay.qVal))
  }

  /** None of the query's openings collides with its tree. */
  ghost predicate ClassicUnbroken<A, T>(S: Setup<A, T>, params: Params, proof: Proof<A, T>, f0: seq<A>,
                                        tables: seq<Table<T>>, q: nat)
    requires QueriesFit(params, proof, q) && |tables| == |params.schedule| > 0
  {
    var qp := proof.queries[q];
    && WellSized(S.hasher, qp.f0Opening) && |S.comps(qp.payloads[0].fVal)| > 0
    && !Broken(S.hasher, 16, F0_LABEL, PlainLeaves(S, f0), qp.f0Opening, Encode(S, [S.comps(qp.payloads[0].fVal)[0]]))
    && forall ell :: 0 <= ell < |tables| ==>
         LayerUnbroken(S, params.schedule[ell], ell, tables[ell], proof.layerOpenings[ell][q], qp.payloads[ell])
  }

  /** The opened values are the table's. */
  lemma TableReads<A(!new), T(!new)>(S: Setup<A, T>, arity: nat, ell: nat, y: Table<T>, o: MerkleOpening, i: nat,
                                     pay: OpenPayload<T>, len: nat)
    requires SoundSetup(S, len) && LayerUnbroken(S, arity, ell, y, o, pay) && 0 < |y.word| <= MAX_DOMAIN
    requires OpensTo(S.hasher, TreeConfig(|y.word|, arity, ell),
                     TreeRoot(S.hasher, arity, ell, ClassicLeaves(S, y.word, y.s, y.q)), o, i,
                     ClassicLeaf(S, pay.fVal, pay.sVal, pay.qVal))
    ensures i < |y.word| && pay == OpenPayload(y.word[i], y.s[i], y.q[i])
  {
    OpensToReads(S.hasher, arity, ell, ClassicLeaves(S, y.word, y.s, y.q), o, i,
                 ClassicLeaf(S, pay.fVal, pay.sVal, pay.qVal));
    ClassicLeafBinds(S, pay.fVal, pay.sVal, pay.qVal, y.word[i], y.s[i], y.q[i], len);
  }

  /** A ground-field value is the committed word's. */
  lemma BaseReads<A(!new), T(!new)>(S: Setup<A, T>, f0: seq<A>, index: nat, o: MerkleOpening, fVal: T, len: nat)
    requires SoundSetup(S, len) && WellSized(S.hasher, o) && index < |f0| <= MAX_DOMAIN
    requires BaseValueOk(S, |f0|, TreeRoot(S.hasher, 16, F0_LABEL, PlainLeaves(S, f0)), index, o, fVal)
    requires !Broken(S.hasher, 16, F0_LABEL, PlainLeaves(S, f0), o, Encode(S, [S.comps(fVal)[0]]))
    ensures fVal == S.emb(f0[index])
  {
    var (mine, theirs) := (S.comps(fVal), S.comps(S.emb(f0[index])));
    OpensToReads(S.hasher, 16, F0_LABEL, PlainLeaves(S, f0), o, index, Encode(S, [mine[0]]));
    EncodeBinds(S, [mine[0]], [f0[index]], len);
    assert [mine[0]][0] == [f0[index]][0];
    assert BaseComponents(S, f0[index]) && ComponentsFit(S, fVal) && ComponentsFit(S, S.emb(f0[index]));
    assert mine == theirs;
    ComponentsBind(S, fVal, S.emb(f0[index]));
  }

  /** The protocol's relations on the committed tables at the positions of a query: the DEEP identity, and the fold
      value equal to the next layer's value, or to the final polynomial's; a committed last layer goes through the
      coefficient tuple. */
  ghost predicate TableRelation<A, T>(S: Setup<A, T>, params: Params, x: QueryContext<A, T>, tables: seq<Table<T>>,
                                      qp: QueryPayload<T>, ell: nat)
    requires |tables| == |params.schedule| == |x.msgs| == |x.schedule| <= |qp.refs| && ell < |tables|
  {
    var (y, i, r) := (tables[ell], qp.refs[ell].i, S.k.ring);
    var point := Pow(r, S.domains(|y.word|).gen, i);
    && i < |y.word| == |y.s| == |y.q| && |x.msgs[ell].ood| > 0
    && r.Mul(y.q[i], r.Sub(point, x.z)) == r.Sub(y.word[i], x.msgs[ell].ood[0])
    && if x.commits && ell == |tables| - 1 then
         && y.word[i] == x.tupleAt(qp.finalIndex, point)
         && x.tupleAt(qp.finalIndex, x.lastAlpha) == x.finalAt(qp.finalIndex)
       else if ell + 1 < |tables| then
         qp.refs[ell + 1].i < |tables[ell + 1].word| && y.s[i] == tables[ell + 1].word[qp.refs[ell + 1].i]
       else y.s[i] == x.finalAt(qp.finalIndex)
  }

  lemma AcceptedClassic<A, T>(S: Setup<A, T>, params: Params, proof: Proof<A, T>, q: nat)
    requires Accepts(S, params, proof) && !params.stir && q < params.r
    ensures proof.n0 > 0 && CommitmentsFit(params, proof) && QueriesFit(params, proof, q)
    ensures
      var x := ContextOf(S, params, CommitmentsOf(params, proof), proof.coeffTuples);
      ContextFits(x) && ClassicQueryOk(S, x, proof.queries[q], OpeningsOf(params, proof, q), q)
  {
    CommitmentsShape(S, params, proof);
    assert ClassicQueryAt(S, ContextOf(S, params, CommitmentsOf(params, proof), proof.coeffTuples), params, proof, q);
  }

  lemma LayerReads<A(!new), T(!new)>(S: Setup<A, T>, params: Params, proof: Proof<A, T>, tables: seq<Table<T>>, q: nat,
                                     ell: nat, o: MerkleOpening, x: QueryContext<A, T>, len: nat)
    requires SoundSetup(S, len) && GoodSchedule(proof.n0, params.schedule) && ell < |params.schedule|
    requires LayersCommit(S, params, proof, tables) && q < |proof.queries| && ContextFits(x)
    requires |proof.queries[q].refs| >= |x.schedule| && |proof.queries[q].payloads| >= |x.schedule|
    requires x.schedule == params.schedule && x.n0 == proof.n0
    requires ell < |proof.roots| && x.msgs[ell].root == proof.roots[ell]
    requires ClassicLayerOk(S, x, o, proof.queries[q], ell)
    requires LayerUnbroken(S, params.schedule[ell], ell, tables[ell], o, proof.queries[q].payloads[ell])
    ensures
      var (y, i) := (tables[ell], proof.queries[q].refs[ell].i);
      && i < |y.word| == |y.s| == |y.q| == SizeAt(proof.n0, params.schedule, ell)
      && proof.queries[q].payloads[ell] == OpenPayload(y.word[i], y.s[i], y.q[i])
  {
    var y := tables[ell];
    assert LayerFits(proof.n0, params.schedule, ell) && LayerCommits(S, params, proof, y, ell);
    SizesStayPositive(proof.n0, params.schedule);
    TableReads(S, params.schedule[ell], ell, y, o, proof.queries[q].refs[ell].i, proof.queries[q].payloads[ell], len);
  }

  ghost predicate RowRead<T>(tables: seq<Table<T>>, qp: QueryPayload<T>, ell: nat)
    requires ell < |tables| <= |qp.refs| && |tables| <= |qp.payloads|
  {
    var (y, i) := (tables[ell], qp.refs[ell].i);
    i < |y.word| == |y.s| == |y.q| && qp.payloads[ell] == OpenPayload(y.word[i], y.s[i], y.q[i])
  }

  lemma RelationHolds<A, T>(S: Setup<A, T>, params: Params, x: QueryContext<A, T>, tables: seq<Table<T>>,
                            o: MerkleOpening, qp: QueryPayload<T>, ell: nat)
    requires ContextFits(x) && |tables| == |params.schedule| && x.schedule == params.schedule && ell < |tables|
    requires |tables| <= |qp.refs| && |tables| <= |qp.payloads| && ClassicLayerOk(S, x, o, qp, ell)
    requires RowRead(tables, qp, ell) && |tables[ell].word| == SizeAt(x.n0, x.schedule, ell)
    requires ell + 1 < |tables| ==> RowRead(tables, qp, ell + 1)
    ensures TableRelation(S, params, x, tables, qp, ell)
  {
  }

  lemma AcceptedLayer<A, T>(S: Setup<A, T>, params: Params, proof: Proof<A, T>, q: nat, ell: nat)
    requires Accepts(S, params, proof) && !params.stir && q < params.r && ell < |params.schedule|
    ensures CommitmentsFit(params, proof) && QueriesFit(params, proof, q)
    ensures
      var x := ContextOf(S, params, CommitmentsOf(params, proof), proof.coeffTuples);
      && ContextFits(x) && x.schedule == params.schedule && x.n0 == proof.n0
      && x.msgs[ell] == MsgOf(params, proof, ell)
      && ClassicLayerOk(S, x, proof.layerOpenings[ell][q], proof.queries[q], ell)
  {
    AcceptedClassic(S, params, proof, q);
    assert OpeningsOf(params, proof, q)[ell] == proof.layerOpenings[ell][q];
  }

  ghost predicate RowKnown<A, T>(params: Params, proof: Proof<A, T>, tables: seq<Table<T>>, q: nat, ell: nat)
    requires ell < |tables| == |params.schedule| && QueriesFit(params, proof, q)
  {
    RowRead(tables, proof.queries[q], ell) && |tables[ell].word| == SizeAt(proof.n0, params.schedule, ell)
  }

  /** The openings of an accepted classic query that collide with no tree carry the tables' values. */
  lemma RowsRead<A(!new), T(!new)>(S: Setup<A, T>, params: Params, proof: Proof<A, T>, f0: seq<A>,
                                   tables: seq<Table<T>>, q: nat, ell: nat, len: nat)
    requires SoundSetup(S, len) && Accepts(S, params, proof) && !params.stir && q < params.r
    requires FirstCommits(S, params, proof, f0) && LayersCommit(S, params, proof, tables) && ell < |tables|
    requires QueriesFit(params, proof, q) && ClassicUnbroken(S, params, proof, f0, tables, q)
    ensures RowKnown(params, proof, tables, q, ell)
  {
    AcceptedLayer(S, params, proof, q, ell);
    var x := ContextOf(S, params, CommitmentsOf(params, proof), proof.coeffTuples);
    LayerReads(S, params, proof, tables, q, ell, proof.layerOpenings[ell][q], x, len);
  }

  lemma BaseHolds<A(!new), T(!new)>(S: Setup<A, T>, params: Params, proof: Proof<A, T>, f0: seq<A>,
                                    tables: seq<Table<T>>, q: nat, len: nat)
    requires SoundSetup(S, len) && Accepts(S, params, proof) && !params.stir && q < params.r
    requires FirstCommits(S, params, proof, f0) && LayersCommit(S, params, proof, tables)
    requires QueriesFit(params, proof, q) && ClassicUnbroken(S, params, proof, f0, tables, q)
    ensures
      var i := proof.queries[q].refs[0].i;
      i < |f0| && i < |tables[0].word| && tables[0].word[i] == S.emb(f0[i])
  {
    AcceptedClassic(S, params, proof, q);
    RowsRead(S, params, proof, f0, tables, q, 0, len);
    FirstSizes(S, params.schedule, |f0|);
    var qp := proof.queries[q];
    assert PositionAt(RawIndex(S, QuerySeed(S, params, CommitmentsOf(params, proof)), q, |f0|), |f0|, params.schedule,
                      qp, 0);
    BaseReads(S, f0, qp.refs[0].i, qp.f0Opening, qp.payloads[0].fVal, len);
  }

  /** The protocol's relations in layer ell at the position of query q. */
  ghost predicate RelatedAt<A, T>(S: Setup<A, T>, params: Params, proof: Proof<A, T>, tables: seq<Table<T>>, q: nat,
                                  ell: nat)
    requires ell < |tables| == |params.schedule| && CommitmentsFit(params, proof) && QueriesFit(params, proof, q)
  {
    TableRelation(S, params, ContextOf(S, params, CommitmentsOf(params, proof), proof.coeffTuples), tables,
                  proof.queries[q], ell)
  }

  ghost predicate LayerAccepted<A, T>(S: Setup<A, T>, params: Params, proof: Proof<A, T>, q: nat, ell: nat)
    requires ell < |params.schedule| && CommitmentsFit(params, proof) && QueriesFit(params, proof, q)
  {
    var x := ContextOf(S, params, CommitmentsOf(params, proof), proof.coeffTuples);
    ContextFits(x) && ClassicLayerOk(S, x, proof.layerOpenings[ell][q], proof.queries[q], ell)
  }

  lemma RelatedFrom<A, T>(S: Setup<A, T>, params: Params, proof: Proof<A, T>, tables: seq<Table<T>>, q: nat, ell: nat)
    requires ell < |tables| == |params.schedule| && CommitmentsFit(params, proof) && QueriesFit(params, proof, q)
    requires LayerAccepted(S, params, proof, q, ell) && RowKnown(params, proof, tables, q, ell)
    requires ell + 1 < |tables| ==> RowKnown(params, proof, tables, q, ell + 1)
    ensures RelatedAt(S, params, proof, tables, q, ell)
  {
    RelationHolds(S, params, ContextOf(S, params, CommitmentsOf(params, proof), proof.coeffTuples), tables,
                  proof.layerOpenings[ell][q], proof.queries[q], ell);
  }

  lemma AllRelated<A, T>(S: Setup<A, T>, params: Params, proof: Proof<A, T>, tables: seq<Table<T>>, q: nat)
    requires |tables| == |params.schedule| && CommitmentsFit(params, proof) && QueriesFit(params, proof, q)
    requires forall ell :: 0 <= ell < |tables| ==>
      LayerAccepted(S, params, proof, q, ell) && RowKnown(params, proof, tables, q, ell)
    ensures forall ell :: 0 <= ell < |tables| ==> RelatedAt(S, params, proof, tables, q, ell)
  {
    forall ell: nat | ell < |tables|
      ensures RelatedAt(S, params, proof, tables, q, ell)
    {
      assert LayerAccepted(S, params, proof, q, ell) && RowKnown(params, proof, tables, q, ell);
      assert ell + 1 < |tables| ==> RowKnown(params, proof, tables, q, ell + 1);
      RelatedFrom(S, params, proof, tables, q, ell);
    }
  }

  /** An accepted classic query finds, at its positions, the committed first word in the first table and the protocol's
      relations on the committed tables of every layer, unless one of its openings collides with its tree. */
  lemma ClassicQuerySound<A(!new), T(!new)>(S: Setup<A, T>, params: Params, proof: Proof<A, T>, f0: seq<A>,
                                            tables: seq<Table<T>>, q: nat, len: nat)
    requires SoundSetup(S, len) && Accepts(S, params, proof) && !params.stir && q < params.r
    requires FirstCommits(S, params, proof, f0) && LayersCommit(S, params, proof, tables)
    requires QueriesFit(params, proof, q) && ClassicUnbroken(S, params, proof, f0, tables, q)
    ensures
      var i := proof.queries[q].refs[0].i;
      i < |f0| && i < |tables[0].word| && tables[0].word[i] == S.emb(f0[i])
    ensures forall ell :: 0 <= ell < |tables| ==> RelatedAt(S, params, proof, tables, q, ell)
  {
    BaseHolds(S, params, proof, f0, tables, q, len);
    forall ell: nat | ell < |tables|
      ensures LayerAccepted(S, params, proof, q, ell) && RowKnown(params, proof, tables, q, ell)
    {
      AcceptedLayer(S, params, proof, q, ell);
      RowsRead(S, params, proof, f0, tables, q, ell, len);
    }
    AllRelated(S, params, proof, tables, q);
  }

  // ---------- out-of-domain values ----------

  /** The point of layer ell's out-of-domain values, and the root of unity that spreads them. */
  function PointOf<A, T>(S: Setup<A, T>, params: Params, c: Commitments<T>, ell: nat): T
    requires ell <= |params.schedule|
  {
    ZAt(S.k.ring, FirstZ(S, params, c.n0, c.rootF0), params.schedule, ell)
  }

  function SpreadOf<A, T>(S: Setup<A, T>, params: Params, c: Commitments<T>, ell: nat): T
    requires ell < |params.schedule|
  {
    Pow(S.k.ring, S.domains(SizeAt(c.n0, params.schedule, ell)).gen, SizeAt(c.n0, params.schedule, ell + 1))
  }

  lemma AcceptedOod<A, T>(S: Setup<A, T>, params: Params, proof: Proof<A, T>, ell: nat)
    requires Accepts(S, params, proof) && params.stir && ell < |params.schedule|
    ensures CommitmentsFit(params, proof) && OodFits(CommitmentsOf(params, proof))
    ensures OodFoldOk(S, params, CommitmentsOf(params, proof), ell)
    ensures FirstZ(S, params, proof.n0, proof.rootF0) != S.k.ring.zero
  {
    CommitmentsShape(S, params, proof);
    assert OodFoldOk(S, params, CommitmentsOf(params, proof), ell);
  }

  /** Interpolation gives the polynomial with these values. */
  lemma OodIs<A(!new), T(!new)>(S: Setup<A, T>, params: Params, c: Commitments<T>, ell: nat, p: seq<T>)
    requires ValidSetup(S) && GoodSchedule(c.n0, params.schedule) && ell < |params.schedule| == |c.msgs|
    requires FirstZ(S, params, c.n0, c.rootF0) != S.k.ring.zero && |p| == params.schedule[ell]
    requires c.msgs[ell].ood
          == CosetValues(S.k.ring, p, PointOf(S, params, c, ell), SpreadOf(S, params, c, ell), params.schedule[ell])
    ensures OodInterpolant(S, params, c, ell) == p
  {
    var (r, m, half) := (S.k.ring, params.schedule[ell], SizeAt(c.n0, params.schedule, ell + 1));
    var (z, zeta) := (PointOf(S, params, c, ell), SpreadOf(S, params, c, ell));
    assert LayerFits(c.n0, params.schedule, ell);
    var d := S.domains(SizeAt(c.n0, params.schedule, ell));
    assert DomainFits(S, SizeAt(c.n0, params.schedule, ell));
    PointNonZero(S.k, FirstZ(S, params, c.n0, c.rootF0), params.schedule, ell);
    DomainCosets(S.k, d, m, half, z);
    OodInterpolantIs(S, params, c, ell, zeta, z);
    InversesAreInverse(S.k, m, zeta, z);
    InterpolantRecovers(r, p, InversesOf(S.k, m, zeta, z), zeta, z);
  }

  /** p has a coefficient per factor and takes the values sent for layer ell. */
  ghost predicate TakesOod<A, T>(S: Setup<A, T>, params: Params, c: Commitments<T>, ell: nat, p: seq<T>)
    requires ell < |params.schedule| == |c.msgs|
  {
    && |p| == params.schedule[ell]
    && c.msgs[ell].ood
       == CosetValues(S.k.ring, p, PointOf(S, params, c, ell), SpreadOf(S, params, c, ell), params.schedule[ell])
  }

  /** What the fold of layer ell has to meet: the next layer's first value, or the final polynomial's. */
  function OodTarget<A, T>(S: Setup<A, T>, params: Params, c: Commitments<T>, ell: nat): T
    requires ell < |params.schedule| == |c.msgs|
  {
    var next := ell + 1;
    if next < |c.msgs| then if c.msgs[next].ood == [] then S.k.ring.zero else c.msgs[next].ood[0]
    else Eval(S.k.ring, c.final, PointOf(S, params, c, next))
  }

  lemma OodFrom<A(!new), T(!new)>(S: Setup<A, T>, params: Params, c: Commitments<T>, ell: nat, p: seq<T>)
    requires ValidSetup(S) && GoodSchedule(c.n0, params.schedule) && ell < |params.schedule| == |c.msgs|
    requires TakesOod(S, params, c, ell, p) && FirstZ(S, params, c.n0, c.rootF0) != S.k.ring.zero
    requires OodFits(c) && OodFoldOk(S, params, c, ell)
    ensures Eval(S.k.ring, p, AlphaAt(S, params, c, ell)) == OodTarget(S, params, c, ell)
  {
    OodIs(S, params, c, ell, p);
  }

  /** In an accepted STIR proof the polynomial with a layer's out-of-domain values takes at the folding challenge the
      next layer's first value, or the final polynomial's at the last point. */
  lemma OodSound<A(!new), T(!new)>(S: Setup<A, T>, params: Params, proof: Proof<A, T>, ell: nat, p: seq<T>)
    requires ValidSetup(S) && Accepts(S, params, proof) && params.stir && GoodSchedule(proof.n0, params.schedule)
    requires ell < |params.schedule| && CommitmentsFit(params, proof)
    requires TakesOod(S, params, CommitmentsOf(params, proof), ell, p)
    ensures Eval(S.k.ring, p, AlphaAt(S, params, CommitmentsOf(params, proof), ell))
         == OodTarget(S, params, CommitmentsOf(params, proof), ell)
  {
    AcceptedOod(S, params, proof, ell);
    OodFrom(S, params, CommitmentsOf(params, proof), ell, p);
  }

  // ---------- committed coefficients ----------

  /** The verifier's check of the tuples sent. */
  ghost predicate TuplesPass<A, T>(S: Setup<A, T>, params: Params, proof: Proof<A, T>, beta: T, last: nat)
    requires params.schedule != []
  {
    && proof.coeffRoot.Some?
    && TuplesOk(S, last, params.schedule[|params.schedule| - 1], proof.coeffRoot.value, beta, params.dFinal,
                proof.coeffTuples)
  }

  lemma AcceptedCoeffs<A, T>(S: Setup<A, T>, params: Params, proof: Proof<A, T>)
    requires Accepts(S, params, proof) && params.coeffCommitFinal && params.schedule != []
    ensures CommitmentsFit(params, proof)
    ensures TuplesPass(S, params, proof, BetaOf(S, params, CommitmentsOf(params, proof)),
                       SizeAt(proof.n0, params.schedule, |params.schedule|))
  {
  }

  /** The last layer's tuples as committed: as many as the last domain has points, as wide as the last factor. */
  ghost predicate TuplesCommit<A, T>(S: Setup<A, T>, params: Params, proof: Proof<A, T>, tuples: seq<seq<T>>)
    requires params.schedule != []
  {
    && |tuples| == SizeAt(proof.n0, params.schedule, |params.schedule|)
    && (forall b :: 0 <= b < |tuples| ==> |tuples[b]| == params.schedule[|params.schedule| - 1])
    && proof.coeffRoot == Some(TreeRoot(S.hasher, 16, COEFF_LABEL, CoeffLeaves(S, tuples)))
  }

  ghost predicate CoeffBroken<A, T>(S: Setup<A, T>, sent: seq<seq<T>>, tuples: seq<seq<T>>) {
    var cfg := TreeConfig(|tuples|, 16, COEFF_LABEL);
    && |sent| == |tuples| > 0 && Covers(cfg.layerArities, 0, |tuples|)
    && ValuesCollide(S.hasher, cfg, CoeffLeaves(S, sent), CoeffLeaves(S, tuples))
  }

  lemma TuplesBind<A(!new), T(!new)>(S: Setup<A, T>, sent: seq<seq<T>>, tuples: seq<seq<T>>, m: nat, len: nat)
    requires SoundSetup(S, len) && |sent| == |tuples| > 0
    requires forall b :: 0 <= b < |sent| ==> |sent[b]| == |tuples[b]| == m
    requires TreeRoot(S.hasher, 16, COEFF_LABEL, CoeffLeaves(S, sent))
          == TreeRoot(S.hasher, 16, COEFF_LABEL, CoeffLeaves(S, tuples))
    ensures sent == tuples || CoeffBroken(S, sent, tuples)
  {
    var (cfg, v, w) := (TreeConfig(|tuples|, 16, COEFF_LABEL), CoeffLeaves(S, sent), CoeffLeaves(S, tuples));
    TreeConfigCovers(|tuples|, 16, COEFF_LABEL);
    ValuesBind(S.hasher, cfg, v, w);
    if v == w {
      forall b: nat | b < |sent|
        ensures sent[b] == tuples[b]
      {
        assert v[b] == w[b];
        CoeffLeafBinds(S, sent[b], tuples[b], len);
      }
    }
  }

  lemma CoeffFrom<A(!new), T(!new)>(S: Setup<A, T>, n: nat, m: nat, root: Digest, beta: T, dFinal: nat,
                                    sent: seq<seq<T>>, tuples: seq<seq<T>>, len: nat)
    requires SoundSetup(S, len) && TuplesOk(S, n, m, root, beta, dFinal, Some(sent)) && S.domains(n).size == n
    requires |tuples| == n && (forall b :: 0 <= b < n ==> |tuples[b]| == m) && ValidDomain(S.k.ring, S.domains(n))
    requires root == TreeRoot(S.hasher, 16, COEFF_LABEL, CoeffLeaves(S, tuples))
    ensures CoeffBroken(S, sent, tuples)
         || LowDegree(S.k.ring, S.domains(n), FoldTuples(S.k.ring, tuples, beta), dFinal)
  {
    TuplesBind(S, sent, tuples, m, len);
    DegreeOkIff(S.k.ring, S.domains(n), FoldTuples(S.k.ring, sent, beta), dFinal);
  }

  lemma LastIsDomain<A(!new), T(!new)>(S: Setup<A, T>, n0: nat, schedule: seq<nat>, last: nat)
    requires ValidSetup(S) && GoodSchedule(n0, schedule) && last == SizeAt(n0, schedule, |schedule|)
    ensures ValidDomain(S.k.ring, S.domains(last)) && S.domains(last).size == last
  {
    var before := |schedule| - 1;
    assert LayerFits(n0, schedule, before) && DomainFits(S, last);
  }

  lemma CoeffHeld<A(!new), T(!new)>(S: Setup<A, T>, params: Params, proof: Proof<A, T>, beta: T, tuples: seq<seq<T>>,
                                    last: nat, len: nat)
    requires SoundSetup(S, len) && GoodSchedule(proof.n0, params.schedule) && TuplesCommit(S, params, proof, tuples)
    requires last == SizeAt(proof.n0, params.schedule, |params.schedule|) && TuplesPass(S, params, proof, beta, last)
    ensures CoeffBroken(S, proof.coeffTuples.value, tuples)
         || LowDegree(S.k.ring, S.domains(last), FoldTuples(S.k.ring, tuples, beta), params.dFinal)
  {
    var end := |params.schedule|;
    LastIsDomain(S, proof.n0, params.schedule, last);
    CoeffFrom(S, last, params.schedule[end - 1], proof.coeffRoot.value, beta, params.dFinal, proof.coeffTuples.value,
              tuples, len);
  }

  /** In an accepted proof with a coefficient commitment the committed tuples fold, at the batching challenge, to a word
      of at most dFinal coefficients, unless the tuples sent collide with them. */
  lemma CoeffSound<A(!new), T(!new)>(S: Setup<A, T>, params: Params, proof: Proof<A, T>, tuples: seq<seq<T>>, last: nat,
                                     len: nat)
    requires SoundSetup(S, len) && Accepts(S, params, proof) && params.coeffCommitFinal
    requires GoodSchedule(proof.n0, params.schedule) && TuplesCommit(S, params, proof, tuples)
    requires last == SizeAt(proof.n0, params.schedule, |params.schedule|)
    ensures CommitmentsFit(params, proof) && proof.coeffTuples.Some?
    ensures
      || CoeffBroken(S, proof.coeffTuples.value, tuples)
      || LowDegree(S.k.ring, S.domains(last),
                   FoldTuples(S.k.ring, tuples, BetaOf(S, params, CommitmentsOf(params, proof))), params.dFinal)
  {
    AcceptedCoeffs(S, params, proof);
    CoeffHeld(S, params, proof, BetaOf(S, params, CommitmentsOf(params, proof)), tuples, last, len);
  }
}
