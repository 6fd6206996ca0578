/** What the verifier accepts, and its verdict on every proof: the checks in the order in which they are made, each
    of which accepts, rejects, or stops with a panic. */
module FriAcceptance {
  import opened Arith
  import opened Rings
  import opened Polynomials
  import opened Domains
  import opened ExtTransform
  import opened FriLayers
  import opened Hashing
  import opened Merkle
  import opened MerkleChannel
  import opened FriSetup
  import opened FriProtocol

  // ---------- the shape of a proof ----------

  predicate StirPathsFit<A, T>(schedule: seq<nat>, n0: nat, pq: StirPayload<A, T>)
    requires schedule != []
  {
    && PathFits(TreeConfig(SizeAt(n0, schedule, 1), 16, F0_LABEL), pq.f0PackedOpening.path)
    && (|schedule| >= 2 && pq.layer1Opening.Some? ==>
          PathFits(TreeConfig(SizeAt(n0, schedule, 1), schedule[1], 1), pq.layer1Opening.value.path))
  }

  predicate ClassicPathsFit<A, T>(params: Params, proof: Proof<A, T>, q: nat)
    requires params.schedule != [] && QueriesFit(params, proof, q)
  {
    && PathFits(TreeConfig(proof.n0, 16, F0_LABEL), proof.queries[q].f0Opening.path)
    && forall ell :: 0 <= ell < |params.schedule| ==>
         PathFits(LayerConfig(params, proof.n0, ell), proof.layerOpenings[ell][q].path)
  }

  /** Query q has all its lists, and its openings name no more levels than their trees have. */
  predicate ClassicFits<A, T>(params: Params, proof: Proof<A, T>, q: nat)
    requires params.schedule != []
  {
    QueriesFit(params, proof, q) && ClassicPathsFit(params, proof, q)
  }

  ghost predicate StirFits<A, T>(schedule: seq<nat>, n0: nat, queries: seq<StirPayload<A, T>>)
    requires schedule != []
  {
    forall qi :: 0 <= qi < |queries| ==> StirPathsFit(schedule, n0, queries[qi])
  }

  ghost predicate PathsFit<A, T>(params: Params, proof: Proof<A, T>)
    requires params.schedule != []
  {
    && (params.stir && proof.stirProximityQueries.Some? ==>
          StirFits(params.schedule, proof.n0, proof.stirProximityQueries.value))
    && (!params.stir ==> forall q :: 0 <= q < params.r ==> ClassicFits(params, proof, q))
  }

  /** The factors divide the sizes, and the domains a STIR transcript needs exist. */
  ghost predicate ReplayFits(params: Params, n0: nat) {
    Divisible(n0, params.schedule) && (params.stir ==> n0 <= MAX_DOMAIN)
  }

  /** The transcript can be replayed: the factors divide the sizes, the lists are long enough, and no inversion
      fails. */
  ghost predicate Replayable<A, T>(S: Setup<A, T>, params: Params, proof: Proof<A, T>) {
    && ReplayFits(params, proof.n0) && CommitmentsFit(params, proof)
    && (params.stir ==> FirstZ(S, params, proof.n0, proof.rootF0) != S.k.ring.zero)
  }

  /** The proofs of the shape the verifier relies on: `OutcomeIs` shows that it then neither indexes past a list nor
      unwraps a missing value. */
  ghost predicate WellShaped<A, T>(S: Setup<A, T>, params: Params, proof: Proof<A, T>) {
    Replayable(S, params, proof) && 0 < proof.n0 <= MAX_DOMAIN && PathsFit(params, proof)
  }

  // ---------- acceptance ----------

  ghost predicate OodFits<T>(c: Commitments<T>) { forall i :: 0 <= i < |c.msgs| ==> |c.msgs[i].ood| > 0 }

  ghost predicate StirQueriesOk<A, T>(S: Setup<A, T>, x: QueryContext<A, T>, queries: seq<StirPayload<A, T>>)
    requires ContextFits(x)
  {
    forall qi :: 0 <= qi < |queries| ==> StirQueryOk(S, x, qi, queries[qi])
  }

  ghost predicate ClassicQueryAt<A, T>(S: Setup<A, T>, x: QueryContext<A, T>, params: Params, proof: Proof<A, T>,
                                       q: nat)
    requires ContextFits(x) && x.schedule == params.schedule
  {
    QueriesFit(params, proof, q) && ClassicQueryOk(S, x, proof.queries[q], OpeningsOf(params, proof, q), q)
  }

  /** The queries of the mode in use, as many as the parameters ask for. */
  ghost predicate QueriesOk<A, T>(S: Setup<A, T>, x: QueryContext<A, T>, params: Params, proof: Proof<A, T>)
    requires ContextFits(x) && x.schedule == params.schedule
  {
    if params.stir then
      && proof.stirProximityQueries.Some? && |proof.stirProximityQueries.value| == params.s0
      && StirQueriesOk(S, x, proof.stirProximityQueries.value)
    else forall q :: 0 <= q < params.r ==> ClassicQueryAt(S, x, params, proof, q)
  }

  /** No query is asked for: what a proof of size zero can get away with. */
  ghost predicate NoQueries<A, T>(params: Params, proof: Proof<A, T>) {
    if params.stir then proof.stirProximityQueries == Some([]) && params.s0 == 0 else params.r == 0
  }

  ghost predicate OodFoldsOk<A, T>(S: Setup<A, T>, params: Params, c: Commitments<T>)
    requires OodFits(c) && |c.msgs| == |params.schedule|
  {
    forall ell :: 0 <= ell < |params.schedule| ==> OodFoldOk(S, params, c, ell)
  }

  /** The checks before the queries: size of the final polynomial, folding at the out-of-domain points, the
      committed coefficients. */
  ghost predicate ClaimsOk<A, T>(S: Setup<A, T>, params: Params, c: Commitments<T>, tuples: Option<seq<seq<T>>>)
    requires OodFits(c) && |c.msgs| == |params.schedule|
  {
    && |c.final| == params.dFinal
    && (params.stir ==> OodFoldsOk(S, params, c))
    && (params.UsesCommit() ==> CoeffsOk(S, params, c, tuples))
  }

  ghost predicate QueryPhaseOk<A, T>(S: Setup<A, T>, x: QueryContext<A, T>, params: Params, proof: Proof<A, T>)
    requires x.schedule == params.schedule && (x.n0 > 0 ==> ContextFits(x))
  {
    if x.n0 == 0 then NoQueries(params, proof) else QueriesOk(S, x, params, proof)
  }

  /** What the verifier accepts. */
  ghost predicate Accepts<A, T>(S: Setup<A, T>, params: Params, proof: Proof<A, T>) {
    && Replayable(S, params, proof) && proof.n0 <= MAX_DOMAIN
    && var c := CommitmentsOf(params, proof);
       CommitmentsShape(S, params, proof);
       && ClaimsOk(S, params, c, proof.coeffTuples)
       && QueryPhaseOk(S, ContextOf(S, params, c, proof.coeffTuples), params, proof)
  }

  /** The shape the checks rely on. */
  lemma CommitmentsShape<A, T>(S: Setup<A, T>, params: Params, proof: Proof<A, T>)
    requires Divisible(proof.n0, params.schedule) && CommitmentsFit(params, proof)
    ensures
      var c := CommitmentsOf(params, proof);
      && OodFits(c) && (params.stir ==> OodListsFit(params, c))
      && (proof.n0 > 0 ==> ContextFits(ContextOf(S, params, c, proof.coeffTuples)))
  {
    var c := CommitmentsOf(params, proof);
    forall i | 0 <= i < |c.msgs|
      ensures |c.msgs[i].ood| > 0 && (params.stir ==> OodListFits(params.schedule[i], c.msgs[i].ood))
    {
      assert c.msgs[i] == MsgOf(params, proof, i);
    }
    FitSizes(proof.n0, params.schedule, 1);
    FitSizes(proof.n0, params.schedule, |params.schedule|);
  }

  ghost predicate OodListsFit<T>(params: Params, c: Commitments<T>)
    requires |c.msgs| == |params.schedule|
  {
    forall i :: 0 <= i < |c.msgs| ==> OodListFits(params.schedule[i], c.msgs[i].ood)
  }

  // ---------- one STIR query ----------

  ghost predicate FibrePlaced<A, T>(m: nat, half: nat, raw: nat, pq: StirPayload<A, T>)
    requires half > 0
  {
    && pq.rawQueryIndex == raw && pq.baseIndex == Rem(raw, half) && |pq.fiberFVals| == m
    && pq.fiberIndices == FibreIndices(Rem(raw, half), half, m)
  }

  ghost function FibreVerdict<A, T>(S: Setup<A, T>, rootF0: Digest, m: nat, half: nat, raw: nat,
                                    pq: StirPayload<A, T>): Verdict
    requires half > 0
  {
    if !FibrePlaced(m, half, raw, pq) then Reject
    else OpensVerdict(S.hasher, TreeConfig(half, 16, F0_LABEL), rootF0, pq.f0PackedOpening, Rem(raw, half),
                      Encode(S, pq.fiberFVals))
  }

  /** The folded value against the second layer, or against the final polynomial if there is none. */
  ghost function NextVerdict<A, T>(S: Setup<A, T>, x: QueryContext<A, T>, b: nat, fold: T,
                                   pq: StirPayload<A, T>): Verdict
    requires ContextFits(x)
  {
    if |x.schedule| == 1 then VerdictOf(fold == x.finalAt(b))
    else if pq.layer1Opening.None? then Reject
    else
      var cfg := TreeConfig(SizeAt(x.n0, x.schedule, 1), x.schedule[1], 1);
      OpensVerdict(S.hasher, cfg, x.msgs[1].root, pq.layer1Opening.value, b, StirLeaf(S, pq.fNextVal))
        .Then(VerdictOf(fold == pq.fNextVal))
  }

  ghost function StirVerdict<A, T>(S: Setup<A, T>, x: QueryContext<A, T>, qi: nat, pq: StirPayload<A, T>): Verdict
    requires ContextFits(x)
  {
    var (half, raw) := (SizeAt(x.n0, x.schedule, 1), RawIndex(S, x.seed, qi, x.n0));
    var b := Rem(raw, half);
    FibreVerdict(S, x.rootF0, x.schedule[0], half, raw, pq)
      .Then(NextVerdict(S, x, b, x.fibreFold(b, pq.fiberFVals), pq))
  }

  ghost function StirVerdicts<A, T>(S: Setup<A, T>, x: QueryContext<A, T>,
                                    queries: seq<StirPayload<A, T>>): nat -> Verdict
    requires ContextFits(x)
  {
    (qi: nat) => if qi < |queries| then StirVerdict(S, x, qi, queries[qi]) else Accept
  }

  lemma FibreVerdictIs<A, T>(S: Setup<A, T>, rootF0: Digest, m: nat, half: nat, raw: nat, pq: StirPayload<A, T>)
    requires half > 0
    ensures FibreVerdict(S, rootF0, m, half, raw, pq).Accept? <==> FibreOk(S, rootF0, m, half, raw, pq)
    ensures PathFits(TreeConfig(half, 16, F0_LABEL), pq.f0PackedOpening.path) ==>
      !FibreVerdict(S, rootF0, m, half, raw, pq).Abort?
  {
    OpensVerdictIs(S.hasher, TreeConfig(half, 16, F0_LABEL), rootF0, pq.f0PackedOpening, Rem(raw, half),
                   Encode(S, pq.fiberFVals));
  }

  lemma StirVerdictIs<A, T>(S: Setup<A, T>, x: QueryContext<A, T>, qi: nat, pq: StirPayload<A, T>)
    requires ContextFits(x)
    ensures StirVerdict(S, x, qi, pq).Accept? <==> StirQueryOk(S, x, qi, pq)
    ensures StirPathsFit(x.schedule, x.n0, pq) ==> !StirVerdict(S, x, qi, pq).Abort?
  {
    var (half, raw) := (SizeAt(x.n0, x.schedule, 1), RawIndex(S, x.seed, qi, x.n0));
    FibreVerdictIs(S, x.rootF0, x.schedule[0], half, raw, pq);
    if |x.schedule| >= 2 && pq.layer1Opening.Some? {
      OpensVerdictIs(S.hasher, TreeConfig(half, x.schedule[1], 1), x.msgs[1].root, pq.layer1Opening.value,
                     Rem(raw, half), StirLeaf(S, pq.fNextVal));
    }
  }

  lemma StirVerdictsAre<A, T>(S: Setup<A, T>, x: QueryContext<A, T>, queries: seq<StirPayload<A, T>>)
    requires ContextFits(x)
    ensures FirstFrom(StirVerdicts(S, x, queries), |queries|, 0).Accept? <==> StirQueriesOk(S, x, queries)
    ensures StirFits(x.schedule, x.n0, queries) ==> !FirstFrom(StirVerdicts(S, x, queries), |queries|, 0).Abort?
  {
    var verdicts := StirVerdicts(S, x, queries);
    forall qi: nat | qi < |queries|
      ensures verdicts(qi).Accept? <==> StirQueryOk(S, x, qi, queries[qi])
      ensures StirPathsFit(x.schedule, x.n0, queries[qi]) ==> !verdicts(qi).Abort?
    {
      StirVerdictIs(S, x, qi, queries[qi]);
    }
    FirstFromIs(verdicts, |queries|, 0);
  }

  // ---------- one classic query ----------

  /** The positions from layer ell on. */
  ghost function PositionsFrom<T>(raw: nat, n0: nat, schedule: seq<nat>, qp: QueryPayload<T>, ell: nat): Verdict
    requires ell <= |schedule|
    decreases |schedule| - ell
  {
    if ell == |schedule| then VerdictOf(qp.finalIndex == IndexAt(raw, n0, schedule, ell))
    else if ell >= |qp.refs| then Abort
    else if qp.refs[ell].i != IndexAt(raw, n0, schedule, ell) then Reject
    else PositionsFrom(raw, n0, schedule, qp, ell + 1)
  }

  ghost predicate PositionsOkFrom<T>(raw: nat, n0: nat, schedule: seq<nat>, qp: QueryPayload<T>, k: nat)
    requires |qp.refs| >= |schedule|
  {
    && (forall ell :: k <= ell < |schedule| ==> PositionAt(raw, n0, schedule, qp, ell))
    && qp.finalIndex == IndexAt(raw, n0, schedule, |schedule|)
  }

  lemma {:induction false} PositionsFromIs<T>(raw: nat, n0: nat, schedule: seq<nat>, qp: QueryPayload<T>, ell: nat)
    requires ell <= |schedule|
    ensures |qp.refs| >= |schedule| ==>
      && (PositionsFrom(raw, n0, schedule, qp, ell).Accept? <==> PositionsOkFrom(raw, n0, schedule, qp, ell))
      && !PositionsFrom(raw, n0, schedule, qp, ell).Abort?
    ensures ell < |schedule| && PositionsFrom(raw, n0, schedule, qp, ell).Accept? ==> |qp.refs| >= |schedule|
    decreases |schedule| - ell
  {
    if ell < |schedule| {
      if ell < |qp.refs| && qp.refs[ell].i == IndexAt(raw, n0, schedule, ell) {
        PositionsFromIs(raw, n0, schedule, qp, ell + 1);
      } else {
        assert |qp.refs| >= |schedule| ==> !PositionAt(raw, n0, schedule, qp, ell);
      }
    }
  }

  /** The first value is of the ground field, and the leaf at the index. */
  ghost predicate BaseBound<A, T>(S: Setup<A, T>, n0: nat, index: nat, o: MerkleOpening, fVal: T) {
    && |S.comps(fVal)| > 0 && (forall j :: 0 < j < |S.comps(fVal)| ==> S.comps(fVal)[j] == S.fromU64(0))
    && o.index == index
    && o.leaf == LeafHash(S.hasher, TreeConfig(n0, 16, F0_LABEL), o.index, Encode(S, [S.comps(fVal)[0]]))
  }

  ghost function BaseVerdict<A, T>(S: Setup<A, T>, n0: nat, rootF0: Digest, index: nat, qp: QueryPayload<T>): Verdict {
    OpeningVerdict(S.hasher, TreeConfig(n0, 16, F0_LABEL), rootF0, qp.f0Opening)
      .Then(if qp.payloads == [] then Abort else VerdictOf(BaseBound(S, n0, index, qp.f0Opening, qp.payloads[0].fVal)))
  }

  lemma BaseVerdictIs<A, T>(S: Setup<A, T>, n0: nat, rootF0: Digest, index: nat, qp: QueryPayload<T>)
    ensures BaseVerdict(S, n0, rootF0, index, qp).Accept?
       <==> qp.payloads != [] && BaseValueOk(S, n0, rootF0, index, qp.f0Opening, qp.payloads[0].fVal)
    ensures PathFits(TreeConfig(n0, 16, F0_LABEL), qp.f0Opening.path) && qp.payloads != [] ==>
      !BaseVerdict(S, n0, rootF0, index, qp).Abort?
  {
    OpeningVerdictIs(S.hasher, TreeConfig(n0, 16, F0_LABEL), rootF0, qp.f0Opening);
  }

  ghost function FoldVerdict<A, T>(x: QueryContext<A, T>, qp: QueryPayload<T>, ell: nat, point: T): Verdict
    requires ell < |x.schedule| && ell < |qp.payloads|
  {
    if x.commits && ell == |x.schedule| - 1 then
      VerdictOf(qp.payloads[ell].fVal == x.tupleAt(qp.finalIndex, point)
                && x.tupleAt(qp.finalIndex, x.lastAlpha) == x.finalAt(qp.finalIndex))
    else if ell + 1 == |x.schedule| then VerdictOf(qp.payloads[ell].sVal == x.finalAt(qp.finalIndex))
    else if ell + 1 == |qp.payloads| then Abort
    else VerdictOf(qp.payloads[ell].sVal == qp.payloads[ell + 1].fVal)
  }

  /** The DEEP identity q (x - z) = f - f(z). */
  ghost predicate Identity<T>(r: Ring<T>, pay: OpenPayload<T>, point: T, z: T, fz: T) {
    r.Mul(pay.qVal, r.Sub(point, z)) == r.Sub(pay.fVal, fz)
  }

  /** Layer ell of query q has its opening, its position and its values. */
  predicate LayerListed<T>(openings: seq<seq<MerkleOpening>>, qp: QueryPayload<T>, q: nat, ell: nat) {
    ell < |openings| && q < |openings[ell]| && ell < |qp.refs| && ell < |qp.payloads|
  }

  ghost function LayerVerdict<A, T>(S: Setup<A, T>, x: QueryContext<A, T>, openings: seq<seq<MerkleOpening>>,
                                    qp: QueryPayload<T>, q: nat, ell: nat): Verdict
    requires ContextFits(x) && ell < |x.schedule|
  {
    if !LayerListed(openings, qp, q, ell) then Abort
    else
      var (n, pay, i) := (SizeAt(x.n0, x.schedule, ell), qp.payloads[ell], qp.refs[ell].i);
      var point := Pow(S.k.ring, S.domains(n).gen, i);
      OpensVerdict(S.hasher, TreeConfig(n, x.schedule[ell], ell), x.msgs[ell].root, openings[ell][q], i,
                   ClassicLeaf(S, pay.fVal, pay.sVal, pay.qVal))
        .Then(VerdictOf(Identity(S.k.ring, pay, point, x.z, x.msgs[ell].ood[0])))
        .Then(FoldVerdict(x, qp, ell, point))
  }

  ghost function LayerVerdicts<A, T>(S: Setup<A, T>, x: QueryContext<A, T>, openings: seq<seq<MerkleOpening>>,
                                     qp: QueryPayload<T>, q: nat): nat -> Verdict
    requires ContextFits(x)
  {
    (ell: nat) => if ell < |x.schedule| then LayerVerdict(S, x, openings, qp, q, ell) else Accept
  }

  ghost function ClassicVerdict<A, T>(S: Setup<A, T>, x: QueryContext<A, T>, proof: Proof<A, T>, q: nat): Verdict
    requires ContextFits(x)
  {
    if q >= |proof.queries| then Abort
    else
      var (qp, raw) := (proof.queries[q], RawIndex(S, x.seed, q, x.n0));
      PositionsFrom(raw, x.n0, x.schedule, qp, 0).Then(BaseVerdict(S, x.n0, x.rootF0, raw, qp))
        .Then(FirstFrom(LayerVerdicts(S, x, proof.layerOpenings, qp, q), |x.schedule|, 0))
  }

  ghost function ClassicVerdicts<A, T>(S: Setup<A, T>, x: QueryContext<A, T>, proof: Proof<A, T>): nat -> Verdict
    requires ContextFits(x)
  {
    (q: nat) => ClassicVerdict(S, x, proof, q)
  }

  lemma LayerVerdictIs<A, T>(S: Setup<A, T>, x: QueryContext<A, T>, openings: seq<seq<MerkleOpening>>,
                             qp: QueryPayload<T>, q: nat, ell: nat)
    requires ContextFits(x) && ell < |x.schedule| && LayerListed(openings, qp, q, ell)
    requires |qp.refs| >= |x.schedule| && |qp.payloads| >= |x.schedule|
    ensures LayerVerdict(S, x, openings, qp, q, ell).Accept? <==> ClassicLayerOk(S, x, openings[ell][q], qp, ell)
    ensures PathFits(TreeConfig(SizeAt(x.n0, x.schedule, ell), x.schedule[ell], ell), openings[ell][q].path) ==>
      !LayerVerdict(S, x, openings, qp, q, ell).Abort?
  {
    var (n, pay, i) := (SizeAt(x.n0, x.schedule, ell), qp.payloads[ell], qp.refs[ell].i);
    OpensVerdictIs(S.hasher, TreeConfig(n, x.schedule[ell], ell), x.msgs[ell].root, openings[ell][q], i,
                   ClassicLeaf(S, pay.fVal, pay.sVal, pay.qVal));
  }

  ghost predicate AllListed<T>(openings: seq<seq<MerkleOpening>>, qp: QueryPayload<T>, q: nat, L: nat) {
    forall ell :: 0 <= ell < L ==> LayerListed(openings, qp, q, ell)
  }

  /** Accepted layers are listed. */
  lemma AcceptedListed<A, T>(S: Setup<A, T>, x: QueryContext<A, T>, openings: seq<seq<MerkleOpening>>,
                             qp: QueryPayload<T>, q: nat)
    requires ContextFits(x)
    requires FirstFrom(LayerVerdicts(S, x, openings, qp, q), |x.schedule|, 0).Accept?
    ensures AllListed(openings, qp, q, |x.schedule|)
  {
    var verdicts := LayerVerdicts(S, x, openings, qp, q);
    FirstFromIs(verdicts, |x.schedule|, 0);
    forall ell: nat | ell < |x.schedule|
      ensures LayerListed(openings, qp, q, ell)
    {
      assert verdicts(ell).Accept? && verdicts(ell) == LayerVerdict(S, x, openings, qp, q, ell);
    }
  }

  /** Layer ell of the query of these lists is in order. */
  ghost predicate LayerOkAt<A, T>(S: Setup<A, T>, x: QueryContext<A, T>, openings: seq<MerkleOpening>,
                                  qp: QueryPayload<T>, ell: nat)
    requires ContextFits(x) && ell < |x.schedule| == |openings|
    requires |qp.refs| >= |x.schedule| && |qp.payloads| >= |x.schedule|
  {
    ClassicLayerOk(S, x, openings[ell], qp, ell)
  }

  lemma LayerVerdictsAre<A, T>(S: Setup<A, T>, x: QueryContext<A, T>, lists: seq<seq<MerkleOpening>>,
                               openings: seq<MerkleOpening>, qp: QueryPayload<T>, q: nat)
    requires ContextFits(x) && AllListed(lists, qp, q, |x.schedule|) && |openings| == |x.schedule|
    requires forall ell :: 0 <= ell < |x.schedule| ==> LayerListed(lists, qp, q, ell) && openings[ell] == lists[ell][q]
    requires |qp.refs| >= |x.schedule| && |qp.payloads| >= |x.schedule|
    ensures FirstFrom(LayerVerdicts(S, x, lists, qp, q), |x.schedule|, 0).Accept?
       <==> forall ell :: 0 <= ell < |x.schedule| ==> LayerOkAt(S, x, openings, qp, ell)
    ensures (forall ell :: 0 <= ell < |x.schedule| ==> LayerPathFits(x, openings, ell)) ==>
      !FirstFrom(LayerVerdicts(S, x, lists, qp, q), |x.schedule|, 0).Abort?
  {
    var verdicts := LayerVerdicts(S, x, lists, qp, q);
    forall ell: nat | ell < |x.schedule|
      ensures verdicts(ell).Accept? <==> LayerOkAt(S, x, openings, qp, ell)
      ensures LayerPathFits(x, openings, ell) ==> !verdicts(ell).Abort?
    {
      assert LayerListed(lists, qp, q, ell);
      LayerVerdictIs(S, x, lists, qp, q, ell);
    }
    FirstFromIs(verdicts, |x.schedule|, 0);
  }

  ghost predicate LayerPathFits<A, T>(x: QueryContext<A, T>, openings: seq<MerkleOpening>, ell: nat)
    requires ell < |x.schedule| == |openings|
  {
    PathFits(TreeConfig(SizeAt(x.n0, x.schedule, ell), x.schedule[ell], ell), openings[ell].path)
  }

  lemma ClassicVerdictFits<A, T>(S: Setup<A, T>, x: QueryContext<A, T>, params: Params, proof: Proof<A, T>, q: nat)
    requires ContextFits(x) && x.schedule == params.schedule && x.n0 == proof.n0 && QueriesFit(params, proof, q)
    ensures ClassicVerdict(S, x, proof, q).Accept?
       <==> ClassicQueryOk(S, x, proof.queries[q], OpeningsOf(params, proof, q), q)
    ensures ClassicPathsFit(params, proof, q) ==> !ClassicVerdict(S, x, proof, q).Abort?
  {
    var (qp, openings, raw) := (proof.queries[q], OpeningsOf(params, proof, q), RawIndex(S, x.seed, q, x.n0));
    PositionsFromIs(raw, x.n0, x.schedule, qp, 0);
    BaseVerdictIs(S, x.n0, x.rootF0, raw, qp);
    assert PositionsOk(raw, x.n0, x.schedule, qp) ==> PositionAt(raw, x.n0, x.schedule, qp, 0);
    LayerVerdictsAre(S, x, proof.layerOpenings, openings, qp, q);
    assert (forall ell :: 0 <= ell < |x.schedule| ==> LayerOkAt(S, x, openings, qp, ell)) <==>
           forall ell :: 0 <= ell < |x.schedule| ==> ClassicLayerOk(S, x, openings[ell], qp, ell) by {
      LayersOkAlike(S, x, openings, qp);
    }
  }

  lemma LayersOkAlike<A, T>(S: Setup<A, T>, x: QueryContext<A, T>, openings: seq<MerkleOpening>, qp: QueryPayload<T>)
    requires ContextFits(x) && |x.schedule| == |openings|
    requires |qp.refs| >= |x.schedule| && |qp.payloads| >= |x.schedule|
    ensures (forall ell :: 0 <= ell < |x.schedule| ==> LayerOkAt(S, x, openings, qp, ell)) <==>
            forall ell :: 0 <= ell < |x.schedule| ==> ClassicLayerOk(S, x, openings[ell], qp, ell)
  {
    if forall ell :: 0 <= ell < |x.schedule| ==> LayerOkAt(S, x, openings, qp, ell) {
      forall ell: nat | ell < |x.schedule|
        ensures ClassicLayerOk(S, x, openings[ell], qp, ell)
      {
        assert LayerOkAt(S, x, openings, qp, ell);
      }
    }
  }

  lemma ClassicVerdictIs<A, T>(S: Setup<A, T>, x: QueryContext<A, T>, params: Params, proof: Proof<A, T>, q: nat)
    requires ContextFits(x) && x.schedule == params.schedule && x.n0 == proof.n0
    ensures ClassicVerdict(S, x, proof, q).Accept? <==> ClassicQueryAt(S, x, params, proof, q)
    ensures ClassicFits(params, proof, q) ==> !ClassicVerdict(S, x, proof, q).Abort?
  {
    if QueriesFit(params, proof, q) {
      ClassicVerdictFits(S, x, params, proof, q);
    } else if ClassicVerdict(S, x, proof, q).Accept? {
      AcceptedListed(S, x, proof.layerOpenings, proof.queries[q], q);
      ListedFits(params, proof, q, |x.schedule| - 1);
    }
  }

  lemma ListedFits<A, T>(params: Params, proof: Proof<A, T>, q: nat, last: nat)
    requires q < |proof.queries| && last + 1 == |params.schedule|
    requires AllListed(proof.layerOpenings, proof.queries[q], q, |params.schedule|)
    ensures QueriesFit(params, proof, q)
  {
    assert LayerListed(proof.layerOpenings, proof.queries[q], q, last);
    forall ell: nat | ell < |params.schedule|
      ensures q < |proof.layerOpenings[ell]|
    {
      assert LayerListed(proof.layerOpenings, proof.queries[q], q, ell);
    }
  }

  // ---------- the whole verdict ----------

  /** The committed coefficients; there is no tree over no tuples. */
  ghost function CoeffsVerdict<A, T>(S: Setup<A, T>, n: nat, m: nat, root: Digest, beta: T, dFinal: nat,
                                     tuples: Option<seq<seq<T>>>): Verdict {
    if tuples.None? || |tuples.value| != n || exists b :: 0 <= b < n && |tuples.value[b]| != m then Reject
    else if n == 0 then Abort
    else TuplesVerdict(S, tuples.value, root, beta, dFinal)
  }

  /** The recomputed root, then the degree check, which needs a domain. */
  ghost function TuplesVerdict<A, T>(S: Setup<A, T>, tuples: seq<seq<T>>, root: Digest, beta: T, dFinal: nat): Verdict
    requires tuples != [] && forall b :: 0 <= b < |tuples| ==> |tuples[b]| == |tuples[0]|
  {
    VerdictOf(TreeRoot(S.hasher, 16, COEFF_LABEL, CoeffLeaves(S, tuples)) == root)
      .Then(if |tuples| > MAX_DOMAIN then Abort
            else VerdictOf(DegreeOk(S.k.ring, S.domains(|tuples|), FoldTuples(S.k.ring, tuples, beta), dFinal)))
  }

  lemma CoeffsVerdictIs<A, T>(S: Setup<A, T>, n: nat, m: nat, root: Digest, beta: T, dFinal: nat,
                              tuples: Option<seq<seq<T>>>)
    requires n <= MAX_DOMAIN
    ensures CoeffsVerdict(S, n, m, root, beta, dFinal, tuples).Accept?
       <==> TuplesOk(S, n, m, root, beta, dFinal, tuples)
    ensures CoeffsVerdict(S, n, m, root, beta, dFinal, tuples).Abort? ==> n == 0
  {
  }

  ghost function OodVerdicts<A, T>(S: Setup<A, T>, params: Params, c: Commitments<T>): nat -> Verdict
    requires OodFits(c) && |c.msgs| == |params.schedule|
  {
    (ell: nat) => VerdictOf(ell < |params.schedule| && OodFoldOk(S, params, c, ell))
  }

  ghost function OodVerdict<A, T>(S: Setup<A, T>, params: Params, c: Commitments<T>): Verdict
    requires OodFits(c) && |c.msgs| == |params.schedule|
  {
    FirstFrom(OodVerdicts(S, params, c), |params.schedule|, 0)
  }

  ghost function CommitVerdict<A, T>(S: Setup<A, T>, params: Params, c: Commitments<T>,
                                     tuples: Option<seq<seq<T>>>): Verdict
    requires params.UsesCommit() && |c.msgs| == |params.schedule|
  {
    var L := |params.schedule|;
    CoeffsVerdict(S, SizeAt(c.n0, params.schedule, L), params.schedule[L - 1], c.coeffRoot, BetaOf(S, params, c),
                  params.dFinal, tuples)
  }

  lemma CommitVerdictIs<A, T>(S: Setup<A, T>, params: Params, c: Commitments<T>, tuples: Option<seq<seq<T>>>)
    requires params.UsesCommit() && |c.msgs| == |params.schedule|
    requires SizeAt(c.n0, params.schedule, |params.schedule|) <= MAX_DOMAIN
    ensures CommitVerdict(S, params, c, tuples).Accept? <==> CoeffsOk(S, params, c, tuples)
    ensures CommitVerdict(S, params, c, tuples).Abort? ==> SizeAt(c.n0, params.schedule, |params.schedule|) == 0
  {
    var L := |params.schedule|;
    CoeffsVerdictIs(S, SizeAt(c.n0, params.schedule, L), params.schedule[L - 1], c.coeffRoot, BetaOf(S, params, c),
                    params.dFinal, tuples);
  }

  ghost function ClaimsVerdict<A, T>(S: Setup<A, T>, params: Params, c: Commitments<T>,
                                     tuples: Option<seq<seq<T>>>): Verdict
    requires OodFits(c) && |c.msgs| == |params.schedule|
  {
    VerdictOf(|c.final| == params.dFinal).Then(if params.stir then OodVerdict(S, params, c) else Accept)
      .Then(if params.UsesCommit() then CommitVerdict(S, params, c, tuples) else Accept)
  }

  lemma OodVerdictIs<A, T>(S: Setup<A, T>, params: Params, c: Commitments<T>)
    requires OodFits(c) && |c.msgs| == |params.schedule|
    ensures OodVerdict(S, params, c).Accept? <==> OodFoldsOk(S, params, c)
    ensures !OodVerdict(S, params, c).Abort?
  {
    var verdicts := OodVerdicts(S, params, c);
    FirstFromIs(verdicts, |params.schedule|, 0);
    assert forall ell: nat :: ell < |params.schedule| ==> (verdicts(ell).Accept? <==> OodFoldOk(S, params, c, ell));
  }

  lemma ClaimsVerdictIs<A, T>(S: Setup<A, T>, params: Params, c: Commitments<T>, tuples: Option<seq<seq<T>>>)
    requires OodFits(c) && |c.msgs| == |params.schedule|
    requires SizeAt(c.n0, params.schedule, |params.schedule|) <= MAX_DOMAIN
    ensures ClaimsVerdict(S, params, c, tuples).Accept? <==> ClaimsOk(S, params, c, tuples)
    ensures ClaimsVerdict(S, params, c, tuples).Abort? ==> SizeAt(c.n0, params.schedule, |params.schedule|) == 0
  {
    OodVerdictIs(S, params, c);
    if params.UsesCommit() {
      CommitVerdictIs(S, params, c, tuples);
    }
  }

  /** The queries, once every layer has a domain. */
  ghost function QueriesVerdict<A, T>(S: Setup<A, T>, x: QueryContext<A, T>, params: Params,
                                      proof: Proof<A, T>): Verdict
    requires x.n0 > 0 ==> ContextFits(x)
  {
    var count := if params.stir then params.s0 else params.r;
    if x.n0 > MAX_DOMAIN then Abort
    else if params.stir && (proof.stirProximityQueries.None? || |proof.stirProximityQueries.value| != count) then Reject
    else if x.n0 == 0 then if count == 0 then Accept else Abort
    else if params.stir then FirstFrom(StirVerdicts(S, x, proof.stirProximityQueries.value), count, 0)
    else FirstFrom(ClassicVerdicts(S, x, proof), count, 0)
  }

  lemma ClassicVerdictsAre<A, T>(S: Setup<A, T>, x: QueryContext<A, T>, params: Params, proof: Proof<A, T>)
    requires ContextFits(x) && x.schedule == params.schedule && x.n0 == proof.n0
    ensures FirstFrom(ClassicVerdicts(S, x, proof), params.r, 0).Accept?
       <==> forall q :: 0 <= q < params.r ==> ClassicQueryAt(S, x, params, proof, q)
    ensures (forall q :: 0 <= q < params.r ==> ClassicFits(params, proof, q)) ==>
      !FirstFrom(ClassicVerdicts(S, x, proof), params.r, 0).Abort?
  {
    var verdicts := ClassicVerdicts(S, x, proof);
    forall q: nat | q < params.r
      ensures verdicts(q).Accept? <==> ClassicQueryAt(S, x, params, proof, q)
      ensures ClassicFits(params, proof, q) ==> !verdicts(q).Abort?
    {
      ClassicVerdictIs(S, x, params, proof, q);
    }
    FirstFromIs(verdicts, params.r, 0);
  }

  lemma QueriesVerdictIs<A, T>(S: Setup<A, T>, x: QueryContext<A, T>, params: Params, proof: Proof<A, T>)
    requires (x.n0 > 0 ==> ContextFits(x)) && x.schedule == params.schedule != [] && x.n0 == proof.n0 <= MAX_DOMAIN
    ensures QueriesVerdict(S, x, params, proof).Accept? <==> QueryPhaseOk(S, x, params, proof)
    ensures x.n0 > 0 && PathsFit(params, proof) ==> !QueriesVerdict(S, x, params, proof).Abort?
  {
    if x.n0 > 0 && params.stir && proof.stirProximityQueries.Some? {
      StirVerdictsAre(S, x, proof.stirProximityQueries.value);
    } else if x.n0 > 0 && !params.stir {
      ClassicVerdictsAre(S, x, params, proof);
    }
  }

  /** How `deep_fri_verify` ends: replaying the transcript can only stop it, the claims come next, the queries
      last. */
  ghost function Outcome<A, T>(S: Setup<A, T>, params: Params, proof: Proof<A, T>): Verdict {
    if !Replayable(S, params, proof) then Abort
    else
      var c := CommitmentsOf(params, proof);
      CommitmentsShape(S, params, proof);
      ClaimsVerdict(S, params, c, proof.coeffTuples)
        .Then(QueriesVerdict(S, ContextOf(S, params, c, proof.coeffTuples), params, proof))
  }

  /** The verdict accepts exactly what the relation describes, and a proof of the right shape never stops the
      verifier. */
  lemma OutcomeIs<A, T>(S: Setup<A, T>, params: Params, proof: Proof<A, T>)
    ensures Outcome(S, params, proof).Accept? <==> Accepts(S, params, proof)
    ensures WellShaped(S, params, proof) ==> !Outcome(S, params, proof).Abort?
  {
    if Replayable(S, params, proof) && proof.n0 <= MAX_DOMAIN {
      var c := CommitmentsOf(params, proof);
      CommitmentsShape(S, params, proof);
      FitSizes(proof.n0, params.schedule, |params.schedule|);
      ClaimsVerdictIs(S, params, c, proof.coeffTuples);
      QueriesVerdictIs(S, ContextOf(S, params, c, proof.coeffTuples), params, proof);
    }
  }
}
