/** The FRI/STIR protocol as relations: the transcript both sides replay, what the honest prover sends, and
    what the verifier accepts. */
module FriProtocol {
  import opened Arith
  import opened Rings
  import opened Polynomials
  import opened Folding
  import opened Domains
  import opened FriLayers
  import opened Hashing
  import opened Merkle
  import opened FriSetup

  // ---------- the replayed transcript ----------

  /** What one layer adds to the transcript: out-of-domain values (m coset values in STIR mode, the single
      f(z) otherwise), then the layer's root. */
  datatype LayerMsg<T> = LayerMsg(ood: seq<T>, root: Digest)

  datatype Commitments<T> = Commitments(n0: nat, rootF0: Digest, msgs: seq<LayerMsg<T>>, coeffRoot: Digest,
                                        final: seq<T>)

  function MsgItems<A, T>(S: Setup<A, T>, msg: LayerMsg<T>): Log { ExtItems(S, msg.ood) + [msg.root] }

  method AbsorbMsg<A, T>(tr: Transcript<A, T>, msg: LayerMsg<T>)
    modifies tr
    ensures tr.log == old(tr.log) + MsgItems(tr.S, msg)
  {
    tr.AbsorbAll(msg.ood);
    tr.AbsorbBytes(msg.root);
  }

  /** The log after the first i layers. */
  function LogAt<A, T>(S: Setup<A, T>, start: Log, msgs: seq<LayerMsg<T>>, i: nat): Log
    requires i <= |msgs|
  {
    if i == 0 then start else LogAt(S, start, msgs, i - 1) + MsgItems(S, msgs[i - 1])
  }

  function StartLog<A, T>(S: Setup<A, T>, params: Params, n0: nat, rootF0: Digest): Log {
    StatementItems(S, params, n0) + [rootF0]
  }

  function LayersLog<A, T>(S: Setup<A, T>, params: Params, c: Commitments<T>, i: nat): Log
    requires i <= |c.msgs|
  {
    LogAt(S, StartLog(S, params, c.n0, c.rootF0), c.msgs, i)
  }

  /** With a coefficient commitment its root follows the last layer. */
  function CommitLog<A, T>(S: Setup<A, T>, params: Params, c: Commitments<T>): Log {
    LayersLog(S, params, c, |c.msgs|) + if params.UsesCommit() then [c.coeffRoot] else []
  }

  function FirstZ<A, T>(S: Setup<A, T>, params: Params, n0: nat, rootF0: Digest): T {
    ChallengeExt(S, StartLog(S, params, n0, rootF0), "z_fp3")
  }

  /** The out-of-domain point of layer ell: z, z^m, z^(m m'), ... */
  function ZAt<T>(r: Ring<T>, z: T, schedule: seq<nat>, ell: nat): T
    requires ell <= |schedule|
  {
    if ell == 0 then z else Pow(r, ZAt(r, z, schedule, ell - 1), schedule[ell - 1])
  }

  /** Folding challenges are drawn before their layer, the committed last one after the coefficient root. */
  function AlphaAt<A, T>(S: Setup<A, T>, params: Params, c: Commitments<T>, ell: nat): T
    requires ell < |c.msgs|
  {
    ChallengeExt(S, if ell < params.NormalLayers() then LayersLog(S, params, c, ell) else CommitLog(S, params, c),
                 "alpha")
  }

  function BetaOf<A, T>(S: Setup<A, T>, params: Params, c: Commitments<T>): T {
    ChallengeExt(S, CommitLog(S, params, c), "beta_deg")
  }

  /** The whole transcript. */
  function SeedLog<A, T>(S: Setup<A, T>, params: Params, c: Commitments<T>): Log {
    CommitLog(S, params, c) + ExtItems(S, c.final)
  }

  function QuerySeed<A, T>(S: Setup<A, T>, params: Params, c: Commitments<T>): A {
    S.squeeze(SeedLog(S, params, c), "query_seed")
  }

  // ---------- query positions ----------

  /** Masked to the next power of two, then reduced to the domain. */
  function RawIndex<A, T>(S: Setup<A, T>, seed: A, q: nat, n0: nat): (i: nat)
    requires n0 > 0
    ensures i < n0
  {
    Rem(Rem(S.index(seed, q), NextPowerOfTwo(n0)), n0)
  }

  function IndexAt(raw: nat, n0: nat, schedule: seq<nat>, ell: nat): nat
    requires ell <= |schedule|
  {
    if ell == 0 then raw
    else if SizeAt(n0, schedule, ell) == 0 then 0
    else Rem(IndexAt(raw, n0, schedule, ell - 1), SizeAt(n0, schedule, ell))
  }

  // ---------- serialized leaves ----------

  function Encode<A, T>(S: Setup<A, T>, xs: seq<A>): seq<Byte> { Concat(FieldItems(S, xs)) }

  function StirLeaf<A, T>(S: Setup<A, T>, f: T): seq<Byte> { Encode(S, S.comps(f)) }

  function ClassicLeaf<A, T>(S: Setup<A, T>, f: T, s: T, q: T): seq<Byte> {
    Encode(S, S.comps(f) + S.comps(s) + S.comps(q))
  }

  function StirLeaves<A, T>(S: Setup<A, T>, word: seq<T>): (leaves: seq<seq<Byte>>)
    ensures |leaves| == |word|
  {
    seq(|word|, i requires 0 <= i < |word| => StirLeaf(S, word[i]))
  }

  function ClassicLeaves<A, T>(S: Setup<A, T>, word: seq<T>, s: seq<T>, q: seq<T>): (leaves: seq<seq<Byte>>)
    requires |word| == |s| == |q|
    ensures |leaves| == |word|
  {
    seq(|word|, i requires 0 <= i < |word| => ClassicLeaf(S, word[i], s[i], q[i]))
  }

  /** One leaf per fibre. */
  function PackedLeaves<A, T>(S: Setup<A, T>, f0: seq<A>, m: nat, q: nat): (leaves: seq<seq<Byte>>)
    requires |f0| == m * q
    ensures |leaves| == q
  {
    seq(q, b requires 0 <= b < q => Encode(S, Fibre(f0, m, q, b)))
  }

  function PlainLeaves<A, T>(S: Setup<A, T>, f0: seq<A>): (leaves: seq<seq<Byte>>)
    ensures |leaves| == |f0|
  {
    seq(|f0|, i requires 0 <= i < |f0| => Encode(S, [f0[i]]))
  }

  function TupleFields<A, T>(S: Setup<A, T>, tuple: seq<T>): seq<A> {
    if tuple == [] then [] else TupleFields(S, tuple[..|tuple| - 1]) + S.comps(tuple[|tuple| - 1])
  }

  function CoeffLeaves<A, T>(S: Setup<A, T>, tuples: seq<seq<T>>): (leaves: seq<seq<Byte>>)
    ensures |leaves| == |tuples|
  {
    seq(|tuples|, b requires 0 <= b < |tuples| => Encode(S, TupleFields(S, tuples[b])))
  }

  /** The tree over the base-field word: fibres packed in STIR mode, single values otherwise. */
  function F0Root<A, T>(S: Setup<A, T>, params: Params, f0: seq<A>, m: nat, q: nat): Digest
    requires |f0| == m * q
  {
    TreeRoot(S.hasher, 16, F0_LABEL, if params.stir then PackedLeaves(S, f0, m, q) else PlainLeaves(S, f0))
  }

  function F0Commitment<A, T>(S: Setup<A, T>, params: Params, f0: seq<A>): Digest
    requires GoodSchedule(|f0|, params.schedule)
  {
    assert LayerFits(|f0|, params.schedule, 0);
    F0Root(S, params, f0, params.schedule[0], SizeAt(|f0|, params.schedule, 1))
  }

  // ---------- the honest prover ----------

  /** The quotient (f(x) - f(z)) / (x - z) at domain point i. */
  function QuotientAt<T>(k: Field<T>, f: T, gen: T, z: T, fz: T, i: nat): T {
    k.ring.Mul(k.ring.Sub(f, fz), InverseOr(k, k.ring.Sub(Pow(k.ring, gen, i), z)))
  }

  function QValues<T>(k: Field<T>, word: seq<T>, gen: T, z: T, fz: T): (q: seq<T>)
    ensures |q| == |word|
  {
    seq(|word|, i requires 0 <= i < |word| => QuotientAt(k, word[i], gen, z, fz, i))
  }

  /** The folded value of every point's fibre. */
  function SValues<T>(folded: seq<T>, n: nat): (s: seq<T>)
    requires |folded| > 0
    ensures |s| == n
  {
    seq(n, i requires 0 <= i < n => folded[Rem(i, |folded|)])
  }

  /** What the honest prover computes in one layer: out-of-domain point and folding challenge, the word and the
      next one, fold values and quotients of the classic mode, and the message. */
  datatype Layer<T> = Layer(z: T, alpha: T, word: seq<T>, next: seq<T>, s: seq<T>, q: seq<T>, msg: LayerMsg<T>)

  ghost predicate SizesFit<A, T>(S: Setup<A, T>, params: Params, n0: nat, ell: nat, word: seq<T>)
    requires ell < |params.schedule|
  {
    var (m, n, half) := (params.schedule[ell], SizeAt(n0, params.schedule, ell), SizeAt(n0, params.schedule, ell + 1));
    |word| == n == m * half && half > 0 && S.domains(n).size == n
  }

  /** The out-of-domain values are the word's polynomial's, the root is that of the tree over its leaves. */
  ghost predicate MsgHonest<A, T>(S: Setup<A, T>, params: Params, n0: nat, ell: nat, z0: T, z: T, word: seq<T>,
                                  s: seq<T>, q: seq<T>, msg: LayerMsg<T>)
    requires ell < |params.schedule|
  {
    var (m, half, r) := (params.schedule[ell], SizeAt(n0, params.schedule, ell + 1), S.k.ring);
    var d := S.domains(SizeAt(n0, params.schedule, ell));
    if params.stir then
      && msg.ood == CosetValues(r, Ifft(r, d, word), z, Pow(r, d.gen, half), m)
      && msg.root == TreeRoot(S.hasher, m, ell, StirLeaves(S, word))
    else
      && msg.ood == [Eval(r, Ifft(r, d, word), z0)] && |s| == |word|
      && q == QValues(S.k, word, d.gen, z0, msg.ood[0])
      && msg.root == TreeRoot(S.hasher, m, ell, ClassicLeaves(S, word, s, q))
  }

  /** The next word is the fold of this one. */
  ghost predicate FoldHonest<A, T>(S: Setup<A, T>, params: Params, n0: nat, ell: nat, alpha: T, word: seq<T>,
                                   next: seq<T>)
    requires ell < |params.schedule| && SizesFit(S, params, n0, ell, word)
  {
    var (m, n, half) := (params.schedule[ell], SizeAt(n0, params.schedule, ell), SizeAt(n0, params.schedule, ell + 1));
    next == FoldTuples(S.k.ring, CosetTuples(S.k, word, S.domains(n).gen, m, half), alpha)
  }

  ghost predicate LayerHonest<A, T>(S: Setup<A, T>, params: Params, n0: nat, z0: T, ell: nat, y: Layer<T>)
    requires ell < |params.schedule|
  {
    && SizesFit(S, params, n0, ell, y.word) && FoldHonest(S, params, n0, ell, y.alpha, y.word, y.next)
    && MsgHonest(S, params, n0, ell, z0, y.z, y.word, y.s, y.q, y.msg)
    && (!params.stir && ell < params.NormalLayers() ==> |y.next| > 0 && y.s == SValues(y.next, |y.word|))
  }

  datatype Run<T> = Run(layers: seq<Layer<T>>, tuples: seq<seq<T>>, c: Commitments<T>)

  /** The word layer ell starts from. */
  function WordInto<T>(word0: seq<T>, layers: seq<Layer<T>>, ell: nat): seq<T>
    requires ell <= |layers|
  {
    if ell == 0 then word0 else layers[ell - 1].next
  }

  /** Layer ell starts from the fold of the one before and follows the transcript. */
  ghost predicate LayerLinked<A, T>(S: Setup<A, T>, params: Params, run: Run<T>, word0: seq<T>, ell: nat)
    requires ell < |params.schedule| == |run.layers| == |run.c.msgs|
  {
    var y := run.layers[ell];
    && y.msg == run.c.msgs[ell] && y.word == WordInto(word0, run.layers, ell)
    && y.alpha == AlphaAt(S, params, run.c, ell)
    && (params.stir ==> y.z == ZAt(S.k.ring, FirstZ(S, params, run.c.n0, run.c.rootF0), params.schedule, ell))
  }

  /** The committed coefficient tuples are those of the last layer. */
  ghost predicate CommitHonest<A, T>(S: Setup<A, T>, params: Params, n0: nat, word: seq<T>, tuples: seq<seq<T>>,
                                     root: Digest)
    requires params.UsesCommit() && SizesFit(S, params, n0, |params.schedule| - 1, word)
  {
    var last := |params.schedule| - 1;
    && tuples == CosetTuples(S.k, word, S.domains(|word|).gen, params.schedule[last],
                             SizeAt(n0, params.schedule, last + 1))
    && root == TreeRoot(S.hasher, 16, COEFF_LABEL, CoeffLeaves(S, tuples))
  }

  /** The coefficients sent in the clear: the first dFinal of the last word's polynomial. */
  function FinalCoeffs<T>(r: Ring<T>, d: Domain<T>, word: seq<T>, dFinal: nat): seq<T> {
    var all := Ifft(r, d, word);
    if dFinal < |all| then all[..dFinal] else all
  }

  ghost predicate RunShape<A, T>(S: Setup<A, T>, params: Params, f0: seq<A>, run: Run<T>) {
    && GoodSchedule(|f0|, params.schedule) && |run.layers| == |run.c.msgs| == |params.schedule| && run.c.n0 == |f0|
    && run.c.rootF0 == F0Commitment(S, params, f0) && (!params.UsesCommit() ==> run.c.coeffRoot == [])
  }

  ghost predicate LayerOfRun<A, T>(S: Setup<A, T>, params: Params, f0: seq<A>, run: Run<T>, ell: nat)
    requires ell < |params.schedule| == |run.layers| == |run.c.msgs|
  {
    && LayerHonest(S, params, |f0|, FirstZ(S, params, |f0|, run.c.rootF0), ell, run.layers[ell])
    && LayerLinked(S, params, run, Image(S.emb, f0), ell)
  }

  ghost predicate CommitOfRun<A, T>(S: Setup<A, T>, params: Params, f0: seq<A>, run: Run<T>)
    requires |params.schedule| == |run.layers|
  {
    var last := |params.schedule| - 1;
    params.UsesCommit() ==>
      && SizesFit(S, params, |f0|, last, run.layers[last].word)
      && CommitHonest(S, params, |f0|, run.layers[last].word, run.tuples, run.c.coeffRoot)
  }

  /** The layers of an honest run on the base-field word f0. */
  ghost predicate HonestLayers<A, T>(S: Setup<A, T>, params: Params, f0: seq<A>, run: Run<T>) {
    && RunShape(S, params, f0, run) && CommitOfRun(S, params, f0, run)
    && forall ell :: 0 <= ell < |params.schedule| ==> LayerOfRun(S, params, f0, run, ell)
  }

  /** A run of the honest prover on the base-field word f0. */
  ghost predicate HonestRun<A, T>(S: Setup<A, T>, params: Params, f0: seq<A>, run: Run<T>) {
    var L := |params.schedule|;
    && HonestLayers(S, params, f0, run)
    && run.c.final == FinalCoeffs(S.k.ring, S.domains(SizeAt(|f0|, params.schedule, L)), run.layers[L - 1].next,
                                  params.dFinal)
  }

  // ---------- the proof ----------

  datatype QueryRef = QueryRef(i: nat, childPos: nat, parentIndex: nat, parentPos: nat)

  datatype OpenPayload<T> = OpenPayload(fVal: T, sVal: T, qVal: T)

  datatype QueryPayload<T> = QueryPayload(refs: seq<QueryRef>, payloads: seq<OpenPayload<T>>, f0Opening: MerkleOpening,
                                          finalIndex: nat)

  datatype StirPayload<A, T> = StirPayload(baseIndex: nat, rawQueryIndex: nat, fiberIndices: seq<nat>,
                                           fiberFVals: seq<A>, f0PackedOpening: MerkleOpening, fNextVal: T,
                                           layer1Opening: Option<MerkleOpening>)

  datatype Proof<A, T> = Proof(
    rootF0: Digest, roots: seq<Digest>, layerOpenings: seq<seq<MerkleOpening>>, queries: seq<QueryPayload<T>>,
    fzPerLayer: seq<T>, finalPolyCoeffs: seq<T>, n0: nat, coeffTuples: Option<seq<seq<T>>>, coeffRoot: Option<Digest>,
    stirCosetEvals: Option<seq<seq<T>>>, stirProximityQueries: Option<seq<StirPayload<A, T>>>)

  /** The lists the verifier indexes without checking are long enough. */
  predicate CommitmentsFit<A, T>(params: Params, proof: Proof<A, T>) {
    var L := |params.schedule|;
    && |proof.roots| >= L && (params.UsesCommit() ==> proof.coeffRoot.Some?)
    && (params.stir ==>
        && proof.stirCosetEvals.Some? && |proof.stirCosetEvals.value| >= L
        && (forall ell :: 0 <= ell < L ==> OodListFits(params.schedule[ell], proof.stirCosetEvals.value[ell])))
    && (!params.stir ==> |proof.fzPerLayer| >= L)
  }

  /** A transform runs on powers of two only, and m entries of it are used. */
  predicate OodListFits<T>(m: nat, ood: seq<T>) { m <= |ood| && IsPowerOfTwo(|ood|) }

  function MsgOf<A, T>(params: Params, proof: Proof<A, T>, ell: nat): LayerMsg<T>
    requires ell < |proof.roots|
    requires params.stir ==> proof.stirCosetEvals.Some? && ell < |proof.stirCosetEvals.value|
    requires !params.stir ==> ell < |proof.fzPerLayer|
  {
    LayerMsg(if params.stir then proof.stirCosetEvals.value[ell] else [proof.fzPerLayer[ell]], proof.roots[ell])
  }

  /** What the verifier's transcript is fed from the proof. */
  function CommitmentsOf<A, T>(params: Params, proof: Proof<A, T>): (c: Commitments<T>)
    requires CommitmentsFit(params, proof)
    ensures |c.msgs| == |params.schedule|
  {
    var L := |params.schedule|;
    Commitments(proof.n0, proof.rootF0, seq(L, ell requires 0 <= ell < L => MsgOf(params, proof, ell)),
                if proof.coeffRoot.Some? then proof.coeffRoot.value else [], proof.finalPolyCoeffs)
  }

  // ---------- acceptance ----------

  function LayerConfig(params: Params, n0: nat, ell: nat): MerkleChannelCfg
    requires ell < |params.schedule|
  {
    TreeConfig(SizeAt(n0, params.schedule, ell), params.schedule[ell], ell)
  }

  /** The generator of layer ell's domain. */
  function OmegaAt<A, T>(S: Setup<A, T>, params: Params, n0: nat, ell: nat): T
    requires ell <= |params.schedule|
  {
    S.domains(SizeAt(n0, params.schedule, ell)).gen
  }

  /** The coefficients the verifier computes from the out-of-domain values of layer ell. */
  function OodInterpolant<A, T>(S: Setup<A, T>, params: Params, c: Commitments<T>, ell: nat): seq<T>
    requires ell < |params.schedule| == |c.msgs|
  {
    var zeta := Pow(S.k.ring, OmegaAt(S, params, c.n0, ell), SizeAt(c.n0, params.schedule, ell + 1));
    var z := ZAt(S.k.ring, FirstZ(S, params, c.n0, c.rootF0), params.schedule, ell);
    RawInterpolant(S.k.ring, c.msgs[ell].ood, params.schedule[ell], InversesOf(S.k, params.schedule[ell], zeta, z))
  }

  /** Folding at the out-of-domain point of layer ell meets the next layer, or the final polynomial. */
  ghost predicate OodFoldOk<A, T>(S: Setup<A, T>, params: Params, c: Commitments<T>, ell: nat)
    requires ell < |params.schedule| == |c.msgs| && forall i :: 0 <= i < |c.msgs| ==> |c.msgs[i].ood| > 0
  {
    var L := |params.schedule|;
    var z0 := FirstZ(S, params, c.n0, c.rootF0);
    Eval(S.k.ring, OodInterpolant(S, params, c, ell), AlphaAt(S, params, c, ell))
    == if ell + 1 < L then c.msgs[ell + 1].ood[0] else Eval(S.k.ring, c.final, ZAt(S.k.ring, z0, params.schedule, L))
  }

  /** Coefficient tuples of the right shape that hash to the committed root and pass the degree check. */
  ghost predicate TuplesOk<A, T>(S: Setup<A, T>, n: nat, m: nat, root: Digest, beta: T, dFinal: nat,
                                 tuples: Option<seq<seq<T>>>) {
    && tuples.Some? && |tuples.value| == n > 0
    && (forall b :: 0 <= b < n ==> |tuples.value[b]| == m)
    && TreeRoot(S.hasher, 16, COEFF_LABEL, CoeffLeaves(S, tuples.value)) == root
    && DegreeOk(S.k.ring, S.domains(n), FoldTuples(S.k.ring, tuples.value, beta), dFinal)
  }

  ghost predicate CoeffsOk<A, T>(S: Setup<A, T>, params: Params, c: Commitments<T>, tuples: Option<seq<seq<T>>>)
    requires params.UsesCommit() && |c.msgs| == |params.schedule|
  {
    var L := |params.schedule|;
    TuplesOk(S, SizeAt(c.n0, params.schedule, L), params.schedule[L - 1], c.coeffRoot, BetaOf(S, params, c),
             params.dFinal, tuples)
  }

  /** The value the final polynomial takes at point b of the last domain. */
  function FinalAt<A, T>(S: Setup<A, T>, n: nat, final: seq<T>, b: nat): T {
    Eval(S.k.ring, final, Pow(S.k.ring, S.domains(n).gen, b))
  }

  /** The coefficients interpolated from the fibre over position b of the first layer, at the first folding
      challenge. */
  function FibreFold<A, T>(S: Setup<A, T>, n0: nat, half: nat, alpha: T, b: nat, fibre: seq<A>): T {
    var (r, omega) := (S.k.ring, S.domains(n0).gen);
    var inv := InversesOf(S.k, |fibre|, Pow(r, omega, half), Pow(r, omega, b));
    Eval(r, RawInterpolant(r, Image(S.emb, fibre), |fibre|, inv), alpha)
  }

  /** The committed tuple b as a polynomial at x. */
  function TupleAt<A, T>(S: Setup<A, T>, tuples: seq<seq<T>>, b: nat, x: T): T {
    if b < |tuples| then Eval(S.k.ring, tuples[b], x) else S.k.ring.zero
  }

  /** What the query checks read, once the transcript has been replayed; the last three fields are the
      evaluations above at the proof's values. */
  datatype QueryContext<!A, !T> = QueryContext(
    n0: nat, schedule: seq<nat>, seed: A, z: T, lastAlpha: T, msgs: seq<LayerMsg<T>>, rootF0: Digest,
    commits: bool, fibreFold: (nat, seq<A>) -> T, finalAt: nat -> T, tupleAt: (nat, T) -> T)

  function ContextOf<A, T>(S: Setup<A, T>, params: Params, c: Commitments<T>,
                           tuples: Option<seq<seq<T>>>): QueryContext<A, T>
    requires c.msgs != [] && params.schedule != []
  {
    ContextWith(S, params, c, QuerySeed(S, params, c), FirstZ(S, params, c.n0, c.rootF0),
                AlphaAt(S, params, c, 0), AlphaAt(S, params, c, |c.msgs| - 1),
                if tuples.Some? then tuples.value else [])
  }

  /** The context from replayed challenges. */
  function ContextWith<A, T>(S: Setup<A, T>, params: Params, c: Commitments<T>, seed: A, z: T, alpha0: T, lastAlpha: T,
                             tuples: seq<seq<T>>): QueryContext<A, T>
    requires params.schedule != []
  {
    var (half, last) := (SizeAt(c.n0, params.schedule, 1), SizeAt(c.n0, params.schedule, |params.schedule|));
    QueryContext(c.n0, params.schedule, seed, z, lastAlpha, c.msgs, c.rootF0, params.UsesCommit(),
                 (b: nat, fibre: seq<A>) => FibreFold(S, c.n0, half, alpha0, b, fibre),
                 (b: nat) => FinalAt(S, last, c.final, b),
                 (b: nat, x: T) => TupleAt(S, tuples, b, x))
  }

  /** One message per layer, sizes that do not vanish. */
  ghost predicate ContextFits<A, T>(x: QueryContext<A, T>) {
    && x.schedule != [] && |x.msgs| == |x.schedule| && x.n0 > 0
    && SizeAt(x.n0, x.schedule, 1) > 0 && SizeAt(x.n0, x.schedule, |x.schedule|) > 0
    && (forall i :: 0 <= i < |x.msgs| ==> |x.msgs[i].ood| > 0)
  }

  /** b, b + half, b + 2 half, ... */
  function FibreIndices(b: nat, half: nat, m: nat): (indices: seq<nat>)
    ensures |indices| == m
  {
    if m == 0 then [] else FibreIndices(b, half, m - 1) + [b + (m - 1) * half]
  }

  /** The fibre of a STIR query sits where the seed says and is committed. */
  ghost predicate FibreOk<A, T>(S: Setup<A, T>, rootF0: Digest, m: nat, half: nat, raw: nat, pq: StirPayload<A, T>)
    requires half > 0
  {
    && pq.rawQueryIndex == raw && pq.baseIndex == Rem(raw, half)
    && |pq.fiberFVals| == m
    && pq.fiberIndices == FibreIndices(Rem(raw, half), half, m)
    && OpensTo(S.hasher, TreeConfig(half, 16, F0_LABEL), rootF0, pq.f0PackedOpening, Rem(raw, half),
               Encode(S, pq.fiberFVals))
  }

  /** A STIR proximity query: the fibre is committed, and folds to the committed next value, or to the final
      polynomial when there is only one layer. */
  ghost predicate StirQueryOk<A, T>(S: Setup<A, T>, x: QueryContext<A, T>, qi: nat, pq: StirPayload<A, T>)
    requires ContextFits(x)
  {
    var (m, half, raw) := (x.schedule[0], SizeAt(x.n0, x.schedule, 1), RawIndex(S, x.seed, qi, x.n0));
    var b := Rem(raw, half);
    && FibreOk(S, x.rootF0, m, half, raw, pq)
    && var fold := x.fibreFold(b, pq.fiberFVals);
       if |x.schedule| >= 2 then
         && pq.layer1Opening.Some? && fold == pq.fNextVal
         && OpensTo(S.hasher, TreeConfig(half, x.schedule[1], 1), x.msgs[1].root, pq.layer1Opening.value, b,
                    StirLeaf(S, pq.fNextVal))
       else fold == x.finalAt(b)
  }

  /** The DEEP identity q (x - z) = f - f(z) at an opened leaf. */
  ghost predicate DeepOk<A, T>(S: Setup<A, T>, cfg: MerkleChannelCfg, msg: LayerMsg<T>, point: T, z: T,
                               opening: MerkleOpening, i: nat, pay: OpenPayload<T>)
    requires |msg.ood| > 0
  {
    && OpensTo(S.hasher, cfg, msg.root, opening, i, ClassicLeaf(S, pay.fVal, pay.sVal, pay.qVal))
    && S.k.ring.Mul(pay.qVal, S.k.ring.Sub(point, z)) == S.k.ring.Sub(pay.fVal, msg.ood[0])
  }

  /** The opened value folds to the next layer's, or to the final polynomial; a committed last layer goes
      through its coefficient tuple. */
  ghost predicate FoldOk<A, T>(x: QueryContext<A, T>, qp: QueryPayload<T>, ell: nat, point: T)
    requires ell < |x.schedule| && |qp.payloads| >= |x.schedule|
  {
    if x.commits && ell == |x.schedule| - 1 then
      && qp.payloads[ell].fVal == x.tupleAt(qp.finalIndex, point)
      && x.tupleAt(qp.finalIndex, x.lastAlpha) == x.finalAt(qp.finalIndex)
    else qp.payloads[ell].sVal == if ell + 1 < |x.schedule| then qp.payloads[ell + 1].fVal else x.finalAt(qp.finalIndex)
  }

  /** One layer of a classic query. */
  ghost predicate ClassicLayerOk<A, T>(S: Setup<A, T>, x: QueryContext<A, T>, opening: MerkleOpening,
                                       qp: QueryPayload<T>, ell: nat)
    requires ContextFits(x) && ell < |x.schedule|
    requires |qp.refs| >= |x.schedule| && |qp.payloads| >= |x.schedule|
  {
    var n := SizeAt(x.n0, x.schedule, ell);
    var point := Pow(S.k.ring, S.domains(n).gen, qp.refs[ell].i);
    && DeepOk(S, TreeConfig(n, x.schedule[ell], ell), x.msgs[ell], point, x.z, opening, qp.refs[ell].i,
              qp.payloads[ell])
    && FoldOk(x, qp, ell, point)
  }

  ghost predicate PositionAt<T>(raw: nat, n0: nat, schedule: seq<nat>, qp: QueryPayload<T>, ell: nat)
    requires |qp.refs| >= |schedule| > ell
  {
    qp.refs[ell].i == IndexAt(raw, n0, schedule, ell)
  }

  /** The positions of a query follow from the seed. */
  ghost predicate PositionsOk<T>(raw: nat, n0: nat, schedule: seq<nat>, qp: QueryPayload<T>)
    requires |qp.refs| >= |schedule|
  {
    && (forall ell :: 0 <= ell < |schedule| ==> PositionAt(raw, n0, schedule, qp, ell))
    && qp.finalIndex == IndexAt(raw, n0, schedule, |schedule|)
  }

  /** The first value is a committed ground-field element. */
  ghost predicate BaseValueOk<A, T>(S: Setup<A, T>, n0: nat, rootF0: Digest, index: nat, f0Opening: MerkleOpening,
                                    fVal: T) {
    && |S.comps(fVal)| > 0 && (forall j :: 0 < j < |S.comps(fVal)| ==> S.comps(fVal)[j] == S.fromU64(0))
    && OpensTo(S.hasher, TreeConfig(n0, 16, F0_LABEL), rootF0, f0Opening, index, Encode(S, [S.comps(fVal)[0]]))
  }

  lemma IndexBelow(raw: nat, n0: nat, schedule: seq<nat>, ell: nat)
    requires ell <= |schedule| && raw < n0 && SizeAt(n0, schedule, ell) > 0
    ensures IndexAt(raw, n0, schedule, ell) < SizeAt(n0, schedule, ell)
  {
  }

  /** A classic query: its payloads and, layer by layer, its openings. */
  ghost predicate ClassicQueryOk<A, T>(S: Setup<A, T>, x: QueryContext<A, T>, qp: QueryPayload<T>,
                                       openings: seq<MerkleOpening>, q: nat)
    requires ContextFits(x) && |qp.refs| >= |x.schedule| && |qp.payloads| >= |x.schedule| && |openings| == |x.schedule|
  {
    var raw := RawIndex(S, x.seed, q, x.n0);
    && PositionsOk(raw, x.n0, x.schedule, qp)
    && BaseValueOk(S, x.n0, x.rootF0, qp.refs[0].i, qp.f0Opening, qp.payloads[0].fVal)
    && forall ell :: 0 <= ell < |x.schedule| ==> ClassicLayerOk(S, x, openings[ell], qp, ell)
  }

  predicate QueriesFit<A, T>(params: Params, proof: Proof<A, T>, q: nat) {
    var L := |params.schedule|;
    && q < |proof.queries| && |proof.queries[q].refs| >= L && |proof.queries[q].payloads| >= L
    && |proof.layerOpenings| >= L && forall ell :: 0 <= ell < L ==> q < |proof.layerOpenings[ell]|
  }

  /** The openings of query q, one per layer. */
  function OpeningsOf<A, T>(params: Params, proof: Proof<A, T>, q: nat): (openings: seq<MerkleOpening>)
    requires QueriesFit(params, proof, q)
    ensures |openings| == |params.schedule|
  {
    seq(|params.schedule|, ell requires 0 <= ell < |params.schedule| => proof.layerOpenings[ell][q])
  }

  // ---------- the honest proof ----------

  /** The layer the STIR queries open beside the first word. */
  datatype SecondLayer<T> = SecondLayer(word: seq<T>, arity: nat, root: Digest)

  function SecondOf<T>(params: Params, run: Run<T>): Option<SecondLayer<T>>
    requires |run.layers| == |run.c.msgs| == |params.schedule|
  {
    if |params.schedule| >= 2 then Some(SecondLayer(run.layers[1].word, params.schedule[1], run.c.msgs[1].root))
        else None
  }

  /** The payload of a STIR query: the committed fibre of f0, and the second layer's value over it. */
  ghost predicate StirHonest<A, T>(S: Setup<A, T>, f0: seq<A>, rootF0: Digest, m: nat, half: nat,
                                   second: Option<SecondLayer<T>>, raw: nat, pq: StirPayload<A, T>)
    requires |f0| == m * half && half > 0
  {
    var b := Rem(raw, half);
    && FibreOk(S, rootF0, m, half, raw, pq) && pq.fiberFVals == Fibre(f0, m, half, b)
    && (second.Some? ==>
      && pq.layer1Opening.Some?
      && SecondOpened(S, half, second.value, b, pq.fNextVal, pq.layer1Opening.value))
  }

  ghost predicate SecondOpened<A, T>(S: Setup<A, T>, half: nat, y: SecondLayer<T>, b: nat, value: T, o: MerkleOpening) {
    && b < |y.word| && value == y.word[b]
    && OpensTo(S.hasher, TreeConfig(half, y.arity, 1), y.root, o, b, StirLeaf(S, value))
  }

  /** Values of a layer at a position, with their opening. */
  ghost predicate PayloadHonest<A, T>(S: Setup<A, T>, cfg: MerkleChannelCfg, y: Layer<T>, i: nat, pay: OpenPayload<T>,
                                      o: MerkleOpening) {
    && i < |y.word| == |y.s| == |y.q| && pay == OpenPayload(y.word[i], y.s[i], y.q[i])
    && OpensTo(S.hasher, cfg, y.msg.root, o, i, ClassicLeaf(S, pay.fVal, pay.sVal, pay.qVal))
  }

  /** The position within its group of m and the position in the next layer that a reference names. */
  ghost predicate RefPlaced<T>(qp: QueryPayload<T>, schedule: seq<nat>, ell: nat)
    requires ell < |schedule| == |qp.refs|
  {
    var ref := qp.refs[ell];
    && ref.childPos < schedule[ell] && ref.childPos <= ref.i && Divides(schedule[ell], ref.i - ref.childPos)
    && ref.parentIndex == (if ell + 1 < |schedule| then qp.refs[ell + 1].i else qp.finalIndex) && ref.parentPos == 0
  }

  ghost predicate RefsPlaced<T>(qp: QueryPayload<T>, schedule: seq<nat>)
    requires |schedule| == |qp.refs|
  {
    forall ell :: 0 <= ell < |schedule| ==> RefPlaced(qp, schedule, ell)
  }

  /** The payload of a classic query. */
  ghost predicate ClassicHonest<A, T>(S: Setup<A, T>, params: Params, f0: seq<A>, run: Run<T>, raw: nat,
                                      qp: QueryPayload<T>, openings: seq<MerkleOpening>)
    requires |run.layers| == |params.schedule| == |openings|
  {
    && |qp.refs| == |qp.payloads| == |params.schedule| && PositionsOk(raw, |f0|, params.schedule, qp)
    && RefsPlaced(qp, params.schedule)
    && raw < |f0| && OpensTo(S.hasher, TreeConfig(|f0|, 16, F0_LABEL), run.c.rootF0, qp.f0Opening, raw,
                             Encode(S, [f0[raw]]))
    && forall ell :: 0 <= ell < |params.schedule| ==>
         PayloadHonest(S, LayerConfig(params, |f0|, ell), run.layers[ell], qp.refs[ell].i, qp.payloads[ell],
                       openings[ell])
  }

  ghost predicate QueriesHonest<A, T>(S: Setup<A, T>, params: Params, f0: seq<A>, run: Run<T>, proof: Proof<A, T>)
    requires RunShape(S, params, f0, run)
  {
    var (n0, seed) := (|f0|, QuerySeed(S, params, run.c));
    assert LayerFits(n0, params.schedule, 0);
    if params.stir then
      && proof.stirProximityQueries.Some? && |proof.stirProximityQueries.value| == params.s0
      && forall qi :: 0 <= qi < params.s0 ==>
           StirHonest(S, f0, run.c.rootF0, params.schedule[0], SizeAt(n0, params.schedule, 1), SecondOf(params, run),
                      RawIndex(S, seed, qi, n0), proof.stirProximityQueries.value[qi])
    else
      forall q :: 0 <= q < params.r ==>
        QueriesFit(params, proof, q)
            && ClassicHonest(S, params, f0, run, RawIndex(S, seed, q, n0), proof.queries[q],
                             OpeningsOf(params, proof, q))
  }

  /** The proof of an honest run. */
  ghost predicate HonestProof<A, T>(S: Setup<A, T>, params: Params, f0: seq<A>, run: Run<T>, proof: Proof<A, T>) {
    && HonestRun(S, params, f0, run) && CommitmentsFit(params, proof) && CommitmentsOf(params, proof) == run.c
    && (params.UsesCommit() ==> proof.coeffTuples == Some(run.tuples))
    && QueriesHonest(S, params, f0, run, proof)
  }
}
