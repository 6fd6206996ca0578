/** `deep_fri_verify`: the loops with their early exits end as the verdict on the proof says. */
module FriVerifier {
  import opened Arith
  import opened Rings
  import opened Polynomials
  import opened Domains
  import opened ExtTransform
  import opened FriLayers
  import opened Hashing
  import opened Merkle
  import opened MerkleChannel
  import opened FriSetup
  import opened FriProtocol
  import opened FriAcceptance
  import opened FriPositions

  // ---------- replaying the transcript ----------

  lemma PointNonZero<T(!new)>(k: Field<T>, z: T, schedule: seq<nat>, ell: nat)
    requires IsField(k) && z != k.ring.zero && ell <= |schedule|
    ensures ZAt(k.ring, z, schedule, ell) != k.ring.zero
  {
    if ell > 0 {
      PointNonZero(k, z, schedule, ell - 1);
      PowNonZero(k, ZAt(k.ring, z, schedule, ell - 1), schedule[ell - 1]);
    }
  }

  /** Every inversion a coset interpolation unwraps succeeds, on domains of any size. */
  lemma CosetReady<A(!new), T(!new)>(S: Setup<A, T>, n: nat, m: nat, e: nat, shift: T)
    requires ValidSetup(S) && n <= MAX_DOMAIN && IsPowerOfTwo(m) && shift != S.k.ring.zero
    ensures CanInterpolate(S.k, m, Pow(S.k.ring, S.domains(n).gen, e), shift)
    ensures Pow(S.k.ring, S.domains(n).gen, e) != S.k.ring.zero
  {
    DomainOfAny(S, n);
    PowerInvertible(S, m);
    DomainPowerNonZero(S.k, S.domains(n), e);
    InvertDefined(S.k, Pow(S.k.ring, S.domains(n).gen, e));
    InvertDefined(S.k, shift);
  }

  /** One layer's share of the replay: interpolate its out-of-domain values, move the point, absorb. */
  method ReplayLayer<A(!new), T(!new, ==)>(S: Setup<A, T>, params: Params, c: Commitments<T>, tr: Transcript<A, T>,
                                           sizes: seq<nat>, ell: nat, zEll: T)
    returns (interp: seq<T>, zNext: T)
    requires ValidSetup(S) && FitSchedule(c.n0, params.schedule) && ell < |params.schedule| == |c.msgs| && tr.S == S
    requires SizesOf(c.n0, params.schedule, sizes)
    requires zEll == ZAt(S.k.ring, FirstZ(S, params, c.n0, c.rootF0), params.schedule, ell)
    requires params.stir ==> zEll != S.k.ring.zero && OodListFits(params.schedule[ell], c.msgs[ell].ood)
    modifies tr
    ensures tr.log == old(tr.log) + MsgItems(S, c.msgs[ell])
    ensures params.stir ==> interp == OodInterpolant(S, params, c, ell)
    ensures params.stir ==> zNext == ZAt(S.k.ring, FirstZ(S, params, c.n0, c.rootF0), params.schedule, ell + 1)
  {
    interp, zNext := [], zEll;
    if params.stir {
      var m, d := params.schedule[ell], S.domains(sizes[ell]);
      var half := sizes[ell] / m;
      assert half == SizeAt(c.n0, params.schedule, ell + 1);
      var zeta := ExtPow(S.k.ring, d.gen, half);
      FitSizes(c.n0, params.schedule, ell);
      CosetReady(S, sizes[ell], m, half, zEll);
      interp := InterpolateStirCoset(S.k, c.msgs[ell].ood, zEll, zeta, m);
      zNext := ExtPow(S.k.ring, zEll, m);
    }
    AbsorbMsg(tr, c.msgs[ell]);
  }

  ghost predicate AlphasOf<A, T>(S: Setup<A, T>, params: Params, c: Commitments<T>, alphas: seq<T>) {
    |alphas| <= |c.msgs| && forall ell :: 0 <= ell < |alphas| ==> alphas[ell] == AlphaAt(S, params, c, ell)
  }

  ghost predicate InterpsOf<A, T>(S: Setup<A, T>, params: Params, c: Commitments<T>, interps: seq<seq<T>>)
    requires |c.msgs| == |params.schedule|
  {
    |interps| <= |c.msgs| && forall ell :: 0 <= ell < |interps| ==> interps[ell] == OodInterpolant(S, params, c, ell)
  }

  ghost predicate SizesOf(n0: nat, schedule: seq<nat>, sizes: seq<nat>) {
    |sizes| == |schedule| + 1 && forall i :: 0 <= i <= |schedule| ==> sizes[i] == SizeAt(n0, schedule, i)
  }

  /** The layers of the transcript, with the last one's challenges after the coefficient root when there is one. */
  method ReplayLayers<A(!new), T(!new, ==)>(S: Setup<A, T>, params: Params, c: Commitments<T>, tr: Transcript<A, T>,
                                            sizes: seq<nat>, z: T)
    returns (alphas: seq<T>, beta: Option<T>, interps: seq<seq<T>>)
    requires ValidSetup(S) && ReplayFits(params, c.n0) && |c.msgs| == |params.schedule| && tr.S == S
    requires SizesOf(c.n0, params.schedule, sizes)
    requires z == FirstZ(S, params, c.n0, c.rootF0) && tr.log == StartLog(S, params, c.n0, c.rootF0)
    requires params.stir ==> z != S.k.ring.zero && OodListsFit(params, c)
    modifies tr
    ensures tr.log == CommitLog(S, params, c)
    ensures |alphas| == |params.schedule| && AlphasOf(S, params, c, alphas)
    ensures params.UsesCommit() ==> beta == Some(BetaOf(S, params, c))
    ensures params.stir ==> |interps| == |params.schedule| && InterpsOf(S, params, c, interps)
  {
    var zCurrent;
    alphas, interps, zCurrent := ReplayNormal(S, params, c, tr, sizes, z);
    beta := None;
    if params.UsesCommit() {
      var alpha, interp, b := ReplayCommit(S, params, c, tr, sizes, z, zCurrent);
      ExtendAlphas(S, params, c, alphas, alpha);
      if params.stir {
        ExtendInterps(S, params, c, interps, interp);
      }
      alphas, interps, beta := alphas + [alpha], interps + [interp], Some(b);
    }
  }

  method ReplayNormal<A(!new), T(!new, ==)>(S: Setup<A, T>, params: Params, c: Commitments<T>, tr: Transcript<A, T>,
                                            sizes: seq<nat>, z: T)
    returns (alphas: seq<T>, interps: seq<seq<T>>, zCurrent: T)
    requires ValidSetup(S) && ReplayFits(params, c.n0) && |c.msgs| == |params.schedule| && tr.S == S
    requires SizesOf(c.n0, params.schedule, sizes)
    requires z == FirstZ(S, params, c.n0, c.rootF0) && tr.log == StartLog(S, params, c.n0, c.rootF0)
    requires params.stir ==> z != S.k.ring.zero && OodListsFit(params, c)
    modifies tr
    ensures tr.log == LayersLog(S, params, c, params.NormalLayers())
    ensures |alphas| == params.NormalLayers() && AlphasOf(S, params, c, alphas)
    ensures params.stir ==> |interps| == params.NormalLayers() && InterpsOf(S, params, c, interps)
    ensures zCurrent == if params.stir then ZAt(S.k.ring, z, params.schedule, params.NormalLayers()) else z
  {
    alphas, interps, zCurrent := [], [], z;
    for ell := 0 to params.NormalLayers()
      invariant Replayed(S, params, c, tr.log, z, ell, alphas, interps, zCurrent)
    {
      alphas, interps, zCurrent := ReplayNext(S, params, c, tr, sizes, ell, z, alphas, interps, zCurrent);
    }
  }

  /** The state of the replay after some normal layers. */
  ghost predicate Replayed<A, T>(S: Setup<A, T>, params: Params, c: Commitments<T>, log: Log, z: T, ell: nat,
                                 alphas: seq<T>, interps: seq<seq<T>>, zCurrent: T) {
    && ell <= |c.msgs| == |params.schedule| && log == LayersLog(S, params, c, ell)
    && zCurrent == (if params.stir then ZAt(S.k.ring, z, params.schedule, ell) else z)
    && |alphas| == ell && AlphasOf(S, params, c, alphas)
    && (params.stir ==> |interps| == ell && InterpsOf(S, params, c, interps))
  }

  method ReplayNext<A(!new), T(!new, ==)>(S: Setup<A, T>, params: Params, c: Commitments<T>, tr: Transcript<A, T>,
                                          sizes: seq<nat>, ell: nat, z: T,
                                          alphas: seq<T>, interps: seq<seq<T>>, zEll: T)
    returns (moreAlphas: seq<T>, moreInterps: seq<seq<T>>, zNext: T)
    requires ValidSetup(S) && ReplayFits(params, c.n0) && |c.msgs| == |params.schedule| && tr.S == S
    requires SizesOf(c.n0, params.schedule, sizes) && ell < params.NormalLayers()
    requires z == FirstZ(S, params, c.n0, c.rootF0) && Replayed(S, params, c, tr.log, z, ell, alphas, interps, zEll)
    requires params.stir ==> z != S.k.ring.zero && OodListsFit(params, c)
    modifies tr
    ensures Replayed(S, params, c, tr.log, z, ell + 1, moreAlphas, moreInterps, zNext)
  {
    var alpha, interp;
    alpha, interp, zNext := ReplayOne(S, params, c, tr, sizes, ell, z, zEll);
    moreAlphas, moreInterps := alphas + [alpha], interps + [interp];
    ExtendAlphas(S, params, c, alphas, alpha);
    if params.stir {
      ExtendInterps(S, params, c, interps, interp);
    }
  }

  lemma ExtendAlphas<A, T>(S: Setup<A, T>, params: Params, c: Commitments<T>, alphas: seq<T>, alpha: T)
    requires AlphasOf(S, params, c, alphas) && |alphas| < |c.msgs| && alpha == AlphaAt(S, params, c, |alphas|)
    ensures AlphasOf(S, params, c, alphas + [alpha])
  {
    var more := alphas + [alpha];
    forall ell: nat | ell < |more|
      ensures more[ell] == AlphaAt(S, params, c, ell)
    {
      assert ell < |alphas| ==> more[ell] == alphas[ell];
    }
  }

  lemma ExtendInterps<A, T>(S: Setup<A, T>, params: Params, c: Commitments<T>, interps: seq<seq<T>>, interp: seq<T>)
    requires |c.msgs| == |params.schedule| && InterpsOf(S, params, c, interps) && |interps| < |c.msgs|
    requires interp == OodInterpolant(S, params, c, |interps|)
    ensures InterpsOf(S, params, c, interps + [interp])
  {
  }

  /** A normal layer: draw its challenge, then absorb it. */
  method ReplayOne<A(!new), T(!new, ==)>(S: Setup<A, T>, params: Params, c: Commitments<T>, tr: Transcript<A, T>,
                                         sizes: seq<nat>, ell: nat, z: T, zEll: T)
    returns (alpha: T, interp: seq<T>, zNext: T)
    requires ValidSetup(S) && ReplayFits(params, c.n0) && |c.msgs| == |params.schedule| && tr.S == S
    requires SizesOf(c.n0, params.schedule, sizes) && ell < params.NormalLayers()
    requires z == FirstZ(S, params, c.n0, c.rootF0) && tr.log == LayersLog(S, params, c, ell)
    requires params.stir ==> z != S.k.ring.zero && OodListsFit(params, c)
    requires zEll == if params.stir then ZAt(S.k.ring, z, params.schedule, ell) else z
    modifies tr
    ensures tr.log == LayersLog(S, params, c, ell + 1) && alpha == AlphaAt(S, params, c, ell)
    ensures params.stir ==> interp == OodInterpolant(S, params, c, ell)
    ensures zNext == if params.stir then ZAt(S.k.ring, z, params.schedule, ell + 1) else z
  {
    alpha := tr.Challenge("alpha");
    interp, zNext := ReplayStep(S, params, c, tr, sizes, ell, z, zEll);
  }

  method ReplayCommit<A(!new), T(!new, ==)>(S: Setup<A, T>, params: Params, c: Commitments<T>, tr: Transcript<A, T>,
                                            sizes: seq<nat>, z: T, zEll: T)
    returns (alpha: T, interp: seq<T>, beta: T)
    requires ValidSetup(S) && ReplayFits(params, c.n0) && |c.msgs| == |params.schedule| && tr.S == S
    requires SizesOf(c.n0, params.schedule, sizes) && params.UsesCommit()
    requires z == FirstZ(S, params, c.n0, c.rootF0) && tr.log == LayersLog(S, params, c, |params.schedule| - 1)
    requires params.stir ==>
      && z != S.k.ring.zero
      && OodListFits(params.schedule[|params.schedule| - 1], c.msgs[|params.schedule| - 1].ood)
    requires zEll == if params.stir then ZAt(S.k.ring, z, params.schedule, |params.schedule| - 1) else z
    modifies tr
    ensures tr.log == CommitLog(S, params, c)
    ensures alpha == AlphaAt(S, params, c, |params.schedule| - 1) && beta == BetaOf(S, params, c)
    ensures params.stir ==> interp == OodInterpolant(S, params, c, |params.schedule| - 1)
  {
    var zNext;
    interp, zNext := ReplayStep(S, params, c, tr, sizes, |params.schedule| - 1, z, zEll);
    tr.AbsorbBytes(c.coeffRoot);
    assert tr.log == CommitLog(S, params, c);
    alpha := tr.Challenge("alpha");
    beta := tr.Challenge("beta_deg");
  }

  /** A layer in either mode; the classic mode keeps its point. */
  method ReplayStep<A(!new), T(!new, ==)>(S: Setup<A, T>, params: Params, c: Commitments<T>, tr: Transcript<A, T>,
                                          sizes: seq<nat>, ell: nat, z: T, zEll: T)
    returns (interp: seq<T>, zNext: T)
    requires ValidSetup(S) && ReplayFits(params, c.n0) && ell < |params.schedule| == |c.msgs| && tr.S == S
    requires SizesOf(c.n0, params.schedule, sizes)
    requires z == FirstZ(S, params, c.n0, c.rootF0)
    requires params.stir ==>
      && z != S.k.ring.zero && zEll == ZAt(S.k.ring, z, params.schedule, ell)
      && OodListFits(params.schedule[ell], c.msgs[ell].ood)
    requires !params.stir ==> zEll == z
    modifies tr
    ensures tr.log == old(tr.log) + MsgItems(S, c.msgs[ell])
    ensures params.stir ==>
      && interp == OodInterpolant(S, params, c, ell)
      && zNext == ZAt(S.k.ring, z, params.schedule, ell + 1)
    ensures !params.stir ==> zNext == z
  {
    if params.stir {
      PointNonZero(S.k, z, params.schedule, ell);
      interp, zNext := ReplayLayer(S, params, c, tr, sizes, ell, zEll);
    } else {
      interp, zNext := [], z;
      AbsorbMsg(tr, c.msgs[ell]);
    }
  }

  // ---------- the checks ----------

  method CheckOodFolds<A(!new), T(!new, ==)>(S: Setup<A, T>, params: Params, c: Commitments<T>, z: T, alphas: seq<T>,
                                             interps: seq<seq<T>>)
    returns (w: Verdict)
    requires IsRing(S.k.ring) && |c.msgs| == |params.schedule| && OodFits(c) && z == FirstZ(S, params, c.n0, c.rootF0)
    requires |alphas| == |params.schedule| && AlphasOf(S, params, c, alphas)
    requires |interps| == |params.schedule| && InterpsOf(S, params, c, interps)
    ensures w == OodVerdict(S, params, c)
  {
    ghost var verdicts := OodVerdicts(S, params, c);
    for ell := 0 to |params.schedule|
      invariant OodVerdict(S, params, c) == FirstFrom(verdicts, |params.schedule|, ell)
    {
      w := CheckOodFold(S, params, c, z, ell, alphas, interps);
      if !w.Accept? {
        return;
      }
    }
    w := Accept;
  }

  method CheckOodFold<A(!new), T(!new, ==)>(S: Setup<A, T>, params: Params, c: Commitments<T>, z: T, ell: nat,
                                            alphas: seq<T>, interps: seq<seq<T>>)
    returns (w: Verdict)
    requires IsRing(S.k.ring) && |c.msgs| == |params.schedule| && OodFits(c) && z == FirstZ(S, params, c.n0, c.rootF0)
    requires |alphas| == |params.schedule| && AlphasOf(S, params, c, alphas)
    requires |interps| == |params.schedule| && InterpsOf(S, params, c, interps) && ell < |params.schedule|
    ensures w == OodVerdicts(S, params, c)(ell)
    ensures w.Accept? <==> OodFoldOk(S, params, c, ell)
  {
    var L := |params.schedule|;
    var pows := BuildPows(S.k.ring, alphas[ell], |interps[ell]|);
    var fold := DotPowers(S.k.ring, interps[ell], alphas[ell], pows);
    var expected;
    if ell + 1 < L {
      expected := c.msgs[ell + 1].ood[0];
    } else {
      var zFinal := LastPoint(S.k.ring, z, params.schedule);
      expected := Horner(S.k.ring, c.final, zFinal);
    }
    w := VerdictOf(fold == expected);
  }

  method LastPoint<T(!new)>(r: Ring<T>, z: T, schedule: seq<nat>) returns (zFinal: T)
    requires IsRing(r)
    ensures zFinal == ZAt(r, z, schedule, |schedule|)
  {
    zFinal := z;
    for i := 0 to |schedule|
      invariant zFinal == ZAt(r, z, schedule, i)
    {
      zFinal := ExtPow(r, zFinal, schedule[i]);
    }
  }

  method CheckCoeffs<A(!new, ==), T(!new)>(S: Setup<A, T>, n: nat, m: nat, root: Digest, beta: T, dFinal: nat,
                                           tuples: Option<seq<seq<T>>>)
    returns (w: Verdict)
    requires IsBasis(S.k.ring, BasisOf(S)) && DomainEmbeds(S, n)
    requires n <= MAX_DOMAIN ==> ValidDomain(S.k.ring, S.domains(n)) && n <= S.domains(n).size
    ensures w == CoeffsVerdict(S, n, m, root, beta, dFinal, tuples)
  {
    if tuples.None? || |tuples.value| != n {
      return Reject;
    }
    var widths := CheckWidths(tuples.value, m);
    if !widths {
      return Reject;
    }
    if n == 0 {
      return Abort;
    }
    w := CheckTuples(S, tuples.value, root, beta, dFinal);
  }

  /** The recomputed root and the degree check. */
  method CheckTuples<A(!new, ==), T(!new)>(S: Setup<A, T>, tuples: seq<seq<T>>, root: Digest, beta: T, dFinal: nat)
    returns (w: Verdict)
    requires IsBasis(S.k.ring, BasisOf(S)) && DomainEmbeds(S, |tuples|) && tuples != []
    requires |tuples| <= MAX_DOMAIN ==>
      ValidDomain(S.k.ring, S.domains(|tuples|)) && |tuples| <= S.domains(|tuples|).size
    requires forall b :: 0 <= b < |tuples| ==> |tuples[b]| == |tuples[0]|
    ensures w == TuplesVerdict(S, tuples, root, beta, dFinal)
    ensures |tuples| <= MAX_DOMAIN && |tuples| == S.domains(|tuples|).size ==>
      w == VerdictOf(TreeRoot(S.hasher, 16, COEFF_LABEL, CoeffLeaves(S, tuples)) == root
                     && LowDegree(S.k.ring, S.domains(|tuples|), FoldTuples(S.k.ring, tuples, beta), dFinal))
  {
    var tree, recomputed := BuildTree(S.hasher, 16, COEFF_LABEL, CoeffLeaves(S, tuples));
    if recomputed != root {
      return Reject;
    }
    var n := |tuples|;
    if n > MAX_DOMAIN {
      return Abort;
    }
    var ok := BatchedDegreeCheck(S.k.ring, BasisOf(S), S.groundDomains(n), tuples, beta, dFinal, S.domains(n));
    w := VerdictOf(ok);
  }

  method CheckWidths<T>(tuples: seq<seq<T>>, m: nat) returns (ok: bool)
    ensures ok <==> forall b :: 0 <= b < |tuples| ==> |tuples[b]| == m
  {
    for b := 0 to |tuples|
      invariant forall i :: 0 <= i < b ==> |tuples[i]| == m
    {
      if |tuples[b]| != m {
        return false;
      }
    }
    ok := true;
  }

  /** Merkle check, index check and leaf binding. */
  method CheckOpening(h: Hasher, cfg: MerkleChannelCfg, root: Digest, o: MerkleOpening, index: nat, value: seq<Byte>)
    returns (w: Verdict)
    requires cfg.layerArities != []
    ensures w == OpensVerdict(h, cfg, root, o, index, value)
  {
    w := MerkleTreeChannel.VerifyOpening(h, cfg, root, o);
    if w.Accept? {
      w := VerdictOf(o.index == index && LeafHash(h, cfg, o.index, value) == o.leaf);
    }
  }

  /** The fibre folded by the first challenge. */
  method FoldFibre<A(!new), T(!new, ==)>(S: Setup<A, T>, fibre: seq<A>, n0: nat, half: nat, b: nat, alpha: T)
    returns (fold: T)
    requires ValidSetup(S) && n0 <= MAX_DOMAIN && IsPowerOfTwo(|fibre|)
    ensures fold == FibreFold(S, n0, half, alpha, b, fibre)
  {
    var r, m, d := S.k.ring, |fibre|, S.domains(n0);
    var zeta := ExtPow(r, d.gen, half);
    var omegaB := ExtPow(r, d.gen, b);
    assert omegaB != r.zero by {
      DomainOfAny(S, n0);
      DomainPowerNonZero(S.k, d, b);
    }
    CosetReady(S, n0, m, half, omegaB);
    var tuple := InterpolateCosetExt(S.k, Image(S.emb, fibre), omegaB, zeta);
    var pows := BuildPows(r, alpha, m);
    fold := DotPowers(r, tuple, alpha, pows);
  }

  method CheckFibreIndices(indices: seq<nat>, b: nat, half: nat) returns (ok: bool)
    ensures ok <==> indices == FibreIndices(b, half, |indices|)
  {
    for j := 0 to |indices|
      invariant indices[..j] == FibreIndices(b, half, j)
    {
      if indices[j] != b + j * half {
        IndicesDiffer(indices, b, half, j, |indices|);
        return false;
      }
      assert indices[..j + 1] == indices[..j] + [indices[j]];
    }
    assert indices[..|indices|] == indices;
    ok := true;
  }

  lemma {:induction false} IndicesDiffer(indices: seq<nat>, b: nat, half: nat, j: nat, m: nat)
    requires j < m <= |indices| && indices[j] != b + j * half
    ensures indices[..m] != FibreIndices(b, half, m)
    ensures m == |indices| ==> indices != FibreIndices(b, half, m)
  {
    assert indices[..m][j] == indices[j];
    FibreIndexIs(b, half, m, j);
  }

  method CheckFibre<A, T>(S: Setup<A, T>, rootF0: Digest, m: nat, half: nat, raw: nat, pq: StirPayload<A, T>)
    returns (w: Verdict)
    requires half > 0
    ensures w == FibreVerdict(S, rootF0, m, half, raw, pq)
    ensures w.Accept? ==> |pq.fiberFVals| == m
  {
    var b := Rem(raw, half);
    if pq.rawQueryIndex != raw || pq.baseIndex != b || |pq.fiberIndices| != m || |pq.fiberFVals| != m {
      return Reject;
    }
    var positions := CheckFibreIndices(pq.fiberIndices, b, half);
    if !positions {
      return Reject;
    }
    w := CheckOpening(S.hasher, TreeConfig(half, 16, F0_LABEL), rootF0, pq.f0PackedOpening, b,
                      Encode(S, pq.fiberFVals));
  }

  /** `fibreFold` at one argument, on fibres of the right length. */
  ghost predicate FoldsAs<A, T>(S: Setup<A, T>, x: QueryContext<A, T>, alpha0: T, b: nat, fibre: seq<A>)
    requires x.schedule != []
  {
    x.fibreFold(b, fibre) == FibreFold(S, x.n0, SizeAt(x.n0, x.schedule, 1), alpha0, b, fibre)
  }

  ghost predicate TuplesAs<A, T>(S: Setup<A, T>, x: QueryContext<A, T>, tuples: seq<seq<T>>, b: nat, point: T) {
    x.tupleAt(b, point) == TupleAt(S, tuples, b, point)
  }

  ghost predicate EndsAs<A, T>(S: Setup<A, T>, x: QueryContext<A, T>, final: seq<T>, b: nat) {
    x.finalAt(b) == FinalAt(S, SizeAt(x.n0, x.schedule, |x.schedule|), final, b)
  }

  /** The proof's values a context evaluates. */
  datatype Values<T> = Values(alpha0: T, final: seq<T>, tuples: seq<seq<T>>)

  /** The evaluations of a context mean what they should, and a committed last layer has a tuple per position. */
  ghost predicate ContextMeans<A(!new), T(!new)>(S: Setup<A, T>, x: QueryContext<A, T>, v: Values<T>)
    requires x.schedule != []
  {
    && (forall b, fibre :: FoldsAs(S, x, v.alpha0, b, fibre)) && (forall b :: EndsAs(S, x, v.final, b))
    && (forall b, point :: TuplesAs(S, x, v.tuples, b, point))
    && (x.commits ==> |v.tuples| == SizeAt(x.n0, x.schedule, |x.schedule|))
  }

  /** One STIR proximity query. */
  method CheckStirQuery<A(!new), T(!new, ==)>(S: Setup<A, T>, x: QueryContext<A, T>, v: Values<T>, qi: nat,
                                              pq: StirPayload<A, T>)
    returns (w: Verdict)
    requires ContextFits(x) && ContextMeans(S, x, v)
    requires ValidSetup(S) && FitSchedule(x.n0, x.schedule)
    ensures w == StirVerdict(S, x, qi, pq)
    ensures w.Accept? <==> StirQueryOk(S, x, qi, pq)
    ensures w.Accept? ==>
      StirSeated(S, x.seed, x.n0, x.schedule[0], SizeAt(x.n0, x.schedule, 1), qi, pq)
  {
    StirVerdictIs(S, x, qi, pq);
    var m, half := x.schedule[0], SizeAt(x.n0, x.schedule, 1);
    StirOkSeated(S, x, qi, pq);
    var raw := RawIndex(S, x.seed, qi, x.n0);
    w := CheckFibre(S, x.rootF0, m, half, raw, pq);
    if w.Accept? {
      var b := Rem(raw, half);
      var fold := FoldFirstFibre(S, x, v, b, pq.fiberFVals);
      w := CheckNext(S, x, v, b, fold, pq);
    }
  }

  /** The folded value against the second layer, or against the final polynomial. */
  method CheckNext<A(!new), T(!new, ==)>(S: Setup<A, T>, x: QueryContext<A, T>, v: Values<T>, b: nat, fold: T,
                                         pq: StirPayload<A, T>)
    returns (w: Verdict)
    requires IsRing(S.k.ring) && ContextFits(x) && ContextMeans(S, x, v)
    ensures w == NextVerdict(S, x, b, fold, pq)
  {
    if |x.schedule| >= 2 {
      if pq.layer1Opening.None? {
        return Reject;
      }
      w := CheckOpening(S.hasher, TreeConfig(SizeAt(x.n0, x.schedule, 1), x.schedule[1], 1), x.msgs[1].root,
                        pq.layer1Opening.value, b, StirLeaf(S, pq.fNextVal));
      if w.Accept? {
        w := VerdictOf(fold == pq.fNextVal);
      }
    } else {
      var value := EvalFinal(S, x, v, b);
      w := VerdictOf(fold == value);
    }
  }

  method FoldFirstFibre<A(!new), T(!new, ==)>(S: Setup<A, T>, x: QueryContext<A, T>, v: Values<T>, b: nat,
                                              fibre: seq<A>)
    returns (fold: T)
    requires ValidSetup(S) && FitSchedule(x.n0, x.schedule) && ContextMeans(S, x, v) && |fibre| == x.schedule[0]
    ensures fold == x.fibreFold(b, fibre)
  {
    assert FoldsAs(S, x, v.alpha0, b, fibre);
    fold := FoldFibre(S, fibre, x.n0, SizeAt(x.n0, x.schedule, 1), b, v.alpha0);
  }

  /** `eval_final_poly_ext` at a point of the last domain. */
  method EvalFinal<A(!new), T(!new)>(S: Setup<A, T>, x: QueryContext<A, T>, v: Values<T>, b: nat) returns (value: T)
    requires IsRing(S.k.ring) && x.schedule != [] && ContextMeans(S, x, v)
    ensures value == x.finalAt(b)
  {
    assert EndsAs(S, x, v.final, b);
    var point := ExtPow(S.k.ring, S.domains(SizeAt(x.n0, x.schedule, |x.schedule|)).gen, b);
    value := Horner(S.k.ring, v.final, point);
  }

  /** One layer of a classic query. */
  method CheckClassicLayer<A(!new), T(!new, ==)>(S: Setup<A, T>, x: QueryContext<A, T>, v: Values<T>,
                                                 openings: seq<seq<MerkleOpening>>, qp: QueryPayload<T>, q: nat,
                                                 ell: nat)
    returns (w: Verdict)
    requires IsRing(S.k.ring) && ContextFits(x) && ContextMeans(S, x, v) && ell < |x.schedule|
    requires qp.finalIndex < SizeAt(x.n0, x.schedule, |x.schedule|)
    ensures w == LayerVerdict(S, x, openings, qp, q, ell)
  {
    if !LayerListed(openings, qp, q, ell) {
      return Abort;
    }
    var n, pay, i := SizeAt(x.n0, x.schedule, ell), qp.payloads[ell], qp.refs[ell].i;
    w := CheckOpening(S.hasher, TreeConfig(n, x.schedule[ell], ell), x.msgs[ell].root, openings[ell][q], i,
                      ClassicLeaf(S, pay.fVal, pay.sVal, pay.qVal));
    if w.Accept? {
      var point := ExtPow(S.k.ring, S.domains(n).gen, i);
      if S.k.ring.Mul(pay.qVal, S.k.ring.Sub(point, x.z)) != S.k.ring.Sub(pay.fVal, x.msgs[ell].ood[0]) {
        return Reject;
      }
      w := CheckFold(S, x, v, qp, ell, point);
    }
  }

  method CheckFold<A(!new), T(!new, ==)>(S: Setup<A, T>, x: QueryContext<A, T>, v: Values<T>, qp: QueryPayload<T>,
                                         ell: nat, point: T)
    returns (w: Verdict)
    requires IsRing(S.k.ring) && ell < |x.schedule| && ContextMeans(S, x, v) && ell < |qp.payloads|
    requires qp.finalIndex < SizeAt(x.n0, x.schedule, |x.schedule|)
    ensures w == FoldVerdict(x, qp, ell, point)
  {
    var (L, pay) := (|x.schedule|, qp.payloads[ell]);
    if x.commits && ell == L - 1 {
      var ok := CheckCommitted(S, x, v, pay.fVal, point, qp.finalIndex);
      w := VerdictOf(ok);
    } else if ell + 1 < L {
      w := if ell + 1 < |qp.payloads| then VerdictOf(pay.sVal == qp.payloads[ell + 1].fVal) else Abort;
    } else {
      var value := EvalFinal(S, x, v, qp.finalIndex);
      w := VerdictOf(pay.sVal == value);
    }
  }

  /** The committed tuple gives the opened value and folds to the final polynomial. */
  method CheckCommitted<A(!new), T(!new, ==)>(S: Setup<A, T>, x: QueryContext<A, T>, v: Values<T>, fVal: T, point: T,
                                              b: nat)
    returns (ok: bool)
    requires IsRing(S.k.ring) && x.schedule != [] && ContextMeans(S, x, v) && b < |v.tuples|
    ensures ok <==> fVal == x.tupleAt(b, point) && x.tupleAt(b, x.lastAlpha) == x.finalAt(b)
  {
    assert TuplesAs(S, x, v.tuples, b, point) && TuplesAs(S, x, v.tuples, b, x.lastAlpha);
    var tuple := v.tuples[b];
    var xPows := BuildPows(S.k.ring, point, |tuple|);
    var hStar := DotPowers(S.k.ring, tuple, point, xPows);
    if fVal != hStar {
      return false;
    }
    var pows := BuildPows(S.k.ring, x.lastAlpha, |tuple|);
    var fold := DotPowers(S.k.ring, tuple, x.lastAlpha, pows);
    var value := EvalFinal(S, x, v, b);
    ok := fold == value;
  }

  /** The chain of positions of one query. */
  method CheckPositions<T>(raw: nat, n0: nat, schedule: seq<nat>, sizes: seq<nat>, qp: QueryPayload<T>)
    returns (w: Verdict)
    requires SizesOf(n0, schedule, sizes)
    ensures w == PositionsFrom(raw, n0, schedule, qp, 0)
    ensures w.Accept? ==> qp.finalIndex == IndexAt(raw, n0, schedule, |schedule|)
  {
    var expected := raw;
    for ell := 0 to |schedule|
      invariant expected == IndexAt(raw, n0, schedule, ell)
      invariant PositionsFrom(raw, n0, schedule, qp, 0) == PositionsFrom(raw, n0, schedule, qp, ell)
    {
      if ell >= |qp.refs| {
        return Abort;
      }
      if qp.refs[ell].i != expected {
        return Reject;
      }
      expected := NextPosition(raw, n0, schedule, sizes, ell, expected);
    }
    w := VerdictOf(qp.finalIndex == expected);
  }

  /** The position in the next layer. */
  method NextPosition(raw: nat, n0: nat, schedule: seq<nat>, sizes: seq<nat>, ell: nat, position: nat)
    returns (next: nat)
    requires SizesOf(n0, schedule, sizes) && ell < |schedule| && position == IndexAt(raw, n0, schedule, ell)
    ensures next == IndexAt(raw, n0, schedule, ell + 1)
  {
    var size := sizes[ell + 1];
    next := if size == 0 then 0 else Rem(position, size);
  }

  /** The opening of the first word, then the value it is for. */
  method CheckBase<A(!new, ==), T(!new)>(S: Setup<A, T>, n0: nat, rootF0: Digest, index: nat, qp: QueryPayload<T>)
    returns (w: Verdict)
    requires (forall f :: ComponentsFit(S, f)) && S.degree > 0
    ensures w == BaseVerdict(S, n0, rootF0, index, qp)
  {
    w := MerkleTreeChannel.VerifyOpening(S.hasher, TreeConfig(n0, 16, F0_LABEL), rootF0, qp.f0Opening);
    if w.Accept? {
      if qp.payloads == [] {
        return Abort;
      }
      assert ComponentsFit(S, qp.payloads[0].fVal);
      var ok := CheckBaseValue(S, n0, index, qp.f0Opening, qp.payloads[0].fVal);
      w := VerdictOf(ok);
    }
  }

  method CheckBaseValue<A(==), T>(S: Setup<A, T>, n0: nat, index: nat, o: MerkleOpening, fVal: T) returns (ok: bool)
    requires |S.comps(fVal)| > 0
    ensures ok <==> BaseBound(S, n0, index, o, fVal)
  {
    var comps := S.comps(fVal);
    for j := 1 to |comps|
      invariant forall i :: 0 < i < j ==> comps[i] == S.fromU64(0)
    {
      if comps[j] != S.fromU64(0) {
        return false;
      }
    }
    var expected := LeafHash(S.hasher, TreeConfig(n0, 16, F0_LABEL), o.index, Encode(S, [comps[0]]));
    ok := expected == o.leaf && o.index == index;
  }

  /** All layers of one classic query. */
  method CheckClassicLayers<A(!new), T(!new, ==)>(S: Setup<A, T>, x: QueryContext<A, T>, v: Values<T>,
                                                  openings: seq<seq<MerkleOpening>>, qp: QueryPayload<T>, q: nat)
    returns (w: Verdict)
    requires IsRing(S.k.ring) && ContextFits(x) && ContextMeans(S, x, v)
    requires qp.finalIndex < SizeAt(x.n0, x.schedule, |x.schedule|)
    ensures w == FirstFrom(LayerVerdicts(S, x, openings, qp, q), |x.schedule|, 0)
  {
    ghost var verdicts := LayerVerdicts(S, x, openings, qp, q);
    for ell := 0 to |x.schedule|
      invariant FirstFrom(verdicts, |x.schedule|, 0) == FirstFrom(verdicts, |x.schedule|, ell)
    {
      w := CheckClassicLayer(S, x, v, openings, qp, q, ell);
      assert w == verdicts(ell);
      if !w.Accept? {
        return;
      }
    }
    w := Accept;
  }

  /** One classic query. */
  method CheckClassicQuery<A(!new, ==), T(!new, ==)>(S: Setup<A, T>, x: QueryContext<A, T>, v: Values<T>,
                                                     sizes: seq<nat>, params: Params, proof: Proof<A, T>, q: nat)
    returns (w: Verdict)
    requires IsRing(S.k.ring) && ContextFits(x) && ContextMeans(S, x, v) && SizesOf(x.n0, x.schedule, sizes)
    requires (forall f :: ComponentsFit(S, f)) && S.degree > 0
    requires x.schedule == params.schedule && x.n0 == proof.n0
    ensures w == ClassicVerdict(S, x, proof, q)
    ensures w.Accept? <==> ClassicQueryAt(S, x, params, proof, q)
    ensures w.Accept? ==> FirstLands(S, x.seed, x.n0, proof.queries, q)
  {
    ClassicVerdictIs(S, x, params, proof, q);
    ClassicOkLands(S, x, params, proof, q);
    if q >= |proof.queries| {
      return Abort;
    }
    var qp, raw := proof.queries[q], RawIndex(S, x.seed, q, x.n0);
    w := CheckPositions(raw, x.n0, x.schedule, sizes, qp);
    if w.Accept? {
      IndexBelow(raw, x.n0, x.schedule, |x.schedule|);
      w := CheckBase(S, x.n0, x.rootF0, raw, qp);
      if w.Accept? {
        w := CheckClassicLayers(S, x, v, proof.layerOpenings, qp, q);
      }
    }
  }

  /** All STIR queries, up to the first that is not accepted. */
  method CheckStirQueries<A(!new), T(!new, ==)>(S: Setup<A, T>, x: QueryContext<A, T>, v: Values<T>,
                                                queries: seq<StirPayload<A, T>>)
    returns (w: Verdict)
    requires ContextFits(x) && ContextMeans(S, x, v) && ValidSetup(S) && FitSchedule(x.n0, x.schedule)
    ensures w == FirstFrom(StirVerdicts(S, x, queries), |queries|, 0)
  {
    ghost var verdicts := StirVerdicts(S, x, queries);
    for qi := 0 to |queries|
      invariant FirstFrom(verdicts, |queries|, 0) == FirstFrom(verdicts, |queries|, qi)
    {
      w := CheckStirQuery(S, x, v, qi, queries[qi]);
      assert w == verdicts(qi);
      if !w.Accept? {
        return;
      }
    }
    w := Accept;
  }

  /** All classic queries, up to the first that is not accepted. */
  method CheckClassicQueries<A(!new, ==), T(!new, ==)>(S: Setup<A, T>, x: QueryContext<A, T>, v: Values<T>,
                                                       sizes: seq<nat>, params: Params, proof: Proof<A, T>)
    returns (w: Verdict)
    requires IsRing(S.k.ring) && ContextFits(x) && ContextMeans(S, x, v) && SizesOf(x.n0, x.schedule, sizes)
    requires (forall f :: ComponentsFit(S, f)) && S.degree > 0
    requires x.schedule == params.schedule && x.n0 == proof.n0
    ensures w == FirstFrom(ClassicVerdicts(S, x, proof), params.r, 0)
  {
    ghost var verdicts := ClassicVerdicts(S, x, proof);
    for q := 0 to params.r
      invariant FirstFrom(verdicts, params.r, 0) == FirstFrom(verdicts, params.r, q)
    {
      w := CheckClassicQuery(S, x, v, sizes, params, proof, q);
      assert w == verdicts(q);
      if !w.Accept? {
        return;
      }
    }
    w := Accept;
  }

  // ---------- the verifier ----------

  /** Everything the verifier derives from the proof before it checks anything. In STIR mode the first point must
      be invertible. */
  method ReplayTranscript<A(!new), T(!new, ==)>(S: Setup<A, T>, params: Params, c: Commitments<T>, sizes: seq<nat>)
    returns (usable: bool, z: T, alphas: seq<T>, beta: Option<T>, interps: seq<seq<T>>, seed: A)
    requires ValidSetup(S) && ReplayFits(params, c.n0) && |c.msgs| == |params.schedule|
    requires SizesOf(c.n0, params.schedule, sizes)
    requires params.stir ==> OodListsFit(params, c)
    ensures z == FirstZ(S, params, c.n0, c.rootF0) && (usable <==> (params.stir ==> z != S.k.ring.zero))
    ensures usable ==>
      && seed == QuerySeed(S, params, c) && |alphas| == |params.schedule|
      && AlphasOf(S, params, c, alphas)
    ensures usable && params.UsesCommit() ==> beta == Some(BetaOf(S, params, c))
    ensures usable && params.stir ==> |interps| == |params.schedule| && InterpsOf(S, params, c, interps)
  {
    var tr := new Transcript<A, T>(S);
    BindStatement(tr, params, c.n0);
    tr.AbsorbBytes(c.rootF0);
    assert tr.log == StartLog(S, params, c.n0, c.rootF0);
    z := tr.Challenge("z_fp3");
    usable := !params.stir || z != S.k.ring.zero;
    if usable {
      alphas, beta, interps := ReplayLayers(S, params, c, tr, sizes, z);
      tr.AbsorbAll(c.final);
    } else {
      alphas, beta, interps := [], None, [];
    }
    seed := S.squeeze(tr.log, "query_seed");
  }

  lemma OutcomeSeated<A, T>(S: Setup<A, T>, params: Params, proof: Proof<A, T>)
    ensures Outcome(S, params, proof).Accept? <==> Accepts(S, params, proof)
    ensures Outcome(S, params, proof).Accept? ==> QueriesSeated(S, params, proof)
    ensures WellShaped(S, params, proof) ==> !Outcome(S, params, proof).Abort?
  {
    OutcomeIs(S, params, proof);
    if Accepts(S, params, proof) {
      AcceptedSeated(S, params, proof);
    }
  }

  /** `deep_fri_verify` */
  method DeepFriVerify<A(!new, ==), T(!new, ==)>(S: Setup<A, T>, params: Params, proof: Proof<A, T>)
    returns (w: Verdict)
    requires ValidSetup(S) && params.schedule != [] && TwoPowerFactors(params.schedule)
    ensures w == Outcome(S, params, proof)
    ensures w.Accept? <==> Accepts(S, params, proof)
    ensures w.Accept? ==> QueriesSeated(S, params, proof)
    ensures WellShaped(S, params, proof) ==> !w.Abort?
  {
    OutcomeSeated(S, params, proof);
    var divides, sizes := LayerSizesFromSchedule(proof.n0, params.schedule);
    if !divides || (params.stir && proof.n0 > MAX_DOMAIN) || !CommitmentsFit(params, proof) {
      return Abort;
    }
    w := VerifyFitting(S, params, proof, sizes);
  }

  /** On a proof whose lists are long enough: replay, claims, queries. */
  method VerifyFitting<A(!new, ==), T(!new, ==)>(S: Setup<A, T>, params: Params, proof: Proof<A, T>, sizes: seq<nat>)
    returns (w: Verdict)
    requires ValidSetup(S) && ReplayFits(params, proof.n0) && CommitmentsFit(params, proof)
    requires SizesOf(proof.n0, params.schedule, sizes)
    ensures w == Outcome(S, params, proof)
  {
    var c := CommitmentsOf(params, proof);
    CommitmentsShape(S, params, proof);
    var x, v;
    w, x, v := ReplayAndCheck(S, params, c, proof.coeffTuples, sizes);
    if w.Accept? {
      w := CheckQueries(S, x, v, sizes, params, proof);
    }
  }

  /** Everything before the queries. */
  method ReplayAndCheck<A(!new, ==), T(!new, ==)>(S: Setup<A, T>, params: Params, c: Commitments<T>,
                                                  tuples: Option<seq<seq<T>>>, sizes: seq<nat>)
    returns (w: Verdict, x: QueryContext<A, T>, v: Values<T>)
    requires ValidSetup(S) && ReplayFits(params, c.n0) && |c.msgs| == |params.schedule| && OodFits(c)
    requires SizesOf(c.n0, params.schedule, sizes) && (params.stir ==> OodListsFit(params, c))
    ensures params.stir && FirstZ(S, params, c.n0, c.rootF0) == S.k.ring.zero ==> w.Abort?
    ensures (params.stir ==> FirstZ(S, params, c.n0, c.rootF0) != S.k.ring.zero) ==>
      w == ClaimsVerdict(S, params, c, tuples)
    ensures w.Accept? ==> x == ContextOf(S, params, c, tuples) && ContextMeans(S, x, v)
  {
    var usable, z, alphas, beta, interps, seed := ReplayTranscript(S, params, c, sizes);
    if usable {
      w, x, v := CheckReplayed(S, params, c, tuples, sizes, z, alphas, beta, interps, seed);
    } else {
      w, v := Abort, Values(z, c.final, []);
      x := ContextWith(S, params, c, seed, z, z, z, []);
    }
  }

  /** The claims, and the context the queries need. */
  method CheckReplayed<A(!new, ==), T(!new, ==)>(S: Setup<A, T>, params: Params, c: Commitments<T>,
                                                 tuples: Option<seq<seq<T>>>, sizes: seq<nat>, z: T,
                                                 alphas: seq<T>, beta: Option<T>, interps: seq<seq<T>>, seed: A)
    returns (w: Verdict, x: QueryContext<A, T>, v: Values<T>)
    requires ValidSetup(S) && ReplayFits(params, c.n0) && |c.msgs| == |params.schedule| && OodFits(c)
    requires SizesOf(c.n0, params.schedule, sizes) && z == FirstZ(S, params, c.n0, c.rootF0)
    requires seed == QuerySeed(S, params, c) && |alphas| == |params.schedule| && AlphasOf(S, params, c, alphas)
    requires params.UsesCommit() ==> beta == Some(BetaOf(S, params, c))
    requires params.stir ==> |interps| == |params.schedule| && InterpsOf(S, params, c, interps)
    ensures w == ClaimsVerdict(S, params, c, tuples)
    ensures x == ContextOf(S, params, c, tuples) && (w.Accept? ==> ContextMeans(S, x, v))
  {
    LastDomain(S, params, c.n0);
    w := CheckClaims(S, params, c, z, alphas, beta, interps, sizes, tuples);
    assert w.Accept? ==> TuplesCount(params, c.n0, tuples) by {
      if w.Accept? {
        ClaimsCount(S, params, c, tuples);
      }
    }
    x, v := MakeContext(S, params, c, tuples, alphas, z, seed);
  }

  lemma ClaimsCount<A, T>(S: Setup<A, T>, params: Params, c: Commitments<T>, tuples: Option<seq<seq<T>>>)
    requires OodFits(c) && |c.msgs| == |params.schedule| && ClaimsVerdict(S, params, c, tuples).Accept?
    ensures TuplesCount(params, c.n0, tuples)
  {
  }

  /** The domain of the last layer. */
  lemma LastDomain<A(!new), T(!new)>(S: Setup<A, T>, params: Params, n0: nat)
    requires ValidSetup(S) && Divisible(n0, params.schedule)
    ensures
      var n := SizeAt(n0, params.schedule, |params.schedule|);
      && (n <= MAX_DOMAIN ==> ValidDomain(S.k.ring, S.domains(n)) && S.domains(n).size >= n)
      && (n0 > 0 ==> n > 0)
  {
    FitSizes(n0, params.schedule, |params.schedule|);
    if SizeAt(n0, params.schedule, |params.schedule|) <= MAX_DOMAIN {
      DomainOfAny(S, SizeAt(n0, params.schedule, |params.schedule|));
    }
  }

  ghost predicate TuplesCount<T>(params: Params, n0: nat, tuples: Option<seq<seq<T>>>) {
    params.UsesCommit() ==> tuples.Some? && |tuples.value| == SizeAt(n0, params.schedule, |params.schedule|)
  }

  /** The query context from the replayed challenges. */
  method MakeContext<A(!new), T(!new)>(S: Setup<A, T>, params: Params, c: Commitments<T>, tuples: Option<seq<seq<T>>>,
                                       alphas: seq<T>, z: T, seed: A)
    returns (x: QueryContext<A, T>, v: Values<T>)
    requires |alphas| == |params.schedule| == |c.msgs| > 0 && AlphasOf(S, params, c, alphas)
    requires z == FirstZ(S, params, c.n0, c.rootF0) && seed == QuerySeed(S, params, c)
    ensures x == ContextOf(S, params, c, tuples)
    ensures TuplesCount(params, c.n0, tuples) ==> ContextMeans(S, x, v)
  {
    v := Values(alphas[0], c.final, if tuples.Some? then tuples.value else []);
    x := ContextWith(S, params, c, seed, z, alphas[0], alphas[|alphas| - 1], v.tuples);
    if params.UsesCommit() ==> |v.tuples| == SizeAt(c.n0, params.schedule, |params.schedule|) {
      ValuesMean(S, params, c, v, seed, z, alphas[|alphas| - 1]);
    }
  }

  lemma ValuesMean<A(!new), T(!new)>(S: Setup<A, T>, params: Params, c: Commitments<T>, v: Values<T>, seed: A, z: T,
                                     lastAlpha: T)
    requires params.schedule != [] && v.final == c.final
    requires params.UsesCommit() ==> |v.tuples| == SizeAt(c.n0, params.schedule, |params.schedule|)
    ensures ContextMeans(S, ContextWith(S, params, c, seed, z, v.alpha0, lastAlpha, v.tuples), v)
  {
  }

  method CheckClaims<A(!new, ==), T(!new, ==)>(S: Setup<A, T>, params: Params, c: Commitments<T>, z: T, alphas: seq<T>,
                                               beta: Option<T>, interps: seq<seq<T>>, sizes: seq<nat>,
                                               tuples: Option<seq<seq<T>>>)
    returns (w: Verdict)
    requires ValidSetup(S) && |c.msgs| == |params.schedule| && OodFits(c) && SizesOf(c.n0, params.schedule, sizes)
    requires z == FirstZ(S, params, c.n0, c.rootF0) && |alphas| == |params.schedule| && AlphasOf(S, params, c, alphas)
    requires params.UsesCommit() ==> beta == Some(BetaOf(S, params, c))
    requires params.stir ==> |interps| == |params.schedule| && InterpsOf(S, params, c, interps)
    requires sizes[|params.schedule|] <= MAX_DOMAIN ==>
      && ValidDomain(S.k.ring, S.domains(sizes[|params.schedule|]))
      && S.domains(sizes[|params.schedule|]).size >= sizes[|params.schedule|]
    ensures w == ClaimsVerdict(S, params, c, tuples)
  {
    var L := |params.schedule|;
    if |c.final| != params.dFinal {
      return Reject;
    }
    w := Accept;
    if params.stir {
      w := CheckOodFolds(S, params, c, z, alphas, interps);
    }
    if w.Accept? && params.UsesCommit() {
      assert DomainEmbeds(S, sizes[L]);
      w := CheckCoeffs(S, sizes[L], params.schedule[L - 1], c.coeffRoot, beta.value, params.dFinal, tuples);
    }
  }

  /** The last phase in either mode. */
  method CheckQueries<A(!new, ==), T(!new, ==)>(S: Setup<A, T>, x: QueryContext<A, T>, v: Values<T>, sizes: seq<nat>,
                                                params: Params, proof: Proof<A, T>)
    returns (w: Verdict)
    requires ValidSetup(S) && Divisible(x.n0, x.schedule) && SizesOf(x.n0, x.schedule, sizes)
    requires x.schedule == params.schedule && x.n0 == proof.n0 && ContextMeans(S, x, v) && (x.n0 > 0 ==> ContextFits(x))
    ensures w == QueriesVerdict(S, x, params, proof)
  {
    if x.n0 > MAX_DOMAIN {
      return Abort;
    }
    if params.stir {
      if proof.stirProximityQueries.None? || |proof.stirProximityQueries.value| != params.s0 {
        return Reject;
      }
      var queries := proof.stirProximityQueries.value;
      if x.n0 == 0 {
        return if params.s0 == 0 then Accept else Abort;
      }
      w := CheckStirQueries(S, x, v, queries);
    } else {
      if x.n0 == 0 {
        return if params.r == 0 then Accept else Abort;
      }
      w := CheckClassicQueries(S, x, v, sizes, params, proof);
    }
  }
}
