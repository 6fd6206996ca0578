/** The honest prover's transcript builder: quotients and fold values of a layer, its message, and the loop over
    the layers with its commitment and challenges. */
module FriProver {
  import opened Arith
  import opened Rings
  import opened Polynomials
  import opened Domains
  import opened ExtTransform
  import opened FriLayers
  import opened Hashing
  import opened FriSetup
  import opened FriProtocol

  // ---------- one layer ----------

  /** z is none of the first n powers of the generator. */
  ghost predicate OffPowers<T>(r: Ring<T>, gen: T, n: nat, z: T) { forall i :: 0 <= i < n ==> Pow(r, gen, i) != z }

  /** `compute_q_layer_ext_on_ext` */
  method ComputeQLayer<A(!new), T(!new)>(k: Field<T>, B: Basis<A, T>, gd: Domain<A>, word: seq<T>, z: T, d: Domain<T>)
    returns (q: seq<T>, fz: T)
    requires IsField(k) && IsBasis(k.ring, B) && d == EmbedDomain(B.emb, gd)
    requires |word| == d.size && OffPowers(k.ring, d.gen, d.size, z)
    ensures fz == Eval(k.ring, Ifft(k.ring, d, word), z) && q == QValues(k, word, d.gen, z, fz)
  {
    var coeffs := IfftOfExt(k.ring, B, gd, word);
    fz := Horner(k.ring, coeffs, z);
    q := QuotientValues(k, word, z, fz, d);
  }

  method QuotientValues<T(!new)>(k: Field<T>, word: seq<T>, z: T, fz: T, d: Domain<T>) returns (q: seq<T>)
    requires IsField(k) && |word| == d.size && OffPowers(k.ring, d.gen, d.size, z)
    ensures q == QValues(k, word, d.gen, z, fz)
  {
    q := [];
    var x := k.ring.one;
    for i := 0 to |word|
      invariant x == Pow(k.ring, d.gen, i)
      invariant |q| == i && forall p :: 0 <= p < i ==> q[p] == QuotientAt(k, word[p], d.gen, z, fz, p)
    {
      var value := ExtDiv(k, k.ring.Sub(word[i], fz), x, z);
      q := q + [value];
      MulCommutes(k.ring, x, d.gen);
      x := k.ring.Mul(x, d.gen);
    }
  }

  /** Division by x - z. */
  method ExtDiv<T(!new)>(k: Field<T>, num: T, x: T, z: T) returns (value: T)
    requires IsField(k) && x != z
    ensures value == k.ring.Mul(num, InverseOr(k, k.ring.Sub(x, z)))
  {
    SubSelf(k.ring, x, z);
    InvertDefined(k, k.ring.Sub(x, z));
    value := k.ring.Mul(num, k.Invert(k.ring.Sub(x, z)).value);
  }

  /** `compute_s_layer_from_coeffs`: write the folded value to every point of its fibre. */
  method ComputeSLayer<T>(folded: seq<T>, m: nat) returns (s: seq<T>)
    requires |folded| > 0
    ensures s == SValues(folded, m * |folded|)
  {
    var half := |folded|;
    var n := m * half;
    var out := new T[n](_ => folded[0]);
    for b := 0 to half
      invariant forall i :: 0 <= i < n && Rem(i, half) < b ==> out[i] == folded[Rem(i, half)]
    {
      FillFibre(out, folded, m, b);
    }
    s := out[..];
  }

  method FillFibre<T>(out: array<T>, folded: seq<T>, m: nat, b: nat)
    requires b < |folded| && out.Length == m * |folded|
    modifies out
    ensures forall i :: 0 <= i < out.Length ==> out[i] == if Rem(i, |folded|) == b then folded[b] else old(out[i])
  {
    var half := |folded|;
    ghost var was := out[..];
    var idx := b;
    for j := 0 to m
      invariant idx == b + j * half
      invariant forall i :: 0 <= i < out.Length ==> out[i] == if Rem(i, half) == b && i < idx then folded[b] else was[i]
    {
      GridInRange(m, half, b, j);
      FibreStep(b, half, j, idx);
      out[idx] := folded[b];
      idx := idx + half;
    }
  }

  /** Between two consecutive fibre positions no index has the same residue. */
  lemma FibreStep(b: nat, half: nat, j: nat, idx: nat)
    requires b < half && idx == b + j * half
    ensures Rem(idx, half) == b
    ensures forall i :: idx < i < idx + half ==> Rem(i, half) != b
  {
    DivModUnique(idx, half, j, b);
    forall i | idx < i < idx + half
      ensures Rem(i, half) != b
    {
      var e := i - idx;
      if b + e < half {
        DivModUnique(i, half, j, b + e);
      } else {
        assert (j + 1) * half == j * half + half;
        DivModUnique(i, half, j + 1, b + e - half);
      }
    }
  }

  /** The message of one layer. */
  method LayerMessage<A(!new), T(!new)>(S: Setup<A, T>, params: Params, n0: nat, ell: nat, z0: T, z: T, word: seq<T>,
                                        s: seq<T>)
    returns (q: seq<T>, msg: LayerMsg<T>)
    requires ValidSetup(S) && ell < |params.schedule| && LayerFits(n0, params.schedule, ell)
    requires SizesFit(S, params, n0, ell, word)
    requires params.stir ==> z != S.k.ring.zero
    requires !params.stir ==> |s| == |word| && OffPowers(S.k.ring, S.domains(|word|).gen, |word|, z0)
    ensures MsgHonest(S, params, n0, ell, z0, z, word, s, q, msg)
  {
    var m, n, half := params.schedule[ell], |word|, SizeAt(n0, params.schedule, ell + 1);
    assert DomainFits(S, n) && DomainEmbeds(S, n);
    var d := S.domains(n);
    if params.stir {
      var ood, interp := EvaluateOodCoset(S.k, BasisOf(S), S.groundDomains(n), word, z, d, m, half);
      var tree, root := BuildTree(S.hasher, m, ell, StirLeaves(S, word));
      q, msg := [], LayerMsg(ood, root);
    } else {
      var fz;
      q, fz := ComputeQLayer(S.k, BasisOf(S), S.groundDomains(n), word, z0, d);
      var tree, root := BuildTree(S.hasher, m, ell, ClassicLeaves(S, word, s, q));
      msg := LayerMsg([fz], root);
    }
  }

  /** The coset coefficients of a layer. */
  method ExtractLayer<A(!new), T(!new, ==)>(S: Setup<A, T>, params: Params, n0: nat, ell: nat, word: seq<T>)
    returns (tuples: seq<seq<T>>)
    requires ValidSetup(S) && ell < |params.schedule| && LayerFits(n0, params.schedule, ell)
    requires SizesFit(S, params, n0, ell, word)
    ensures tuples == CosetTuples(S.k, word, S.domains(|word|).gen, params.schedule[ell],
                                  SizeAt(n0, params.schedule, ell + 1))
  {
    var m, half := params.schedule[ell], SizeAt(n0, params.schedule, ell + 1);
    assert DomainFits(S, |word|);
    BlocksMonotone(1, half, m);
    var nNext;
    tuples, nNext := ExtractAllCosetCoefficients(S.k, word, S.domains(|word|), m);
    SameQuotient(m, nNext, half);
  }

  /** Extract the coset coefficients and fold them. */
  method FoldLayer<A(!new), T(!new, ==)>(S: Setup<A, T>, params: Params, n0: nat, ell: nat, alpha: T, word: seq<T>)
    returns (next: seq<T>)
    requires ValidSetup(S) && ell < |params.schedule| && LayerFits(n0, params.schedule, ell)
    requires SizesFit(S, params, n0, ell, word)
    ensures FoldHonest(S, params, n0, ell, alpha, word, next) && |next| == SizeAt(n0, params.schedule, ell + 1)
  {
    var tuples := ExtractLayer(S, params, n0, ell, word);
    next := InterpolationFold(S.k.ring, tuples, alpha);
  }

  lemma SameQuotient(m: nat, a: nat, b: nat)
    requires m > 0 && m * a == m * b
    ensures a == b
  {
    MultipleDivides(a, m);
    MultipleDivides(b, m);
  }

  /** A normal layer of the builder: challenge, message, absorption, fold. */
  method BuildLayer<A(!new), T(!new, ==)>(S: Setup<A, T>, params: Params, n0: nat, tr: Transcript<A, T>, ell: nat,
                                          z0: T, z: T, word: seq<T>)
    returns (y: Layer<T>)
    requires ValidSetup(S) && ell < params.NormalLayers() && LayerFits(n0, params.schedule, ell)
    requires SizesFit(S, params, n0, ell, word) && tr.S == S
    requires params.stir ==> z != S.k.ring.zero
    requires !params.stir ==> OffPowers(S.k.ring, S.domains(|word|).gen, |word|, z0)
    modifies tr
    ensures LayerHonest(S, params, n0, z0, ell, y) && y.z == z && y.word == word
    ensures y.alpha == ChallengeExt(S, old(tr.log), "alpha") && |y.next| == SizeAt(n0, params.schedule, ell + 1)
    ensures tr.log == old(tr.log) + MsgItems(S, y.msg)
  {
    var alpha := tr.Challenge("alpha");
    var next := FoldLayer(S, params, n0, ell, alpha, word);
    var s := [];
    if !params.stir {
      s := ComputeSLayer(next, params.schedule[ell]);
    }
    var q, msg := LayerMessage(S, params, n0, ell, z0, z, word, s);
    AbsorbMsg(tr, msg);
    y := Layer(z, alpha, word, next, s, q, msg);
  }

  /** The last layer when its coefficients are committed: message, coefficient root, then the challenges. */
  method BuildCommitLayer<A(!new), T(!new, ==)>(S: Setup<A, T>, params: Params, n0: nat, tr: Transcript<A, T>, z0: T,
                                                z: T, word: seq<T>)
    returns (y: Layer<T>, tuples: seq<seq<T>>, coeffRoot: Digest)
    requires ValidSetup(S) && params.UsesCommit() && LayerFits(n0, params.schedule, |params.schedule| - 1)
    requires SizesFit(S, params, n0, |params.schedule| - 1, word) && tr.S == S
    requires params.stir ==> z != S.k.ring.zero
    requires !params.stir ==> OffPowers(S.k.ring, S.domains(|word|).gen, |word|, z0)
    modifies tr
    ensures LayerHonest(S, params, n0, z0, |params.schedule| - 1, y) && y.z == z && y.word == word
    ensures |y.next| == SizeAt(n0, params.schedule, |params.schedule|)
    ensures CommitHonest(S, params, n0, word, tuples, coeffRoot)
    ensures tr.log == old(tr.log) + MsgItems(S, y.msg) + [coeffRoot]
    ensures y.alpha == ChallengeExt(S, tr.log, "alpha")
  {
    var ell := |params.schedule| - 1;
    var s := seq(|word|, _ => S.k.ring.zero);
    var q, msg := LayerMessage(S, params, n0, ell, z0, z, word, s);
    AbsorbMsg(tr, msg);
    var alpha, next;
    tuples, coeffRoot, alpha, next := CommitCoefficients(S, params, n0, tr, word);
    y := Layer(z, alpha, word, next, s, q, msg);
  }

  method CommitCoefficients<A(!new), T(!new, ==)>(S: Setup<A, T>, params: Params, n0: nat, tr: Transcript<A, T>,
                                                  word: seq<T>)
    returns (tuples: seq<seq<T>>, coeffRoot: Digest, alpha: T, next: seq<T>)
    requires ValidSetup(S) && params.UsesCommit() && LayerFits(n0, params.schedule, |params.schedule| - 1)
    requires SizesFit(S, params, n0, |params.schedule| - 1, word) && tr.S == S
    modifies tr
    ensures CommitHonest(S, params, n0, word, tuples, coeffRoot) && tr.log == old(tr.log) + [coeffRoot]
    ensures alpha == ChallengeExt(S, tr.log, "alpha")
    ensures FoldHonest(S, params, n0, |params.schedule| - 1, alpha, word, next)
    ensures |next| == SizeAt(n0, params.schedule, |params.schedule|)
  {
    tuples := ExtractLayer(S, params, n0, |params.schedule| - 1, word);
    var tree;
    tree, coeffRoot := BuildTree(S.hasher, 16, COEFF_LABEL, CoeffLeaves(S, tuples));
    tr.AbsorbBytes(coeffRoot);
    alpha := tr.Challenge("alpha");
    next := InterpolationFold(S.k.ring, tuples, alpha);
  }

  // ---------- all layers ----------

  /** Where the out-of-domain point may lie: off zero in STIR mode, off the domain otherwise. */
  ghost predicate PointFits<A, T>(S: Setup<A, T>, params: Params, n: nat, z: T) {
    if params.stir then z != S.k.ring.zero else OffPowers(S.k.ring, S.domains(n).gen, n, z)
  }

  /** A point off a domain is off the domain of m-th powers. */
  lemma StillOff<T(!new)>(r: Ring<T>, gen: T, m: nat, q: nat, z: T)
    requires IsRing(r) && m > 0 && OffPowers(r, gen, m * q, z)
    ensures OffPowers(r, Pow(r, gen, m), q, z)
  {
    forall i: nat | i < q
      ensures Pow(r, Pow(r, gen, m), i) != z
    {
      PowOfPower(r, gen, m, i);
      GridInRange(q, m, 0, i);
      ghost var p := m * i;
      assert p < m * q;
    }
  }

  /** The log after some layers. */
  function RunLog<A, T>(S: Setup<A, T>, start: Log, layers: seq<Layer<T>>): Log {
    if layers == [] then start else RunLog(S, start, layers[..|layers| - 1]) + MsgItems(S, layers[|layers| - 1].msg)
  }

  /** A layer after the given ones: honest, starting where they end, its challenge read off their log. */
  ghost predicate StepHonest<A, T>(S: Setup<A, T>, params: Params, n0: nat, z0: T, start: Log, word0: seq<T>,
                                   prior: seq<Layer<T>>, y: Layer<T>)
    requires |prior| < |params.schedule|
  {
    && LayerHonest(S, params, n0, z0, |prior|, y) && y.word == WordInto(word0, prior, |prior|)
    && y.alpha == ChallengeExt(S, RunLog(S, start, prior), "alpha")
    && (params.stir ==> y.z == ZAt(S.k.ring, z0, params.schedule, |prior|))
  }

  ghost function StepOf<A, T>(S: Setup<A, T>, params: Params, n0: nat, z0: T, start: Log,
                              word0: seq<T>): (seq<Layer<T>>, Layer<T>) -> bool {
    (prior: seq<Layer<T>>, y: Layer<T>) => |prior| < |params.schedule|
        && StepHonest(S, params, n0, z0, start, word0, prior, y)
  }

  /** Every element is a step from those before it. */
  ghost predicate EachStep<X>(step: (seq<X>, X) -> bool, run: seq<X>) {
    run == [] || (EachStep(step, run[..|run| - 1]) && step(run[..|run| - 1], run[|run| - 1]))
  }

  lemma {:induction false} StepAt<X>(step: (seq<X>, X) -> bool, run: seq<X>, i: nat)
    requires EachStep(step, run) && i < |run|
    ensures step(run[..i], run[i])
  {
    var k := |run| - 1;
    if i < k {
      StepAt(step, run[..k], i);
      assert run[..k][..i] == run[..i];
    }
  }

  lemma StepsExtend<A, T>(S: Setup<A, T>, params: Params, n0: nat, z0: T, start: Log, word0: seq<T>,
                          layers: seq<Layer<T>>, y: Layer<T>)
    requires EachStep(StepOf(S, params, n0, z0, start, word0), layers) && |layers| < |params.schedule|
    requires StepHonest(S, params, n0, z0, start, word0, layers, y)
    ensures EachStep(StepOf(S, params, n0, z0, start, word0), layers + [y])
    ensures RunLog(S, start, layers + [y]) == RunLog(S, start, layers) + MsgItems(S, y.msg)
  {
    assert (layers + [y])[..|layers|] == layers;
  }

  /** The log of the messages is the log of the run. */
  lemma {:induction false} LogOfRun<A, T>(S: Setup<A, T>, start: Log, layers: seq<Layer<T>>, msgs: seq<LayerMsg<T>>,
                                          i: nat)
    requires i <= |layers| == |msgs| && forall j :: 0 <= j < |layers| ==> msgs[j] == layers[j].msg
    ensures LogAt(S, start, msgs, i) == RunLog(S, start, layers[..i])
  {
    if i > 0 {
      LogOfRun(S, start, layers, msgs, i - 1);
      assert layers[..i][..i - 1] == layers[..i - 1];
    }
  }

  /** The normal layers of the builder. */
  method BuildNormalLayers<A(!new), T(!new, ==)>(S: Setup<A, T>, params: Params, n0: nat, tr: Transcript<A, T>, z0: T,
                                                 word0: seq<T>)
    returns (layers: seq<Layer<T>>, z: T, word: seq<T>)
    requires ValidSetup(S) && GoodSchedule(n0, params.schedule) && tr.S == S && |word0| == n0
    requires PointFits(S, params, n0, z0)
    modifies tr
    ensures |layers| == params.NormalLayers() && EachStep(StepOf(S, params, n0, z0, old(tr.log), word0), layers)
    ensures tr.log == RunLog(S, old(tr.log), layers)
    ensures word == WordInto(word0, layers, |layers|) && |word| == SizeAt(n0, params.schedule, |layers|)
    ensures z == if params.stir then ZAt(S.k.ring, z0, params.schedule, |layers|) else z0
    ensures PointFits(S, params, |word|, z)
  {
    layers, z, word := [], z0, word0;
    ghost var start := tr.log;
    ghost var step := StepOf(S, params, n0, z0, start, word0);
    for ell := 0 to params.NormalLayers()
      invariant |layers| == ell && Built(S, params, n0, tr.log, z0, z, word, layers, start, word0, step)
    {
      layers, z, word := BuildNext(S, params, n0, tr, z0, z, word, layers, start, word0, step);
    }
  }

  /** The state of the builder after some layers. */
  ghost predicate Built<A, T>(S: Setup<A, T>, params: Params, n0: nat, log: Log, z0: T, z: T, word: seq<T>,
                              layers: seq<Layer<T>>,
                              start: Log, word0: seq<T>, step: (seq<Layer<T>>, Layer<T>) -> bool) {
    && |layers| <= |params.schedule| && EachStep(step, layers) && log == RunLog(S, start, layers)
    && word == WordInto(word0, layers, |layers|) && |word| == SizeAt(n0, params.schedule, |layers|)
    && z == (if params.stir then ZAt(S.k.ring, z0, params.schedule, |layers|) else z0)
    && PointFits(S, params, |word|, z)
  }

  /** One round of the loop. */
  method BuildNext<A(!new), T(!new, ==)>(S: Setup<A, T>, params: Params, n0: nat, tr: Transcript<A, T>, z0: T, z: T,
                                         word: seq<T>, layers: seq<Layer<T>>, ghost start: Log, ghost word0: seq<T>,
                                         ghost step: (seq<Layer<T>>, Layer<T>) -> bool)
    returns (more: seq<Layer<T>>, zNext: T, next: seq<T>)
    requires ValidSetup(S) && GoodSchedule(n0, params.schedule) && tr.S == S && |layers| < params.NormalLayers()
    requires step == StepOf(S, params, n0, z0, start, word0)
    requires Built(S, params, n0, tr.log, z0, z, word, layers, start, word0, step)
    modifies tr
    ensures |more| == |layers| + 1 && Built(S, params, n0, tr.log, z0, zNext, next, more, start, word0, step)
  {
    var ell := |layers|;
    LayerSizes(S, params, n0, ell, word);
    var y := BuildLayer(S, params, n0, tr, ell, z0, z, word);
    StepsExtend(S, params, n0, z0, start, word0, layers, y);
    PointMoves(S, params, n0, ell, z);
    more, next, zNext := layers + [y], y.next, z;
    if params.stir {
      zNext := ExtPow(S.k.ring, z, params.schedule[ell]);
    }
  }

  lemma LayerSizes<A(!new), T(!new)>(S: Setup<A, T>, params: Params, n0: nat, ell: nat, word: seq<T>)
    requires ValidSetup(S) && GoodSchedule(n0, params.schedule) && ell < |params.schedule|
    requires |word| == SizeAt(n0, params.schedule, ell)
    ensures LayerFits(n0, params.schedule, ell) && SizesFit(S, params, n0, ell, word)
  {
    assert LayerFits(n0, params.schedule, ell);
    assert DomainFits(S, SizeAt(n0, params.schedule, ell));
  }

  /** The next layer's point fits the next layer's domain. */
  lemma PointMoves<A(!new), T(!new)>(S: Setup<A, T>, params: Params, n0: nat, ell: nat, z: T)
    requires ValidSetup(S) && GoodSchedule(n0, params.schedule) && ell < |params.schedule|
    requires PointFits(S, params, SizeAt(n0, params.schedule, ell), z)
    ensures PointFits(S, params, SizeAt(n0, params.schedule, ell + 1), if params.stir
                      then Pow(S.k.ring, z, params.schedule[ell]) else z)
  {
    var m, q := params.schedule[ell], SizeAt(n0, params.schedule, ell + 1);
    assert LayerFits(n0, params.schedule, ell);
    if params.stir {
      PowNonZero(S.k, z, m);
    } else {
      assert DomainsNest(S, m, q);
      StillOff(S.k.ring, S.domains(m * q).gen, m, q, z);
    }
  }

  // ---------- the transcript ----------

  /** The first challenge falls where the prover can use it. */
  ghost predicate ChallengeFits<A, T>(S: Setup<A, T>, params: Params, f0: seq<A>)
    requires GoodSchedule(|f0|, params.schedule)
  {
    PointFits(S, params, |f0|, FirstZ(S, params, |f0|, F0Commitment(S, params, f0)))
  }

  function LeavesOf<A, T>(S: Setup<A, T>, params: Params, f0: seq<A>): (leaves: seq<seq<Byte>>)
    requires GoodSchedule(|f0|, params.schedule)
    ensures leaves != [] && F0Commitment(S, params, f0) == TreeRoot(S.hasher, 16, F0_LABEL, leaves)
  {
    assert LayerFits(|f0|, params.schedule, 0);
    if params.stir then PackedLeaves(S, f0, params.schedule[0], SizeAt(|f0|, params.schedule, 1))
        else PlainLeaves(S, f0)
  }

  /** Bind the statement, commit to the word, draw the first challenge. */
  method OpenTranscript<A(!new), T(!new)>(S: Setup<A, T>, params: Params, f0: seq<A>)
    returns (tr: Transcript<A, T>, rootF0: Digest, z0: T)
    requires GoodSchedule(|f0|, params.schedule)
    ensures fresh(tr) && tr.S == S && rootF0 == F0Commitment(S, params, f0)
    ensures tr.log == StartLog(S, params, |f0|, rootF0) && z0 == FirstZ(S, params, |f0|, rootF0)
  {
    tr := new Transcript<A, T>(S);
    BindStatement(tr, params, |f0|);
    var tree;
    tree, rootF0 := GrowTree(S.hasher, 16, F0_LABEL, LeavesOf(S, params, f0));
    tr.AbsorbBytes(rootF0);
    assert tr.log == StartLog(S, params, |f0|, rootF0);
    z0 := tr.Challenge("z_fp3");
  }

  /** `fri_build_transcript` */
  method FriBuildTranscript<A(!new), T(!new, ==)>(S: Setup<A, T>, params: Params, f0: seq<A>) returns (run: Run<T>)
    requires ValidSetup(S) && GoodSchedule(|f0|, params.schedule) && ChallengeFits(S, params, f0)
    ensures HonestLayers(S, params, f0, run)
  {
    var n0, word0 := |f0|, Image(S.emb, f0);
    var tr, rootF0, z0 := OpenTranscript(S, params, f0);
    var normal, z, word := BuildNormalLayers(S, params, n0, tr, z0, word0);
    run := FinishRun(S, params, f0, tr, rootF0, z0, z, word, normal);
    Assemble(S, params, f0, run, normal);
  }

  /** The committed last layer, when there is one, completes the run. */
  method FinishRun<A(!new), T(!new, ==)>(S: Setup<A, T>, params: Params, f0: seq<A>, tr: Transcript<A, T>,
                                         rootF0: Digest, z0: T, z: T, word: seq<T>,
                                         normal: seq<Layer<T>>) returns (run: Run<T>)
    requires ValidSetup(S) && GoodSchedule(|f0|, params.schedule) && tr.S == S && rootF0 == F0Commitment(S, params, f0)
    requires z0 == FirstZ(S, params, |f0|, rootF0) && tr.log == RunLog(S, StartLog(S, params, |f0|, rootF0), normal)
    requires |normal| == params.NormalLayers()
    requires EachStep(StepOf(S, params, |f0|, z0, StartLog(S, params, |f0|, rootF0), Image(S.emb, f0)), normal)
    requires word == WordInto(Image(S.emb, f0), normal, |normal|) && |word| == SizeAt(|f0|, params.schedule, |normal|)
    requires z == (if params.stir then ZAt(S.k.ring, z0, params.schedule, |normal|) else z0)
    requires PointFits(S, params, |word|, z)
    modifies tr
    ensures BuiltFrom(S, params, f0, run, normal)
  {
    if params.UsesCommit() {
      run := CommitRun(S, params, f0, tr, rootF0, z0, z, word, normal);
    } else {
      run := Run(normal, [], Commitments(|f0|, rootF0, MsgsOf(normal), [], []));
      BuiltPlain(S, params, f0, run, normal);
    }
  }

  /** Without a coefficient commitment the normal layers are all. */
  lemma BuiltPlain<A, T>(S: Setup<A, T>, params: Params, f0: seq<A>, run: Run<T>, normal: seq<Layer<T>>)
    requires GoodSchedule(|f0|, params.schedule) && !params.UsesCommit() && |normal| == |params.schedule|
    requires run == Run(normal, [], Commitments(|f0|, F0Commitment(S, params, f0), MsgsOf(normal), [], []))
    requires EachStep(StepOf(S, params, |f0|, FirstZ(S, params, |f0|, run.c.rootF0),
                             StartLog(S, params, |f0|, run.c.rootF0), Image(S.emb, f0)), normal)
    ensures BuiltFrom(S, params, f0, run, normal)
  {
    assert normal[..|normal|] == normal;
  }

  method CommitRun<A(!new), T(!new, ==)>(S: Setup<A, T>, params: Params, f0: seq<A>, tr: Transcript<A, T>,
                                         rootF0: Digest, z0: T, z: T, word: seq<T>,
                                         normal: seq<Layer<T>>) returns (run: Run<T>)
    requires ValidSetup(S) && GoodSchedule(|f0|, params.schedule) && tr.S == S && rootF0 == F0Commitment(S, params, f0)
    requires z0 == FirstZ(S, params, |f0|, rootF0) && tr.log == RunLog(S, StartLog(S, params, |f0|, rootF0), normal)
    requires params.UsesCommit() && |normal| == params.NormalLayers()
    requires EachStep(StepOf(S, params, |f0|, z0, StartLog(S, params, |f0|, rootF0), Image(S.emb, f0)), normal)
    requires word == WordInto(Image(S.emb, f0), normal, |normal|) && |word| == SizeAt(|f0|, params.schedule, |normal|)
    requires z == (if params.stir then ZAt(S.k.ring, z0, params.schedule, |normal|) else z0)
    requires PointFits(S, params, |word|, z)
    modifies tr
    ensures BuiltFrom(S, params, f0, run, normal)
  {
    LayerSizes(S, params, |f0|, |normal|, word);
    var y, tuples, coeffRoot := BuildCommitLayer(S, params, |f0|, tr, z0, z, word);
    var layers := normal + [y];
    run := Run(layers, tuples, Commitments(|f0|, rootF0, MsgsOf(layers), coeffRoot, []));
    assert layers[..|normal|] == normal && layers[|normal|] == y;
  }

  function MsgsOf<T>(layers: seq<Layer<T>>): (msgs: seq<LayerMsg<T>>)
    ensures |msgs| == |layers|
  {
    seq(|layers|, i requires 0 <= i < |layers| => layers[i].msg)
  }

  /** The layers built one after the other, and the committed one if any. */
  ghost predicate BuiltFrom<A, T>(S: Setup<A, T>, params: Params, f0: seq<A>, run: Run<T>, normal: seq<Layer<T>>)
    requires GoodSchedule(|f0|, params.schedule)
  {
    var (L, n0, word0) := (|params.schedule|, |f0|, Image(S.emb, f0));
    var start := StartLog(S, params, n0, run.c.rootF0);
    && |run.layers| == L && run.c.msgs == MsgsOf(run.layers) && run.c.n0 == n0
    && run.c.rootF0 == F0Commitment(S, params, f0)
    && |normal| == params.NormalLayers() && run.layers[..|normal|] == normal
    && EachStep(StepOf(S, params, n0, FirstZ(S, params, n0, run.c.rootF0), start, word0), normal)
    && (!params.UsesCommit() ==> run.c.coeffRoot == [])
    && (params.UsesCommit() ==> LastBuilt(S, params, run, word0, RunLog(S, start, normal), run.layers[L - 1]))
  }

  /** The committed layer: its challenge comes after the coefficient root. */
  ghost predicate LastBuilt<A, T>(S: Setup<A, T>, params: Params, run: Run<T>, word0: seq<T>, before: Log, y: Layer<T>)
    requires params.UsesCommit() && |run.layers| == |params.schedule|
  {
    var (last, z0) := (|params.schedule| - 1, FirstZ(S, params, run.c.n0, run.c.rootF0));
    && LayerHonest(S, params, run.c.n0, z0, last, y) && y.word == WordInto(word0, run.layers, last)
    && CommitHonest(S, params, run.c.n0, y.word, run.tuples, run.c.coeffRoot)
    && y.alpha == ChallengeExt(S, before + MsgItems(S, y.msg) + [run.c.coeffRoot], "alpha")
    && (params.stir ==> y.z == ZAt(S.k.ring, z0, params.schedule, last))
  }

  lemma NormalLayer<A, T>(S: Setup<A, T>, params: Params, f0: seq<A>, run: Run<T>, normal: seq<Layer<T>>, ell: nat)
    requires GoodSchedule(|f0|, params.schedule) && BuiltFrom(S, params, f0, run, normal) && ell < params.NormalLayers()
    ensures LayerOfRun(S, params, f0, run, ell)
  {
    var start := StartLog(S, params, |f0|, run.c.rootF0);
    var step := StepOf(S, params, |f0|, FirstZ(S, params, |f0|, run.c.rootF0), start, Image(S.emb, f0));
    StepAt(step, normal, ell);
    assert run.layers[ell] == normal[ell] && normal[..ell] == run.layers[..ell];
    LogOfRun(S, start, run.layers, run.c.msgs, ell);
  }

  lemma CommittedLayer<A, T>(S: Setup<A, T>, params: Params, f0: seq<A>, run: Run<T>, normal: seq<Layer<T>>, last: nat)
    requires GoodSchedule(|f0|, params.schedule) && BuiltFrom(S, params, f0, run, normal) && params.UsesCommit()
    requires last == |params.schedule| - 1
    ensures LayerOfRun(S, params, f0, run, last)
  {
    LogOfRun(S, StartLog(S, params, |f0|, run.c.rootF0), run.layers, run.c.msgs, last);
  }

  lemma BuiltShape<A, T>(S: Setup<A, T>, params: Params, f0: seq<A>, run: Run<T>, normal: seq<Layer<T>>)
    requires GoodSchedule(|f0|, params.schedule) && BuiltFrom(S, params, f0, run, normal)
    ensures RunShape(S, params, f0, run) && CommitOfRun(S, params, f0, run)
  {
  }

  lemma BuiltLayer<A, T>(S: Setup<A, T>, params: Params, f0: seq<A>, run: Run<T>, normal: seq<Layer<T>>, ell: nat)
    requires GoodSchedule(|f0|, params.schedule) && BuiltFrom(S, params, f0, run, normal) && ell < |params.schedule|
    ensures LayerOfRun(S, params, f0, run, ell)
  {
    if ell < params.NormalLayers() {
      NormalLayer(S, params, f0, run, normal, ell);
    } else {
      CommittedLayer(S, params, f0, run, normal, ell);
    }
  }

  lemma Assemble<A, T>(S: Setup<A, T>, params: Params, f0: seq<A>, run: Run<T>, normal: seq<Layer<T>>)
    requires GoodSchedule(|f0|, params.schedule) && BuiltFrom(S, params, f0, run, normal)
    ensures HonestLayers(S, params, f0, run)
  {
    BuiltShape(S, params, f0, run, normal);
    forall ell: nat | ell < |params.schedule|
      ensures LayerOfRun(S, params, f0, run, ell)
    {
      BuiltLayer(S, params, f0, run, normal, ell);
    }
  }
}
