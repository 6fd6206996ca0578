/** Where queries land: at the oracle's word for their own counter, masked and reduced, and at its remainders from
    layer to layer. */
module FriPositions {
  import opened Arith
  import opened Rings
  import opened FriLayers
  import opened Hashing
  import opened Merkle
  import opened FriSetup
  import opened FriProtocol
  import opened FriAcceptance

  // ---------- congruences ----------

  predicate Congruent(a: nat, b: nat, n: nat) { n > 0 && (a - b) % n == 0 }

  lemma RemCongruent(a: nat, n: nat)
    requires n > 0
    ensures Congruent(a, Rem(a, n), n)
  {
    BlockOf(a, n, Quot(a, n) * n);
    MultipleDivides(Quot(a, n), n);
    assert a - Rem(a, n) == Quot(a, n) * n;
  }

  lemma CongruentIsRem(a: nat, b: nat, n: nat)
    requires Congruent(a, b, n) && b < n
    ensures b == Rem(a, n)
  {
    var k := (a - b) / n;
    assert a - b == k * n;
    DivModUnique(a, n, k, b);
  }

  lemma CongruentTrans(a: nat, b: nat, c: nat, n: nat)
    requires Congruent(a, b, n) && Congruent(b, c, n)
    ensures Congruent(a, c, n)
  {
    var j, k := (a - b) / n, (b - c) / n;
    assert a - b == j * n && b - c == k * n;
    assert (j + k) * n == j * n + k * n;
    MultipleDivides(j + k, n);
  }

  /** A congruence holds for divisors of its modulus. */
  lemma CongruentDown(a: nat, b: nat, m: nat, d: nat)
    requires d > 0 && Congruent(a, b, m * d)
    ensures Congruent(a, b, d)
  {
    var k := (a - b) / (m * d);
    assert a - b == k * (m * d) == (k * m) * d;
    MultipleDivides(k * m, d);
  }

  // ---------- a word and the position it gives ----------

  /** Position i is the word's low bits, as many as the next power of two of n0 has, taken modulo n0. */
  ghost predicate Lands(word: nat, n0: nat, i: nat) {
    i < n0 && exists low: nat :: low < NextPowerOfTwo(n0) && Congruent(word, low, NextPowerOfTwo(n0))
                                 && Congruent(low, i, n0)
  }

  /** Every word lands at exactly one position, the one queries are made at. */
  lemma LandsIff<A, T>(S: Setup<A, T>, seed: A, q: nat, n0: nat, i: nat)
    requires n0 > 0
    ensures Lands(S.index(seed, q), n0, i) <==> i == RawIndex(S, seed, q, n0)
  {
    var word, p := S.index(seed, q), NextPowerOfTwo(n0);
    if Lands(word, n0, i) {
      var low: nat :| low < p && Congruent(word, low, p) && Congruent(low, i, n0);
      CongruentIsRem(word, low, p);
      CongruentIsRem(low, i, n0);
    }
    RemCongruent(word, p);
    RemCongruent(Rem(word, p), n0);
    var at := RawIndex(S, seed, q, n0);
    assert Congruent(word, Rem(word, p), p) && Congruent(Rem(word, p), at, n0);
  }

  /** On a power of two, where the word itself says. */
  lemma LandsOnPower(word: nat, n0: nat, i: nat)
    requires IsPowerOfTwo(n0)
    ensures Lands(word, n0, i) <==> i < n0 && Congruent(word, i, n0)
  {
    NextOfPower(n0);
    if Lands(word, n0, i) {
      var low: nat :| low < n0 && Congruent(word, low, n0) && Congruent(low, i, n0);
      CongruentTrans(word, low, i, n0);
    }
    if i < n0 && Congruent(word, i, n0) {
      assert Congruent(i, i, n0);
    }
  }

  // ---------- from layer to layer ----------

  /** In every layer a query sits at the remainder of its first position by the layer's size. */
  lemma {:induction false} IndexAtIs(raw: nat, n0: nat, schedule: seq<nat>, ell: nat)
    requires Divisible(n0, schedule) && raw < n0 && ell <= |schedule|
    ensures
      var (i, n) := (IndexAt(raw, n0, schedule, ell), SizeAt(n0, schedule, ell));
      i < n && Congruent(raw, i, n)
    decreases ell
  {
    FitSizes(n0, schedule, ell);
    if ell == 0 {
      assert Congruent(raw, raw, n0);
    } else {
      var before := ell - 1;
      var (above, n) := (IndexAt(raw, n0, schedule, before), SizeAt(n0, schedule, ell));
      IndexAtIs(raw, n0, schedule, before);
      assert DividesAt(n0, schedule, before);
      ExactQuotient(SizeAt(n0, schedule, before), schedule[before]);
      CongruentDown(raw, above, schedule[before], n);
      RemCongruent(above, n);
      CongruentTrans(raw, above, Rem(above, n), n);
    }
  }

  /** What a STIR payload says about its positions. */
  ghost predicate StirSeated<A, T>(S: Setup<A, T>, seed: A, n0: nat, m: nat, half: nat, qi: nat,
                                   pq: StirPayload<A, T>) {
    && Lands(S.index(seed, qi), n0, pq.rawQueryIndex)
    && pq.baseIndex < half && Congruent(pq.rawQueryIndex, pq.baseIndex, half)
    && |pq.fiberIndices| == |pq.fiberFVals| == m
    && forall j :: 0 <= j < m ==> pq.fiberIndices[j] == pq.baseIndex + j * half
  }

  ghost predicate RefSeated<T>(n0: nat, schedule: seq<nat>, qp: QueryPayload<T>, ell: nat)
    requires ell < |schedule| <= |qp.refs|
  {
    && qp.refs[ell].i < SizeAt(n0, schedule, ell)
    && Congruent(qp.refs[0].i, qp.refs[ell].i, SizeAt(n0, schedule, ell))
  }

  /** What a classic payload says about its positions. */
  ghost predicate ClassicSeated<A, T>(S: Setup<A, T>, seed: A, n0: nat, schedule: seq<nat>, q: nat,
                                      qp: QueryPayload<T>) {
    && schedule != [] && |qp.refs| >= |schedule| && Lands(S.index(seed, q), n0, qp.refs[0].i)
    && (forall ell :: 0 <= ell < |schedule| ==> RefSeated(n0, schedule, qp, ell))
    && qp.finalIndex < SizeAt(n0, schedule, |schedule|)
    && Congruent(qp.refs[0].i, qp.finalIndex, SizeAt(n0, schedule, |schedule|))
  }

  lemma {:induction false} FibreIndexIs(b: nat, half: nat, m: nat, j: nat)
    requires j < m
    ensures FibreIndices(b, half, m)[j] == b + j * half
  {
    if j < m - 1 {
      FibreIndexIs(b, half, m - 1, j);
    }
  }

  lemma FibreSeated<A, T>(S: Setup<A, T>, seed: A, n0: nat, rootF0: Digest, m: nat, half: nat, qi: nat,
                          pq: StirPayload<A, T>)
    requires n0 > 0 && half > 0 && FibreOk(S, rootF0, m, half, RawIndex(S, seed, qi, n0), pq)
    ensures StirSeated(S, seed, n0, m, half, qi, pq)
  {
    LandsIff(S, seed, qi, n0, pq.rawQueryIndex);
    RemCongruent(pq.rawQueryIndex, half);
    forall j | 0 <= j < m
      ensures pq.fiberIndices[j] == pq.baseIndex + j * half
    {
      FibreIndexIs(pq.baseIndex, half, m, j);
    }
  }

  lemma PositionsSeated<A, T>(S: Setup<A, T>, seed: A, n0: nat, schedule: seq<nat>, q: nat, qp: QueryPayload<T>)
    requires n0 > 0 && Divisible(n0, schedule) && |qp.refs| >= |schedule|
    requires PositionsOk(RawIndex(S, seed, q, n0), n0, schedule, qp)
    ensures ClassicSeated(S, seed, n0, schedule, q, qp)
  {
    var raw := RawIndex(S, seed, q, n0);
    LandsIff(S, seed, q, n0, raw);
    assert PositionAt(raw, n0, schedule, qp, 0);
    forall ell: nat | ell < |schedule|
      ensures RefSeated(n0, schedule, qp, ell)
    {
      assert PositionAt(raw, n0, schedule, qp, ell);
      IndexAtIs(raw, n0, schedule, ell);
    }
    IndexAtIs(raw, n0, schedule, |schedule|);
  }

  ghost predicate ValueSent<A, T>(f0: seq<A>, pq: StirPayload<A, T>, j: nat)
    requires j < |pq.fiberIndices| == |pq.fiberFVals|
  {
    pq.fiberIndices[j] < |f0| && pq.fiberFVals[j] == f0[pq.fiberIndices[j]]
  }

  /** The payload names its positions and carries the word's values there. */
  ghost predicate FibreSent<A, T>(S: Setup<A, T>, seed: A, f0: seq<A>, m: nat, half: nat, qi: nat,
                                  pq: StirPayload<A, T>) {
    StirSeated(S, seed, |f0|, m, half, qi, pq) && forall j :: 0 <= j < m ==> ValueSent(f0, pq, j)
  }

  lemma StirHonestSends<A, T>(S: Setup<A, T>, f0: seq<A>, rootF0: Digest, m: nat, half: nat,
                              second: Option<SecondLayer<T>>, seed: A, qi: nat, pq: StirPayload<A, T>)
    requires |f0| == m * half && half > 0 && |f0| > 0
    requires StirHonest(S, f0, rootF0, m, half, second, RawIndex(S, seed, qi, |f0|), pq)
    ensures FibreSent(S, seed, f0, m, half, qi, pq)
  {
    FibreSeated(S, seed, |f0|, rootF0, m, half, qi, pq);
    FibreIsSent(f0, m, half, pq);
  }

  lemma FibreEntry<A>(f0: seq<A>, m: nat, half: nat, b: nat, j: nat, at: nat)
    requires |f0| == m * half && b < half && j < m && at == b + j * half
    ensures at < |f0| && Fibre(f0, m, half, b)[j] == f0[at]
  {
    GridInRange(m, half, b, j);
  }

  lemma FibreIsSent<A, T>(f0: seq<A>, m: nat, half: nat, pq: StirPayload<A, T>)
    requires |f0| == m * half && pq.baseIndex < half && |pq.fiberIndices| == m
    requires pq.fiberFVals == Fibre(f0, m, half, pq.baseIndex)
    requires forall j :: 0 <= j < m ==> pq.fiberIndices[j] == pq.baseIndex + j * half
    ensures |pq.fiberFVals| == m && forall j :: 0 <= j < m ==> ValueSent(f0, pq, j)
  {
    forall j: nat | j < m
      ensures ValueSent(f0, pq, j)
    {
      FibreEntry(f0, m, half, pq.baseIndex, j, pq.fiberIndices[j]);
    }
  }

  lemma ClassicHonestSeated<A, T>(S: Setup<A, T>, params: Params, f0: seq<A>, run: Run<T>, seed: A, q: nat,
                                  qp: QueryPayload<T>, openings: seq<MerkleOpening>)
    requires |f0| > 0 && GoodSchedule(|f0|, params.schedule) && |run.layers| == |params.schedule| == |openings|
    requires ClassicHonest(S, params, f0, run, RawIndex(S, seed, q, |f0|), qp, openings)
    ensures ClassicSeated(S, seed, |f0|, params.schedule, q, qp)
  {
    GoodIsFit(|f0|, params.schedule);
    PositionsSeated(S, seed, |f0|, params.schedule, q, qp);
  }

  /** An accepted STIR query is in its place. */
  lemma StirOkSeated<A, T>(S: Setup<A, T>, x: QueryContext<A, T>, qi: nat, pq: StirPayload<A, T>)
    requires ContextFits(x)
    ensures StirQueryOk(S, x, qi, pq) ==>
      StirSeated(S, x.seed, x.n0, x.schedule[0], SizeAt(x.n0, x.schedule, 1), qi, pq)
  {
    if StirQueryOk(S, x, qi, pq) {
      FibreSeated(S, x.seed, x.n0, x.rootF0, x.schedule[0], SizeAt(x.n0, x.schedule, 1), qi, pq);
    }
  }

  ghost predicate FirstLands<A, T>(S: Setup<A, T>, seed: A, n0: nat, queries: seq<QueryPayload<T>>, q: nat) {
    q < |queries| && queries[q].refs != [] && Lands(S.index(seed, q), n0, queries[q].refs[0].i)
  }

  /** An accepted classic query starts in its place. */
  lemma ClassicOkLands<A, T>(S: Setup<A, T>, x: QueryContext<A, T>, params: Params, proof: Proof<A, T>, q: nat)
    requires ContextFits(x) && x.schedule == params.schedule
    ensures ClassicQueryAt(S, x, params, proof, q) ==> FirstLands(S, x.seed, x.n0, proof.queries, q)
  {
    if ClassicQueryAt(S, x, params, proof, q) {
      assert PositionAt(RawIndex(S, x.seed, q, x.n0), x.n0, x.schedule, proof.queries[q], 0);
      LandsIff(S, x.seed, q, x.n0, proof.queries[q].refs[0].i);
    }
  }

  // ---------- whole proofs ----------

  /** Every query of a proof sits where the seed drawn from the proof's own commitments puts it. */
  ghost predicate QueriesSeated<A, T>(S: Setup<A, T>, params: Params, proof: Proof<A, T>) {
    && params.schedule != [] && CommitmentsFit(params, proof)
    && var seed := QuerySeed(S, params, CommitmentsOf(params, proof));
       if params.stir then
         && proof.stirProximityQueries.Some? && |proof.stirProximityQueries.value| == params.s0
         && forall qi :: 0 <= qi < params.s0 ==>
              StirSeated(S, seed, proof.n0, params.schedule[0], SizeAt(proof.n0, params.schedule, 1), qi,
                         proof.stirProximityQueries.value[qi])
       else
         && |proof.queries| >= params.r
         && forall q :: 0 <= q < params.r ==>
              ClassicSeated(S, seed, proof.n0, params.schedule, q, proof.queries[q])
  }

  /** So it is in every proof the verifier accepts. */
  lemma AcceptedSeated<A, T>(S: Setup<A, T>, params: Params, proof: Proof<A, T>)
    requires Accepts(S, params, proof)
    ensures QueriesSeated(S, params, proof)
  {
    var c := CommitmentsOf(params, proof);
    CommitmentsShape(S, params, proof);
    var x := ContextOf(S, params, c, proof.coeffTuples);
    if proof.n0 > 0 {
      if params.stir {
        forall qi: nat | qi < params.s0
          ensures StirSeated(S, x.seed, proof.n0, params.schedule[0], SizeAt(proof.n0, params.schedule, 1), qi,
                             proof.stirProximityQueries.value[qi])
        {
          assert StirQueryOk(S, x, qi, proof.stirProximityQueries.value[qi]);
          FibreSeated(S, x.seed, proof.n0, x.rootF0, params.schedule[0], SizeAt(proof.n0, params.schedule, 1), qi,
                      proof.stirProximityQueries.value[qi]);
        }
      } else {
        ClassicReach(S, x, params, proof);
        forall q: nat | q < params.r
          ensures ClassicSeated(S, x.seed, proof.n0, params.schedule, q, proof.queries[q])
        {
          assert ClassicQueryAt(S, x, params, proof, q);
          PositionsSeated(S, x.seed, proof.n0, params.schedule, q, proof.queries[q]);
        }
      }
    }
  }

  lemma ClassicReach<A, T>(S: Setup<A, T>, x: QueryContext<A, T>, params: Params, proof: Proof<A, T>)
    requires ContextFits(x) && x.schedule == params.schedule && !params.stir && QueriesOk(S, x, params, proof)
    ensures |proof.queries| >= params.r
  {
    if params.r > 0 {
      assert ClassicQueryAt(S, x, params, proof, params.r - 1);
    }
  }

  /** And in every proof the prover makes. */
  lemma HonestSeated<A, T>(S: Setup<A, T>, params: Params, f0: seq<A>, run: Run<T>, proof: Proof<A, T>)
    requires HonestProof(S, params, f0, run, proof)
    ensures QueriesSeated(S, params, proof)
  {
    var n0, seed := |f0|, QuerySeed(S, params, run.c);
    GoodIsFit(n0, params.schedule);
    assert LayerFits(n0, params.schedule, 0);
    assert n0 == params.schedule[0] * SizeAt(n0, params.schedule, 1);
    if params.stir {
      forall qi: nat | qi < params.s0
        ensures StirSeated(S, seed, n0, params.schedule[0], SizeAt(n0, params.schedule, 1), qi,
                           proof.stirProximityQueries.value[qi])
      {
        FibreSeated(S, seed, n0, run.c.rootF0, params.schedule[0], SizeAt(n0, params.schedule, 1), qi,
                    proof.stirProximityQueries.value[qi]);
      }
    } else {
      if params.r > 0 {
        assert QueriesFit(params, proof, params.r - 1);
      }
      forall q: nat | q < params.r
        ensures ClassicSeated(S, seed, n0, params.schedule, q, proof.queries[q])
      {
        PositionsSeated(S, seed, n0, params.schedule, q, proof.queries[q]);
      }
    }
  }
}
