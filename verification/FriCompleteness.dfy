/** Completeness: the verifier accepts what the honest prover sends for a word of low degree. */
module FriCompleteness {
  import opened Arith
  import opened Rings
  import opened Polynomials
  import opened Folding
  import opened Domains
  import opened FriLayers
  import opened Hashing
  import opened Merkle
  import opened FriSetup
  import opened FriProtocol
  import opened FriProver
  import opened FriQueries
  import opened FriAcceptance
  import opened FriVerifier

  // ---------- one fold ----------

  /** The next domain is that of m-th powers. */
  ghost predicate FoldsTo<T(!new)>(k: Field<T>, d: Domain<T>, next: Domain<T>, m: nat, q: nat) {
    && IsField(k) && ValidDomain(k.ring, d) && ValidDomain(k.ring, next)
    && d.size == m * q && next.size == q && IsPowerOfTwo(m) && IsPowerOfTwo(q) && next.gen == Pow(k.ring, d.gen, m)
  }

  function FoldedWord<T>(k: Field<T>, d: Domain<T>, word: seq<T>, m: nat, q: nat, alpha: T): seq<T>
    requires |word| == m * q
  {
    FoldTuples(k.ring, CosetTuples(k, word, d.gen, m, q), alpha)
  }

  /** The folded word's polynomial is the fold of the word's polynomial. */
  lemma FoldedPolynomial<T(!new)>(k: Field<T>, d: Domain<T>, next: Domain<T>, word: seq<T>, m: nat, q: nat, alpha: T)
    requires FoldsTo(k, d, next, m, q) && |word| == m * q
    ensures
      var F := Fold(k.ring, Ifft(k.ring, d, word), alpha, m);
      && |F| <= q && FoldedWord(k, d, word, m, q, alpha) == Codeword(k.ring, F, next.gen, q)
      && Ifft(k.ring, next, FoldedWord(k, d, word, m, q, alpha)) == F + Zeros(k.ring, q - |F|)
  {
    var a := Ifft(k.ring, d, word);
    CodewordOfIfft(k.ring, d, word);
    FoldOfCodeword(k, d, a, m, q, alpha);
    assert m * q == q * m;
    FoldLength(k.ring, a, alpha, m, q);
    IfftOfCodeword(k.ring, next, Fold(k.ring, a, alpha, m));
  }

  /** Folding the out-of-domain interpolant gives the next word's polynomial at z^m. */
  lemma OodFolds<T(!new)>(k: Field<T>, d: Domain<T>, next: Domain<T>, word: seq<T>, m: nat, q: nat, alpha: T, z: T)
    requires FoldsTo(k, d, next, m, q) && |word| == m * q && z != k.ring.zero
    ensures
      var zeta := Pow(k.ring, d.gen, q);
      Eval(k.ring, Interpolant(k.ring, CosetValues(k.ring, Ifft(k.ring, d, word), z, zeta, m),
                               InversesOf(k, m, zeta, z)), alpha)
      == Eval(k.ring, Ifft(k.ring, next, FoldedWord(k, d, word, m, q, alpha)), Pow(k.ring, z, m))
  {
    var F := Fold(k.ring, Ifft(k.ring, d, word), alpha, m);
    OodConsistency(k, d, Ifft(k.ring, d, word), m, q, z, alpha);
    FoldedPolynomial(k, d, next, word, m, q, alpha);
    EvalPad(k.ring, F, q - |F|, Pow(k.ring, z, m));
  }

  /** Folding divides the degree bound by m. */
  lemma DegreeFolds<T(!new)>(k: Field<T>, d: Domain<T>, next: Domain<T>, word: seq<T>, m: nat, q: nat, alpha: T, D: nat)
    requires FoldsTo(k, d, next, m, q) && |word| == m * q && LowDegree(k.ring, d, word, D * m)
    ensures LowDegree(k.ring, next, FoldedWord(k, d, word, m, q, alpha), D)
  {
    var a :| |a| <= D * m && |a| <= d.size && word == Codeword(k.ring, a, d.gen, d.size);
    DegreeFoldsOf(k, d, next, a, m, q, alpha, D);
  }

  lemma DegreeFoldsOf<T(!new)>(k: Field<T>, d: Domain<T>, next: Domain<T>, a: seq<T>, m: nat, q: nat, alpha: T, D: nat)
    requires FoldsTo(k, d, next, m, q) && |a| <= D * m && |a| <= d.size
    ensures LowDegree(k.ring, next, FoldedWord(k, d, Codeword(k.ring, a, d.gen, d.size), m, q, alpha), D)
  {
    var F := Fold(k.ring, a, alpha, m);
    FoldOfCodeword(k, d, a, m, q, alpha);
    FoldFits(k.ring, a, alpha, m, q, D);
    assert |F| <= D && |F| <= next.size && FoldedWord(k, d, Codeword(k.ring, a, d.gen, d.size), m, q, alpha)
        == Codeword(k.ring, F, next.gen, next.size);
  }

  lemma FoldFits<T>(r: Ring<T>, a: seq<T>, alpha: T, m: nat, q: nat, D: nat)
    requires m > 0 && |a| <= D * m && |a| <= m * q
    ensures |Fold(r, a, alpha, m)| <= D && |Fold(r, a, alpha, m)| <= q
  {
    assert m * q == q * m;
    FoldLength(r, a, alpha, m, D);
    FoldLength(r, a, alpha, m, q);
  }

  /** A low-degree word's coefficients are zero from the bound on. */
  lemma TailIsZero<T(!new)>(r: Ring<T>, d: Domain<T>, word: seq<T>, cut: nat, all: seq<T>)
    requires IsRing(r) && ValidDomain(r, d) && |word| == d.size && LowDegree(r, d, word, cut)
    requires all == Ifft(r, d, word) && cut < |all|
    ensures all == all[..cut] + Zeros(r, |all| - cut)
  {
    LowDegreeIff(r, d, word, cut);
    SplitTail(r, all, cut);
  }

  /** The truncated coefficients of a low-degree word are its polynomial. */
  lemma FinalEvaluates<T(!new)>(r: Ring<T>, d: Domain<T>, word: seq<T>, dFinal: nat, x: T)
    requires IsRing(r) && ValidDomain(r, d) && |word| == d.size && LowDegree(r, d, word, dFinal)
    ensures Eval(r, FinalCoeffs(r, d, word, dFinal), x) == Eval(r, Ifft(r, d, word), x)
  {
    var all := Ifft(r, d, word);
    if dFinal < |all| {
      TailIsZero(r, d, word, dFinal, all);
      EvalPad(r, all[..dFinal], |all| - dFinal, x);
    }
  }

  /** A word's entries are its polynomial's values. */
  lemma WordEntry<T(!new)>(r: Ring<T>, d: Domain<T>, word: seq<T>, b: nat)
    requires IsRing(r) && ValidDomain(r, d) && |word| == d.size && b < d.size
    ensures word[b] == Eval(r, Ifft(r, d, word), Pow(r, d.gen, b))
  {
    CodewordOfIfft(r, d, word);
    assert Codeword(r, Ifft(r, d, word), d.gen, d.size)[b] == Eval(r, Ifft(r, d, word), Pow(r, d.gen, b));
  }

  /** The coefficient tuple over position b reproduces the word at every point above b. */
  lemma TupleEntry<T(!new)>(k: Field<T>, d: Domain<T>, next: Domain<T>, word: seq<T>, m: nat, q: nat, i: nat, b: nat)
    requires FoldsTo(k, d, next, m, q) && |word| == m * q && i < m * q && q > 0 && b == Rem(i, q)
    ensures Eval(k.ring, CosetTuple(k, word, d.gen, m, q, b), Pow(k.ring, d.gen, i)) == word[i]
  {
    var r, a, x := k.ring, Ifft(k.ring, d, word), Pow(k.ring, d.gen, i);
    CodewordOfIfft(r, d, word);
    TuplesOfCodeword(k, d, a, m, q, b);
    PointAbove(r, d, next, m, q, i, b);
    PartsAtPoint(r, a, x, m);
    WordEntry(r, d, word, i);
  }

  /** The m-th power of point i is point i mod q of the next domain. */
  lemma PointAbove<T(!new)>(r: Ring<T>, d: Domain<T>, next: Domain<T>, m: nat, q: nat, i: nat, b: nat)
    requires IsRing(r) && ValidDomain(r, next) && next.size == q > 0 && next.gen == Pow(r, d.gen, m) && b == Rem(i, q)
    ensures Pow(r, Pow(r, d.gen, i), m) == Pow(r, Pow(r, d.gen, m), b)
  {
    var t := Quot(i, q);
    BlockOf(i, q, t * q);
    PowOfPower(r, d.gen, i, m);
    PowOfPower(r, d.gen, m, i);
    assert i * m == m * i;
    PowAdd(r, next.gen, t * q, b);
    assert t * q == q * t;
    PowOfPower(r, next.gen, q, t);
    RootPower(r, next.gen, q);
    PowOfOne(r, t);
    MulOne(r, Pow(r, next.gen, b));
    MulCommutes(r, r.one, Pow(r, next.gen, b));
  }

  // ---------- the layers of an honest run ----------

  ghost predicate LayerView<T(!new)>(k: Field<T>, d: Domain<T>, next: Domain<T>, m: nat, q: nat, y: Layer<T>) {
    FoldsTo(k, d, next, m, q) && |y.word| == m * q && y.next == FoldedWord(k, d, y.word, m, q, y.alpha)
  }

  /** The domain of layer ell. */
  function DomainAt<A, T>(S: Setup<A, T>, n0: nat, schedule: seq<nat>, ell: nat): Domain<T>
    requires ell <= |schedule|
  {
    S.domains(SizeAt(n0, schedule, ell))
  }

  lemma DomainsFold<A(!new), T(!new)>(S: Setup<A, T>, n0: nat, schedule: seq<nat>, ell: nat)
    requires ValidSetup(S) && ell < |schedule| && LayerFits(n0, schedule, ell)
    ensures FoldsTo(S.k, DomainAt(S, n0, schedule, ell), DomainAt(S, n0, schedule, ell + 1), schedule[ell],
                    SizeAt(n0, schedule, ell + 1))
  {
    var m, q := schedule[ell], SizeAt(n0, schedule, ell + 1);
    assert DomainFits(S, m * q) && DomainFits(S, q) && DomainsNest(S, m, q);
  }

  /** The algebra of layer ell, the roots left out: it folds its word at its challenge, starts where the one
      before ended, and sends its polynomial's out-of-domain values. */
  ghost predicate LayerMath<A, T(!new)>(S: Setup<A, T>, params: Params, f0: seq<A>, run: Run<T>, ell: nat)
    requires ell < |params.schedule| == |run.layers| == |run.c.msgs|
  {
    var (y, m, q) := (run.layers[ell], params.schedule[ell], SizeAt(|f0|, params.schedule, ell + 1));
    var (d, z0) := (DomainAt(S, |f0|, params.schedule, ell), FirstZ(S, params, |f0|, run.c.rootF0));
    && LayerView(S.k, d, DomainAt(S, |f0|, params.schedule, ell + 1), m, q, y)
    && y.msg == run.c.msgs[ell] && y.word == WordInto(Image(S.emb, f0), run.layers, ell)
    && y.alpha == AlphaAt(S, params, run.c, ell)
    && (params.stir ==>
        && y.z == ZAt(S.k.ring, z0, params.schedule, ell)
        && y.msg.ood == CosetValues(S.k.ring, Ifft(S.k.ring, d, y.word), y.z, Pow(S.k.ring, d.gen, q), m))
    && (!params.stir ==>
        && y.msg.ood == [Eval(S.k.ring, Ifft(S.k.ring, d, y.word), z0)]
        && |y.s| == |y.word| && y.q == QValues(S.k, y.word, d.gen, z0, y.msg.ood[0])
        && (ell < params.NormalLayers() ==> |y.next| > 0 && y.s == SValues(y.next, |y.word|)))
  }

  /** The algebra of a run. */
  ghost predicate RunMath<A, T(!new)>(S: Setup<A, T>, params: Params, f0: seq<A>, run: Run<T>) {
    var last := |params.schedule| - 1;
    && GoodSchedule(|f0|, params.schedule) && |run.layers| == |run.c.msgs| == |params.schedule| && run.c.n0 == |f0|
    && (forall ell :: 0 <= ell < |params.schedule| ==> LayerMath(S, params, f0, run, ell))
    && (params.UsesCommit() ==>
        && |run.layers[last].word| == params.schedule[last] * SizeAt(|f0|, params.schedule, last + 1)
        && run.tuples == CosetTuples(S.k, run.layers[last].word, DomainAt(S, |f0|, params.schedule, last).gen,
                                     params.schedule[last], SizeAt(|f0|, params.schedule, last + 1)))
  }

  /** The same with the final coefficients. */
  ghost predicate FullMath<A, T(!new)>(S: Setup<A, T>, params: Params, f0: seq<A>, run: Run<T>) {
    var end := |params.schedule|;
    RunMath(S, params, f0, run) && run.c.final
        == FinalCoeffs(S.k.ring, DomainAt(S, |f0|, params.schedule, end), run.layers[end - 1].next, params.dFinal)
  }

  lemma MathOfLayer<A(!new), T(!new)>(S: Setup<A, T>, params: Params, f0: seq<A>, run: Run<T>, ell: nat)
    requires ValidSetup(S) && GoodSchedule(|f0|, params.schedule)
    requires ell < |params.schedule| == |run.layers| == |run.c.msgs| && run.c.n0 == |f0|
    requires LayerOfRun(S, params, f0, run, ell)
    ensures LayerMath(S, params, f0, run, ell)
  {
    assert LayerFits(|f0|, params.schedule, ell);
    DomainsFold(S, |f0|, params.schedule, ell);
  }

  lemma MathOfRun<A(!new), T(!new)>(S: Setup<A, T>, params: Params, f0: seq<A>, run: Run<T>)
    requires ValidSetup(S) && HonestRun(S, params, f0, run)
    ensures FullMath(S, params, f0, run)
  {
    forall ell: nat | ell < |params.schedule|
      ensures LayerMath(S, params, f0, run, ell)
    {
      assert LayerOfRun(S, params, f0, run, ell);
      MathOfLayer(S, params, f0, run, ell);
    }
  }

  lemma ViewOf<A(!new), T(!new)>(S: Setup<A, T>, params: Params, f0: seq<A>, run: Run<T>, ell: nat)
    requires RunMath(S, params, f0, run) && ell < |params.schedule|
    ensures LayerView(S.k, DomainAt(S, |f0|, params.schedule, ell), DomainAt(S, |f0|, params.schedule, ell + 1),
                      params.schedule[ell], SizeAt(|f0|, params.schedule, ell + 1), run.layers[ell])
  {
    assert LayerMath(S, params, f0, run, ell);
  }

  lemma NextWord<A(!new), T(!new)>(S: Setup<A, T>, params: Params, f0: seq<A>, run: Run<T>, ell: nat)
    requires RunMath(S, params, f0, run) && ell < |params.schedule|
    ensures run.layers[ell].word == WordInto(Image(S.emb, f0), run.layers, ell)
  {
    assert LayerMath(S, params, f0, run, ell);
  }

  lemma ViewEnds<T(!new)>(k: Field<T>, d: Domain<T>, next: Domain<T>, m: nat, q: nat, y: Layer<T>)
    requires LayerView(k, d, next, m, q, y)
    ensures IsRing(k.ring) && ValidDomain(k.ring, next) && |y.next| == q == next.size
  {
  }

  lemma EndWord<A(!new), T(!new)>(S: Setup<A, T>, params: Params, f0: seq<A>, run: Run<T>, last: nat, end: nat)
    requires RunMath(S, params, f0, run) && last + 1 == end == |params.schedule|
    ensures
      var d := DomainAt(S, |f0|, params.schedule, end);
      && IsRing(S.k.ring) && ValidDomain(S.k.ring, d)
      && |run.layers[last].next| == SizeAt(|f0|, params.schedule, end) == d.size
  {
    var (d, next) := (DomainAt(S, |f0|, params.schedule, last), DomainAt(S, |f0|, params.schedule, end));
    var (m, q, y) := (params.schedule[last], SizeAt(|f0|, params.schedule, end), run.layers[last]);
    assert LayerView(S.k, d, next, m, q, y) by {
      ViewOf(S, params, f0, run, last);
    }
    ViewEnds(S.k, d, next, m, q, y);
  }

  // ---------- degrees ----------

  /** f0 comes from at most dFinal times the product of the factors coefficients. */
  ghost predicate LowDegreeInput<A, T(!new)>(S: Setup<A, T>, params: Params, f0: seq<A>) {
    LowDegree(S.k.ring, S.domains(|f0|), Image(S.emb, f0), params.dFinal * ProductOf(params.schedule))
  }

  /** How many coefficients the word entering layer ell may have. */
  function DegreeBound(params: Params, ell: nat): nat
    requires ell <= |params.schedule|
  {
    params.dFinal * ProductOf(params.schedule[ell..])
  }

  lemma BoundStep(params: Params, ell: nat)
    requires ell < |params.schedule|
    ensures DegreeBound(params, ell) == DegreeBound(params, ell + 1) * params.schedule[ell]
  {
    var (D, m, rest) := (params.dFinal, params.schedule[ell], ProductOf(params.schedule[ell + 1..]));
    assert params.schedule[ell..][1..] == params.schedule[ell + 1..];
    assert D * (m * rest) == (D * rest) * m;
  }

  ghost predicate WordLow<A, T(!new)>(S: Setup<A, T>, n0: nat, params: Params, ell: nat, word: seq<T>)
    requires ell <= |params.schedule|
  {
    LowDegree(S.k.ring, DomainAt(S, n0, params.schedule, ell), word, DegreeBound(params, ell))
  }

  /** The word entering layer ell, and after the last layer the final one, has no more coefficients than that. */
  lemma {:induction false} WordDegree<A(!new), T(!new)>(S: Setup<A, T>, params: Params, f0: seq<A>, run: Run<T>,
                                                        ell: nat)
    requires RunMath(S, params, f0, run) && LowDegreeInput(S, params, f0) && ell <= |params.schedule| == |run.layers|
    ensures WordLow(S, |f0|, params, ell, WordInto(Image(S.emb, f0), run.layers, ell))
  {
    if ell == 0 {
      assert params.schedule[0..] == params.schedule;
    } else {
      var k := ell - 1;
      assert WordLow(S, |f0|, params, k, run.layers[k].word) by {
        WordDegree(S, params, f0, run, k);
        NextWord(S, params, f0, run, k);
      }
      ViewOf(S, params, f0, run, k);
      FoldedDegree(S, |f0|, params, k, run.layers[k]);
    }
  }

  lemma FoldedDegree<A(!new), T(!new)>(S: Setup<A, T>, n0: nat, params: Params, ell: nat, y: Layer<T>)
    requires ell < |params.schedule| && WordLow(S, n0, params, ell, y.word)
    requires LayerView(S.k, DomainAt(S, n0, params.schedule, ell), DomainAt(S, n0, params.schedule, ell + 1),
                       params.schedule[ell], SizeAt(n0, params.schedule, ell + 1), y)
    ensures WordLow(S, n0, params, ell + 1, y.next)
  {
    BoundStep(params, ell);
    DegreeFolds(S.k, DomainAt(S, n0, params.schedule, ell), DomainAt(S, n0, params.schedule, ell + 1), y.word,
                params.schedule[ell], SizeAt(n0, params.schedule, ell + 1), y.alpha, DegreeBound(params, ell + 1));
  }

  lemma BoundAtEnd(params: Params, end: nat)
    requires end == |params.schedule|
    ensures DegreeBound(params, end) == params.dFinal
  {
    assert params.schedule[end..] == [];
  }

  /** The last word has at most dFinal coefficients. */
  lemma LastDegree<A(!new), T(!new)>(S: Setup<A, T>, params: Params, f0: seq<A>, run: Run<T>, last: nat, end: nat)
    requires RunMath(S, params, f0, run) && LowDegreeInput(S, params, f0)
    requires |run.layers| == |params.schedule| == end == last + 1
    ensures LowDegree(S.k.ring, DomainAt(S, |f0|, params.schedule, end), run.layers[last].next, params.dFinal)
  {
    BoundAtEnd(params, end);
    WordDegree(S, params, f0, run, end);
  }

  /** The final polynomial takes the last word's values. */
  lemma FinalIsLast<A(!new), T(!new)>(S: Setup<A, T>, params: Params, f0: seq<A>, run: Run<T>, last: nat, end: nat,
                                      b: nat)
    requires FullMath(S, params, f0, run) && LowDegreeInput(S, params, f0)
    requires last + 1 == end == |params.schedule| == |run.layers| && b < SizeAt(|f0|, params.schedule, end)
    ensures |run.layers[last].next| == SizeAt(|f0|, params.schedule, end)
    ensures FinalAt(S, SizeAt(|f0|, params.schedule, end), run.c.final, b) == run.layers[last].next[b]
  {
    var d, word := DomainAt(S, |f0|, params.schedule, end), run.layers[last].next;
    EndWord(S, params, f0, run, last, end);
    FinalAnywhere(S, params, f0, run, last, end, Pow(S.k.ring, d.gen, b));
    WordEntry(S.k.ring, d, word, b);
  }

  // ---------- the checks before the queries ----------

  lemma FinalSize<A(!new), T(!new)>(S: Setup<A, T>, params: Params, f0: seq<A>, run: Run<T>, last: nat, end: nat)
    requires FullMath(S, params, f0, run) && last + 1 == end == |params.schedule| == |run.layers|
    ensures |run.c.final| == params.dFinal <==> params.dFinal <= SizeAt(|f0|, params.schedule, end)
  {
    EndWord(S, params, f0, run, last, end);
  }

  /** The polynomial of a word of layer ell, at the layer's out-of-domain point. */
  function AtPoint<A, T>(S: Setup<A, T>, n0: nat, schedule: seq<nat>, z0: T, ell: nat, word: seq<T>): T
    requires ell <= |schedule|
  {
    Eval(S.k.ring, Ifft(S.k.ring, DomainAt(S, n0, schedule, ell), word), ZAt(S.k.ring, z0, schedule, ell))
  }

  /** The first out-of-domain value of a layer is its polynomial at the layer's point. */
  lemma FirstOod<A(!new), T(!new)>(S: Setup<A, T>, params: Params, f0: seq<A>, run: Run<T>, ell: nat, z0: T)
    requires RunMath(S, params, f0, run) && params.stir && ell < |params.schedule| == |run.c.msgs| == |run.layers|
    requires z0 == FirstZ(S, params, |f0|, run.c.rootF0)
    ensures |run.c.msgs[ell].ood| > 0 && run.c.msgs[ell].ood[0]
        == AtPoint(S, |f0|, params.schedule, z0, ell, run.layers[ell].word)
  {
    assert LayerMath(S, params, f0, run, ell);
    FactorsPositive(|f0|, params.schedule);
    MulOne(S.k.ring, run.layers[ell].z);
  }

  /** What layer ell of a STIR run sends and draws. */
  lemma StirLayerFacts<A(!new), T(!new)>(S: Setup<A, T>, params: Params, f0: seq<A>, run: Run<T>, ell: nat, z0: T)
    requires RunMath(S, params, f0, run) && params.stir && ell < |params.schedule| == |run.c.msgs| == |run.layers|
    requires z0 == FirstZ(S, params, |f0|, run.c.rootF0)
    ensures run.c.n0 == |f0| && run.layers[ell].alpha == AlphaAt(S, params, run.c, ell)
    ensures run.layers[ell].z == ZAt(S.k.ring, z0, params.schedule, ell)
    ensures run.c.msgs[ell].ood
         == CosetValues(S.k.ring, Ifft(S.k.ring, DomainAt(S, |f0|, params.schedule, ell), run.layers[ell].word),
                        run.layers[ell].z,
                        Pow(S.k.ring, OmegaAt(S, params, |f0|, ell), SizeAt(|f0|, params.schedule, ell + 1)),
                        params.schedule[ell])
  {
    assert LayerMath(S, params, f0, run, ell);
  }

  lemma OodFoldsTo<A(!new), T(!new)>(S: Setup<A, T>, params: Params, c: Commitments<T>, y: Layer<T>, ell: nat,
                                     next: nat, z0: T)
    requires ell + 1 == next <= |params.schedule| == |c.msgs| && z0 == FirstZ(S, params, c.n0, c.rootF0)
    requires y.z == ZAt(S.k.ring, z0, params.schedule, ell)
    requires LayerView(S.k, DomainAt(S, c.n0, params.schedule, ell), DomainAt(S, c.n0, params.schedule, next),
                       params.schedule[ell], SizeAt(c.n0, params.schedule, next), y)
    requires c.msgs[ell].ood
          == CosetValues(S.k.ring, Ifft(S.k.ring, DomainAt(S, c.n0, params.schedule, ell), y.word), y.z,
                         Pow(S.k.ring, OmegaAt(S, params, c.n0, ell), SizeAt(c.n0, params.schedule, next)),
                         params.schedule[ell])
    requires y.z != S.k.ring.zero
    ensures Eval(S.k.ring, OodInterpolant(S, params, c, ell), y.alpha)
        == AtPoint(S, c.n0, params.schedule, z0, next, y.next)
  {
    var m, q := params.schedule[ell], SizeAt(c.n0, params.schedule, next);
    var d, after := DomainAt(S, c.n0, params.schedule, ell), DomainAt(S, c.n0, params.schedule, next);
    OodFolds(S.k, d, after, y.word, m, q, y.alpha, y.z);
    DomainCosets(S.k, d, m, q, y.z);
    OodInterpolantIs(S, params, c, ell, Pow(S.k.ring, d.gen, q), y.z);
    NextPoint(S.k.ring, z0, params.schedule, ell, next);
  }

  /** With as many values as the factor and a root of that order, the verifier interpolates. */
  lemma OodInterpolantIs<A, T(!new)>(S: Setup<A, T>, params: Params, c: Commitments<T>, ell: nat, zeta: T, z: T)
    requires IsRingWithInverse(S.k) && ell < |params.schedule| == |c.msgs| && |c.msgs[ell].ood| == params.schedule[ell]
    requires IsRoot(S.k.ring, zeta, params.schedule[ell]) && CanInterpolate(S.k, params.schedule[ell], zeta, z)
    requires z == ZAt(S.k.ring, FirstZ(S, params, c.n0, c.rootF0), params.schedule, ell)
    requires zeta == Pow(S.k.ring, OmegaAt(S, params, c.n0, ell), SizeAt(c.n0, params.schedule, ell + 1))
    ensures OodInterpolant(S, params, c, ell)
        == Interpolant(S.k.ring, c.msgs[ell].ood, InversesOf(S.k, params.schedule[ell], zeta, z))
  {
    InversesAreInverse(S.k, params.schedule[ell], zeta, z);
    RawRecovers(S.k.ring, c.msgs[ell].ood, InversesOf(S.k, params.schedule[ell], zeta, z), zeta, z);
  }

  lemma NextPoint<T>(r: Ring<T>, z0: T, schedule: seq<nat>, ell: nat, next: nat)
    requires ell + 1 == next <= |schedule|
    ensures ZAt(r, z0, schedule, next) == Pow(r, ZAt(r, z0, schedule, ell), schedule[ell])
  {
  }

  /** What the interpolant of layer ell folds to: the next word's polynomial at the next point. */
  lemma OodFoldValue<A(!new), T(!new)>(S: Setup<A, T>, params: Params, f0: seq<A>, run: Run<T>, ell: nat, next: nat,
                                       z0: T)
    requires RunMath(S, params, f0, run) && params.stir
    requires ell + 1 == next <= |params.schedule| == |run.c.msgs| == |run.layers|
    requires z0 == FirstZ(S, params, |f0|, run.c.rootF0) && z0 != S.k.ring.zero
    ensures Eval(S.k.ring, OodInterpolant(S, params, run.c, ell), run.layers[ell].alpha)
         == AtPoint(S, |f0|, params.schedule, z0, next, run.layers[ell].next)
  {
    var y := run.layers[ell];
    assert LayerView(S.k, DomainAt(S, |f0|, params.schedule, ell), DomainAt(S, |f0|, params.schedule, next),
                     params.schedule[ell], SizeAt(|f0|, params.schedule, next), y) by {
      ViewOf(S, params, f0, run, ell);
    }
    StirLayerFacts(S, params, f0, run, ell, z0);
    assert y.z != S.k.ring.zero by {
      PointNonZero(S.k, z0, params.schedule, ell);
    }
    OodFoldsTo(S, params, run.c, y, ell, next, z0);
  }

  lemma FinalAnywhere<A(!new), T(!new)>(S: Setup<A, T>, params: Params, f0: seq<A>, run: Run<T>, last: nat, end: nat,
                                        x: T)
    requires FullMath(S, params, f0, run) && LowDegreeInput(S, params, f0)
    requires last + 1 == end == |params.schedule| == |run.layers|
    ensures Eval(S.k.ring, run.c.final, x)
        == Eval(S.k.ring, Ifft(S.k.ring, DomainAt(S, |f0|, params.schedule, end), run.layers[last].next), x)
  {
    EndWord(S, params, f0, run, last, end);
    LastDegree(S, params, f0, run, last, end);
    FinalEvaluates(S.k.ring, DomainAt(S, |f0|, params.schedule, end), run.layers[last].next, params.dFinal, x);
  }

  lemma FollowingWord<A(!new), T(!new)>(S: Setup<A, T>, params: Params, f0: seq<A>, run: Run<T>, ell: nat, next: nat)
    requires RunMath(S, params, f0, run) && ell + 1 == next < |params.schedule|
    ensures run.layers[next].word == run.layers[ell].next
  {
    NextWord(S, params, f0, run, next);
  }

  /** What the verifier compares the fold with. */
  lemma ExpectedValue<A(!new), T(!new)>(S: Setup<A, T>, params: Params, f0: seq<A>, run: Run<T>, ell: nat, next: nat,
                                        z0: T, value: T)
    requires FullMath(S, params, f0, run) && LowDegreeInput(S, params, f0) && params.stir
    requires ell + 1 == next <= |params.schedule| == |run.c.msgs| == |run.layers|
    requires z0 == FirstZ(S, params, |f0|, run.c.rootF0)
    requires value == AtPoint(S, |f0|, params.schedule, z0, next, run.layers[ell].next)
    ensures next < |params.schedule| ==> |run.c.msgs[next].ood| > 0 && run.c.msgs[next].ood[0] == value
    ensures next == |params.schedule| ==> Eval(S.k.ring, run.c.final, ZAt(S.k.ring, z0, params.schedule, next)) == value
  {
    if next < |params.schedule| {
      FollowingWord(S, params, f0, run, ell, next);
      FirstOod(S, params, f0, run, next, z0);
    } else {
      FinalAnywhere(S, params, f0, run, ell, next, ZAt(S.k.ring, z0, params.schedule, next));
    }
  }

  /** The verifier's side of the check: it folds at the challenge read off the log. */
  lemma OodFoldAtChallenge<A(!new), T(!new)>(S: Setup<A, T>, params: Params, f0: seq<A>, run: Run<T>, ell: nat,
                                             next: nat, z0: T)
    requires RunMath(S, params, f0, run) && params.stir
    requires ell + 1 == next <= |params.schedule| == |run.c.msgs| == |run.layers|
    requires z0 == FirstZ(S, params, |f0|, run.c.rootF0) && z0 != S.k.ring.zero
    ensures Eval(S.k.ring, OodInterpolant(S, params, run.c, ell), AlphaAt(S, params, run.c, ell))
         == AtPoint(S, |f0|, params.schedule, z0, next, run.layers[ell].next)
  {
    assert run.layers[ell].alpha == AlphaAt(S, params, run.c, ell) by {
      StirLayerFacts(S, params, f0, run, ell, z0);
    }
    OodFoldValue(S, params, f0, run, ell, next, z0);
  }

  /** The out-of-domain check in any layer. */
  lemma OodOkAt<A(!new), T(!new)>(S: Setup<A, T>, params: Params, f0: seq<A>, run: Run<T>, ell: nat, next: nat)
    requires FullMath(S, params, f0, run) && LowDegreeInput(S, params, f0) && params.stir
    requires ell + 1 == next <= |params.schedule| == |run.c.msgs| == |run.layers|
    requires FirstZ(S, params, |f0|, run.c.rootF0) != S.k.ring.zero && OodFits(run.c) && run.c.n0 == |f0|
    ensures OodFoldOk(S, params, run.c, ell)
  {
    var z0 := FirstZ(S, params, |f0|, run.c.rootF0);
    var value := AtPoint(S, |f0|, params.schedule, z0, next, run.layers[ell].next);
    assert Eval(S.k.ring, OodInterpolant(S, params, run.c, ell), AlphaAt(S, params, run.c, ell)) == value by {
      OodFoldAtChallenge(S, params, f0, run, ell, next, z0);
    }
    ExpectedValue(S, params, f0, run, ell, next, z0, value);
    OodFoldFrom(S, params, run.c, ell, next, z0, value);
  }

  lemma OodFoldFrom<A, T>(S: Setup<A, T>, params: Params, c: Commitments<T>, ell: nat, next: nat, z0: T, value: T)
    requires ell + 1 == next <= |params.schedule| == |c.msgs| && OodFits(c) && z0 == FirstZ(S, params, c.n0, c.rootF0)
    requires Eval(S.k.ring, OodInterpolant(S, params, c, ell), AlphaAt(S, params, c, ell)) == value
    requires next < |params.schedule| ==> c.msgs[next].ood[0] == value
    requires next == |params.schedule| ==> Eval(S.k.ring, c.final, ZAt(S.k.ring, z0, params.schedule, next)) == value
    ensures OodFoldOk(S, params, c, ell)
  {
  }

  /** The committed tuples fold to a word of low degree, whatever the batching challenge. */
  lemma TuplesLow<A(!new), T(!new)>(S: Setup<A, T>, params: Params, f0: seq<A>, run: Run<T>, last: nat, beta: T)
    requires RunMath(S, params, f0, run) && LowDegreeInput(S, params, f0)
    requires last + 1 == |params.schedule| == |run.layers|
    ensures LayerView(S.k, DomainAt(S, |f0|, params.schedule, last), DomainAt(S, |f0|, params.schedule, last + 1),
                      params.schedule[last], SizeAt(|f0|, params.schedule, last + 1), run.layers[last])
    ensures LowDegree(S.k.ring, DomainAt(S, |f0|, params.schedule, last + 1),
                      FoldedWord(S.k, DomainAt(S, |f0|, params.schedule, last), run.layers[last].word,
                                 params.schedule[last], SizeAt(|f0|, params.schedule, last + 1), beta),
                      params.dFinal)
  {
    ViewOf(S, params, f0, run, last);
    WordDegree(S, params, f0, run, last);
    NextWord(S, params, f0, run, last);
    BoundStep(params, last);
    BoundAtEnd(params, last + 1);
    DegreeFolds(S.k, DomainAt(S, |f0|, params.schedule, last), DomainAt(S, |f0|, params.schedule, last + 1),
                run.layers[last].word, params.schedule[last],
                SizeAt(|f0|, params.schedule, last + 1), beta, params.dFinal);
  }

  ghost predicate CoeffRooted<A, T>(S: Setup<A, T>, run: Run<T>) {
    run.c.coeffRoot == TreeRoot(S.hasher, 16, COEFF_LABEL, CoeffLeaves(S, run.tuples))
  }

  lemma TuplesAccepted<A(!new), T(!new)>(S: Setup<A, T>, params: Params, f0: seq<A>, run: Run<T>, last: nat, beta: T)
    requires RunMath(S, params, f0, run) && LowDegreeInput(S, params, f0) && params.UsesCommit()
    requires last + 1 == |params.schedule| == |run.layers|
    requires CoeffRooted(S, run)
    ensures TuplesOk(S, SizeAt(|f0|, params.schedule, last + 1), params.schedule[last], run.c.coeffRoot, beta,
                     params.dFinal, Some(run.tuples))
  {
    var n, m := SizeAt(|f0|, params.schedule, last + 1), params.schedule[last];
    var d, next := DomainAt(S, |f0|, params.schedule, last), DomainAt(S, |f0|, params.schedule, last + 1);
    var word := run.layers[last].word;
    assert |word| == m * n && LowDegree(S.k.ring, next, FoldedWord(S.k, d, word, m, n, beta), params.dFinal)
      && IsRing(S.k.ring) && ValidDomain(S.k.ring, next) && next.size == n by {
      TuplesLow(S, params, f0, run, last, beta);
    }
    assert n > 0 by {
      SizesStayPositive(|f0|, params.schedule);
    }
    assert run.tuples == CosetTuples(S.k, word, d.gen, m, n);
    TuplesShaped(S, d, next, word, m, n, run.tuples, run.c.coeffRoot, beta, params.dFinal);
  }

  lemma TuplesShaped<A, T(!new)>(S: Setup<A, T>, d: Domain<T>, next: Domain<T>, word: seq<T>, m: nat, n: nat,
                                 tuples: seq<seq<T>>, root: Digest, beta: T, dFinal: nat)
    requires IsRing(S.k.ring) && ValidDomain(S.k.ring, next) && next.size == n > 0
    requires |word| == m * n && tuples == CosetTuples(S.k, word, d.gen, m, n) && next == S.domains(n)
    requires LowDegree(S.k.ring, next, FoldedWord(S.k, d, word, m, n, beta), dFinal)
    requires root == TreeRoot(S.hasher, 16, COEFF_LABEL, CoeffLeaves(S, tuples))
    ensures TuplesOk(S, n, m, root, beta, dFinal, Some(tuples))
  {
    DegreeOkIff(S.k.ring, next, FoldedWord(S.k, d, word, m, n, beta), dFinal);
  }

  // ---------- STIR queries ----------

  lemma FibreImage<A, T>(emb: A -> T, f0: seq<A>, m: nat, half: nat, b: nat)
    requires |f0| == m * half && b < half
    ensures Image(emb, Fibre(f0, m, half, b)) == Fibre(Image(emb, f0), m, half, b)
  {
    forall j: nat | j < m
      ensures Image(emb, Fibre(f0, m, half, b))[j] == Fibre(Image(emb, f0), m, half, b)[j]
    {
      GridInRange(m, half, b, j);
    }
  }

  /** The opened fibre folds to the next word's value over it. */
  lemma FibreFolds<A, T(!new)>(S: Setup<A, T>, f0: seq<A>, m: nat, half: nat, alpha: T, b: nat)
    requires IsField(S.k) && ValidDomain(S.k.ring, S.domains(|f0|)) && S.domains(|f0|).size == |f0|
    requires |f0| == m * half && IsPowerOfTwo(m) && IsPowerOfTwo(half) && b < half
    ensures FibreFold(S, |f0|, half, alpha, b, Fibre(f0, m, half, b))
        == FoldedWord(S.k, S.domains(|f0|), Image(S.emb, f0), m, half, alpha)[b]
  {
    var word, d, r := Image(S.emb, f0), S.domains(|f0|), S.k.ring;
    var zeta, shift := Pow(r, d.gen, half), Pow(r, d.gen, b);
    var fibre := Fibre(word, m, half, b);
    FibreImage(S.emb, f0, m, half, b);
    assert RawInterpolant(r, fibre, m, InversesOf(S.k, m, zeta, shift)) == CosetTuple(S.k, word, d.gen, m, half, b) by {
      DomainPowerNonZero(S.k, d, b);
      DomainCosets(S.k, d, m, half, shift);
      InversesAreInverse(S.k, m, zeta, shift);
      RawRecovers(r, fibre, InversesOf(S.k, m, zeta, shift), zeta, shift);
    }
    assert CosetTuples(S.k, word, d.gen, m, half)[b] == CosetTuple(S.k, word, d.gen, m, half, b);
  }

  /** The first fold of an honest run, at its challenge. */
  lemma FirstFold<A(!new), T(!new)>(S: Setup<A, T>, params: Params, f0: seq<A>, run: Run<T>, m: nat, half: nat, b: nat)
    requires RunMath(S, params, f0, run) && m == params.schedule[0] && half == SizeAt(|f0|, params.schedule, 1)
    requires b < half
    ensures |f0| == m * half && |run.layers[0].next| == half
    ensures FibreFold(S, |f0|, half, AlphaAt(S, params, run.c, 0), b, Fibre(f0, m, half, b)) == run.layers[0].next[b]
  {
    assert LayerFits(|f0|, params.schedule, 0) && LayerMath(S, params, f0, run, 0);
    FibreFolds(S, f0, m, half, run.layers[0].alpha, b);
  }

  lemma StirAccepted<A(!new), T(!new)>(S: Setup<A, T>, params: Params, f0: seq<A>, run: Run<T>,
                                       tuples: Option<seq<seq<T>>>, m: nat, half: nat, qi: nat, raw: nat,
                                       pq: StirPayload<A, T>)
    requires FullMath(S, params, f0, run) && LowDegreeInput(S, params, f0) && m == params.schedule[0]
    requires half == SizeAt(|f0|, params.schedule, 1)
    requires |f0| == m * half > 0 && half > 0 && raw == RawIndex(S, QuerySeed(S, params, run.c), qi, |f0|)
    requires StirHonest(S, f0, run.c.rootF0, m, half, SecondOf(params, run), raw, pq)
    requires ContextFits(ContextOf(S, params, run.c, tuples))
    ensures StirQueryOk(S, ContextOf(S, params, run.c, tuples), qi, pq)
  {
    var b := Rem(raw, half);
    assert |run.layers[0].next| == half && FibreFold(S, |f0|, half, AlphaAt(S, params, run.c, 0), b, pq.fiberFVals)
        == run.layers[0].next[b] by {
      FirstFold(S, params, f0, run, m, half, b);
    }
    if |params.schedule| >= 2 {
      assert run.layers[1].word == run.layers[0].next by {
        NextWord(S, params, f0, run, 1);
      }
    } else {
      assert FinalAt(S, half, run.c.final, b) == run.layers[0].next[b] by {
        FinalIsLast(S, params, f0, run, 0, 1, b);
      }
    }
  }

  // ---------- classic queries ----------

  /** The quotient times x - z gives the difference back. */
  lemma QuotientTimes<T(!new)>(k: Field<T>, diff: T, x: T, z: T)
    requires IsField(k) && x != z
    ensures k.ring.Mul(k.ring.Mul(diff, InverseOr(k, k.ring.Sub(x, z))), k.ring.Sub(x, z)) == diff
  {
    var r, e := k.ring, k.ring.Sub(x, z);
    SubSelf(r, x, z);
    InvertDefined(k, e);
    InvertWorks(k, e);
    MulAssociates(r, diff, InverseOr(k, e), e);
    MulCommutes(r, InverseOr(k, e), e);
    MulOne(r, diff);
  }

  /** The out-of-domain point is off every layer's domain. */
  lemma {:induction false} OffAt<A(!new), T(!new)>(S: Setup<A, T>, params: Params, n0: nat, ell: nat, z: T)
    requires ValidSetup(S) && GoodSchedule(n0, params.schedule) && ell <= |params.schedule| && !params.stir
    requires PointFits(S, params, n0, z)
    ensures PointFits(S, params, SizeAt(n0, params.schedule, ell), z)
  {
    if ell > 0 {
      OffAt(S, params, n0, ell - 1, z);
      PointMoves(S, params, n0, ell - 1, z);
    }
  }

  /** The DEEP identity at every position of a layer. */
  lemma DeepIdentity<A(!new), T(!new)>(S: Setup<A, T>, params: Params, f0: seq<A>, run: Run<T>, ell: nat, i: nat, z: T)
    requires RunMath(S, params, f0, run) && !params.stir && ell < |params.schedule| == |run.layers| == |run.c.msgs|
    requires z == FirstZ(S, params, |f0|, run.c.rootF0) && PointFits(S, params, SizeAt(|f0|, params.schedule, ell), z)
    requires i < |run.layers[ell].word| == |run.layers[ell].q|
    ensures run.layers[ell].msg == run.c.msgs[ell] && |run.c.msgs[ell].ood| > 0
    ensures S.k.ring.Mul(run.layers[ell].q[i], S.k.ring.Sub(Pow(S.k.ring, OmegaAt(S, params, |f0|, ell), i), z))
         == S.k.ring.Sub(run.layers[ell].word[i], run.c.msgs[ell].ood[0])
  {
    assert LayerFits(|f0|, params.schedule, ell) && LayerMath(S, params, f0, run, ell);
    var y := run.layers[ell];
    assert i < SizeAt(|f0|, params.schedule, ell);
    QuotientTimes(S.k, S.k.ring.Sub(y.word[i], y.msg.ood[0]), Pow(S.k.ring, OmegaAt(S, params, |f0|, ell), i), z);
  }

  lemma DeepAccepted<A(!new), T(!new)>(S: Setup<A, T>, params: Params, f0: seq<A>, run: Run<T>, ell: nat, i: nat,
                                       pay: OpenPayload<T>, o: MerkleOpening, z: T)
    requires RunMath(S, params, f0, run) && !params.stir && ell < |params.schedule| == |run.layers| == |run.c.msgs|
    requires z == FirstZ(S, params, |f0|, run.c.rootF0) && PointFits(S, params, SizeAt(|f0|, params.schedule, ell), z)
    requires PayloadHonest(S, LayerConfig(params, |f0|, ell), run.layers[ell], i, pay, o)
    ensures |run.c.msgs[ell].ood| > 0
    ensures DeepOk(S, LayerConfig(params, |f0|, ell), run.c.msgs[ell], Pow(S.k.ring, OmegaAt(S, params, |f0|, ell), i),
                   z, o, i, pay)
  {
    DeepIdentity(S, params, f0, run, ell, i, z);
  }

  /** The opened first value is the ground-field element committed to. */
  lemma BaseAccepted<A(!new), T(!new)>(S: Setup<A, T>, params: Params, f0: seq<A>, run: Run<T>, raw: nat,
                                       qp: QueryPayload<T>, openings: seq<MerkleOpening>)
    requires RunMath(S, params, f0, run) && |openings| == |params.schedule| == |run.layers| > 0
    requires ClassicHonest(S, params, f0, run, raw, qp, openings) && BaseComponents(S, f0[raw])
    ensures BaseValueOk(S, |f0|, run.c.rootF0, qp.refs[0].i, qp.f0Opening, qp.payloads[0].fVal)
  {
    NextWord(S, params, f0, run, 0);
    assert PositionAt(raw, |f0|, params.schedule, qp, 0) && qp.refs[0].i == raw;
    assert PayloadHonest(S, LayerConfig(params, |f0|, 0), run.layers[0], qp.refs[0].i, qp.payloads[0], openings[0]);
  }

  /** Both positions of a fold in view: i in the layer, i mod q in the next. */
  lemma NextIndex(raw: nat, n0: nat, schedule: seq<nat>, ell: nat)
    requires ell < |schedule| && raw < n0 && LayerFits(n0, schedule, ell)
    ensures SizeAt(n0, schedule, ell + 1) > 0 && IndexAt(raw, n0, schedule, ell) < SizeAt(n0, schedule, ell)
    ensures IndexAt(raw, n0, schedule, ell + 1) == Rem(IndexAt(raw, n0, schedule, ell), SizeAt(n0, schedule, ell + 1))
  {
    IndexBelow(raw, n0, schedule, ell);
  }

  /** In a normal layer the opened fold value is the next word's. */
  lemma FoldValue<A(!new), T(!new)>(S: Setup<A, T>, params: Params, f0: seq<A>, run: Run<T>, ell: nat, raw: nat)
    requires RunMath(S, params, f0, run) && !params.stir && ell < params.NormalLayers()
    requires |params.schedule| == |run.layers| && raw < |f0|
    ensures
      var i := IndexAt(raw, |f0|, params.schedule, ell);
      var b := IndexAt(raw, |f0|, params.schedule, ell + 1);
      i < |run.layers[ell].s| && b < |run.layers[ell].next| && run.layers[ell].s[i] == run.layers[ell].next[b]
  {
    assert LayerFits(|f0|, params.schedule, ell) && LayerMath(S, params, f0, run, ell);
    NextIndex(raw, |f0|, params.schedule, ell);
  }

  /** The committed tuple under the query: it reproduces the opened value and folds to the last word. */
  lemma CommittedValue<A(!new), T(!new)>(S: Setup<A, T>, params: Params, f0: seq<A>, run: Run<T>, last: nat, raw: nat,
                                         i: nat, b: nat)
    requires RunMath(S, params, f0, run) && params.UsesCommit() && last + 1 == |params.schedule| == |run.layers|
    requires raw < |f0|
    requires i == IndexAt(raw, |f0|, params.schedule, last) && b == IndexAt(raw, |f0|, params.schedule, last + 1)
    ensures b < SizeAt(|f0|, params.schedule, last + 1) == |run.layers[last].next| && i < |run.layers[last].word|
    ensures TupleAt(S, run.tuples, b, Pow(S.k.ring, OmegaAt(S, params, |f0|, last), i)) == run.layers[last].word[i]
    ensures TupleAt(S, run.tuples, b, AlphaAt(S, params, run.c, last)) == run.layers[last].next[b]
  {
    var (m, q, y) := (params.schedule[last], SizeAt(|f0|, params.schedule, last + 1), run.layers[last]);
    var (d, next) := (DomainAt(S, |f0|, params.schedule, last), DomainAt(S, |f0|, params.schedule, last + 1));
    CommittedFacts(S, params, f0, run, last, m, q);
    NextIndex(raw, |f0|, params.schedule, last);
    TupleValues(S, d, next, y, m, q, run.tuples, i, b);
  }

  lemma CommittedFacts<A(!new), T(!new)>(S: Setup<A, T>, params: Params, f0: seq<A>, run: Run<T>, last: nat, m: nat,
                                         q: nat)
    requires RunMath(S, params, f0, run) && params.UsesCommit() && last + 1 == |params.schedule| == |run.layers|
    requires m == params.schedule[last] && q == SizeAt(|f0|, params.schedule, last + 1)
    ensures LayerFits(|f0|, params.schedule, last)
    ensures LayerView(S.k, DomainAt(S, |f0|, params.schedule, last), DomainAt(S, |f0|, params.schedule, last + 1), m, q,
                      run.layers[last])
    ensures |run.c.msgs| == |params.schedule| && run.layers[last].alpha == AlphaAt(S, params, run.c, last)
    ensures run.tuples == CosetTuples(S.k, run.layers[last].word, DomainAt(S, |f0|, params.schedule, last).gen, m, q)
  {
    assert run.layers[last].alpha == AlphaAt(S, params, run.c, last) by {
      assert LayerMath(S, params, f0, run, last);
    }
    assert LayerFits(|f0|, params.schedule, last);
    ViewOf(S, params, f0, run, last);
  }

  lemma TupleValues<A, T(!new)>(S: Setup<A, T>, d: Domain<T>, next: Domain<T>, y: Layer<T>, m: nat, q: nat,
                                tuples: seq<seq<T>>, i: nat, b: nat)
    requires LayerView(S.k, d, next, m, q, y) && tuples == CosetTuples(S.k, y.word, d.gen, m, q) && b < q && i < m * q
    requires b == Rem(i, q)
    ensures TupleAt(S, tuples, b, Pow(S.k.ring, d.gen, i)) == y.word[i]
    ensures TupleAt(S, tuples, b, y.alpha) == y.next[b]
  {
    assert tuples[b] == CosetTuple(S.k, y.word, d.gen, m, q, b);
    TupleEntry(S.k, d, next, y.word, m, q, i, b);
  }

  /** Layer ell of a query: its position follows the seed, its values are the layer's. */
  ghost predicate ValueAt<T>(n0: nat, schedule: seq<nat>, layers: seq<Layer<T>>, raw: nat, qp: QueryPayload<T>,
                             ell: nat)
    requires ell < |layers| == |schedule| == |qp.refs| == |qp.payloads|
  {
    var i := IndexAt(raw, n0, schedule, ell);
    qp.refs[ell].i == i < |layers[ell].word| == |layers[ell].s| == |layers[ell].q|
        && qp.payloads[ell] == PayloadOf(layers[ell], i)
  }

  ghost predicate ValuesOpened<T>(n0: nat, schedule: seq<nat>, layers: seq<Layer<T>>, raw: nat, qp: QueryPayload<T>) {
    && |layers| == |schedule| == |qp.refs| == |qp.payloads| && qp.finalIndex == IndexAt(raw, n0, schedule, |schedule|)
    && forall ell :: 0 <= ell < |schedule| ==> ValueAt(n0, schedule, layers, raw, qp, ell)
  }

  lemma HonestValues<A, T>(S: Setup<A, T>, params: Params, f0: seq<A>, run: Run<T>, raw: nat, qp: QueryPayload<T>,
                           openings: seq<MerkleOpening>)
    requires |run.layers| == |params.schedule| == |openings| && ClassicHonest(S, params, f0, run, raw, qp, openings)
    ensures ValuesOpened(|f0|, params.schedule, run.layers, raw, qp)
  {
    forall ell: nat | ell < |params.schedule|
      ensures ValueAt(|f0|, params.schedule, run.layers, raw, qp, ell)
    {
      assert PositionAt(raw, |f0|, params.schedule, qp, ell);
      assert PayloadHonest(S, LayerConfig(params, |f0|, ell), run.layers[ell], qp.refs[ell].i, qp.payloads[ell],
                           openings[ell]);
    }
  }

  ghost predicate Shaped<A, T>(params: Params, f0: seq<A>, run: Run<T>, raw: nat) {
    |params.schedule| == |run.layers| == |run.c.msgs| > 0 && run.c.n0 == |f0| && raw < |f0|
  }

  /** The fold value opened in a normal layer. */
  lemma OpenedFold<A(!new), T(!new)>(S: Setup<A, T>, params: Params, f0: seq<A>, run: Run<T>, raw: nat,
                                     qp: QueryPayload<T>, ell: nat, b: nat)
    requires RunMath(S, params, f0, run) && !params.stir && Shaped(params, f0, run, raw)
    requires ValuesOpened(|f0|, params.schedule, run.layers, raw, qp) && ell < params.NormalLayers()
    requires b == IndexAt(raw, |f0|, params.schedule, ell + 1)
    ensures b < |run.layers[ell].next| && qp.payloads[ell].sVal == run.layers[ell].next[b]
  {
    var i := IndexAt(raw, |f0|, params.schedule, ell);
    assert qp.payloads[ell].sVal == run.layers[ell].s[i] by {
      assert ValueAt(|f0|, params.schedule, run.layers, raw, qp, ell);
    }
    FoldValue(S, params, f0, run, ell, raw);
  }

  lemma OpenedNext<A(!new), T(!new)>(S: Setup<A, T>, params: Params, f0: seq<A>, run: Run<T>, raw: nat,
                                     qp: QueryPayload<T>, next: nat, b: nat)
    requires RunMath(S, params, f0, run) && ValuesOpened(|f0|, params.schedule, run.layers, raw, qp)
    requires 0 < next < |params.schedule| == |run.layers| && b == IndexAt(raw, |f0|, params.schedule, next)
    ensures b < |run.layers[next - 1].next| && qp.payloads[next].fVal == run.layers[next - 1].next[b]
  {
    NextWord(S, params, f0, run, next);
    assert ValueAt(|f0|, params.schedule, run.layers, raw, qp, next);
  }

  lemma LastFold<A(!new), T(!new)>(S: Setup<A, T>, params: Params, f0: seq<A>, run: Run<T>, raw: nat,
                                   qp: QueryPayload<T>, last: nat)
    requires FullMath(S, params, f0, run) && LowDegreeInput(S, params, f0)
    requires !params.stir && Shaped(params, f0, run, raw)
    requires ValuesOpened(|f0|, params.schedule, run.layers, raw, qp) && last + 1 == |params.schedule|
    requires !params.UsesCommit()
    ensures qp.payloads[last].sVal == FinalAt(S, SizeAt(|f0|, params.schedule, last + 1), run.c.final, qp.finalIndex)
  {
    var b := IndexAt(raw, |f0|, params.schedule, last + 1);
    assert qp.finalIndex == b;
    assert b < SizeAt(|f0|, params.schedule, last + 1) by {
      assert LayerFits(|f0|, params.schedule, last);
      IndexBelow(raw, |f0|, params.schedule, last + 1);
    }
    assert b < |run.layers[last].next| && qp.payloads[last].sVal == run.layers[last].next[b] by {
      OpenedFold(S, params, f0, run, raw, qp, last, b);
    }
    assert FinalAt(S, SizeAt(|f0|, params.schedule, last + 1), run.c.final, b) == run.layers[last].next[b] by {
      FinalIsLast(S, params, f0, run, last, last + 1, b);
    }
  }

  lemma CommittedOpened<A(!new), T(!new)>(S: Setup<A, T>, params: Params, f0: seq<A>, run: Run<T>, raw: nat,
                                          qp: QueryPayload<T>, last: nat, b: nat)
    requires RunMath(S, params, f0, run) && Shaped(params, f0, run, raw)
    requires ValuesOpened(|f0|, params.schedule, run.layers, raw, qp) && last + 1 == |params.schedule|
    requires params.UsesCommit()
    requires b == IndexAt(raw, |f0|, params.schedule, last + 1)
    ensures b < SizeAt(|f0|, params.schedule, last + 1) == |run.layers[last].next|
    ensures qp.payloads[last].fVal
        == TupleAt(S, run.tuples, b, Pow(S.k.ring, OmegaAt(S, params, |f0|, last), qp.refs[last].i))
    ensures TupleAt(S, run.tuples, b, AlphaAt(S, params, run.c, last)) == run.layers[last].next[b]
  {
    var i := IndexAt(raw, |f0|, params.schedule, last);
    CommittedValue(S, params, f0, run, last, raw, i, b);
    assert qp.refs[last].i == i && qp.payloads[last].fVal == run.layers[last].word[i] by {
      assert ValueAt(|f0|, params.schedule, run.layers, raw, qp, last);
    }
  }

  lemma CommitFold<A(!new), T(!new)>(S: Setup<A, T>, params: Params, f0: seq<A>, run: Run<T>, raw: nat,
                                     qp: QueryPayload<T>, last: nat)
    requires FullMath(S, params, f0, run) && LowDegreeInput(S, params, f0)
    requires Shaped(params, f0, run, raw)
    requires ValuesOpened(|f0|, params.schedule, run.layers, raw, qp) && last + 1 == |params.schedule|
    requires params.UsesCommit()
    ensures qp.payloads[last].fVal
        == TupleAt(S, run.tuples, qp.finalIndex, Pow(S.k.ring, OmegaAt(S, params, |f0|, last), qp.refs[last].i))
    ensures TupleAt(S, run.tuples, qp.finalIndex, AlphaAt(S, params, run.c, last))
        == FinalAt(S, SizeAt(|f0|, params.schedule, last + 1), run.c.final, qp.finalIndex)
  {
    var b, end := qp.finalIndex, last + 1;
    CommittedOpened(S, params, f0, run, raw, qp, last, b);
    assert FinalAt(S, SizeAt(|f0|, params.schedule, end), run.c.final, b) == run.layers[last].next[b] by {
      FinalIsLast(S, params, f0, run, last, end, b);
    }
  }

  lemma InnerFold<A(!new), T(!new)>(S: Setup<A, T>, params: Params, f0: seq<A>, run: Run<T>, raw: nat,
                                    qp: QueryPayload<T>, ell: nat)
    requires RunMath(S, params, f0, run) && !params.stir && Shaped(params, f0, run, raw)
    requires ValuesOpened(|f0|, params.schedule, run.layers, raw, qp) && ell + 1 < |params.schedule|
    ensures qp.payloads[ell].sVal == qp.payloads[ell + 1].fVal
  {
    var b := IndexAt(raw, |f0|, params.schedule, ell + 1);
    assert b < |run.layers[ell].next| && qp.payloads[ell].sVal == run.layers[ell].next[b] by {
      OpenedFold(S, params, f0, run, raw, qp, ell, b);
    }
    assert qp.payloads[ell + 1].fVal == run.layers[ell].next[b] by {
      OpenedNext(S, params, f0, run, raw, qp, ell + 1, b);
    }
  }

  /** The checks of the last layer, read off the context. */
  lemma LastFoldOk<A, T>(S: Setup<A, T>, params: Params, c: Commitments<T>, tuples: Option<seq<seq<T>>>,
                         qp: QueryPayload<T>, last: nat, point: T)
    requires |c.msgs| == |params.schedule| == last + 1 && |qp.payloads| >= |params.schedule|
    requires
      var (final, b) := (FinalAt(S, SizeAt(c.n0, params.schedule, last + 1), c.final, qp.finalIndex), qp.finalIndex);
      if params.UsesCommit() then
        tuples.Some? && qp.payloads[last].fVal == TupleAt(S, tuples.value, b, point)
            && TupleAt(S, tuples.value, b, AlphaAt(S, params, c, last)) == final
      else qp.payloads[last].sVal == final
    ensures FoldOk(ContextOf(S, params, c, tuples), qp, last, point)
  {
  }

  lemma LastAccepted<A(!new), T(!new)>(S: Setup<A, T>, params: Params, f0: seq<A>, run: Run<T>,
                                       tuples: Option<seq<seq<T>>>, raw: nat, qp: QueryPayload<T>, ell: nat)
    requires FullMath(S, params, f0, run) && LowDegreeInput(S, params, f0) && !params.stir
    requires Shaped(params, f0, run, raw)
    requires ValuesOpened(|f0|, params.schedule, run.layers, raw, qp) && ell < |params.schedule|
    requires ell + 1 == |params.schedule| && (params.UsesCommit() ==> tuples == Some(run.tuples))
    ensures FoldOk(ContextOf(S, params, run.c, tuples), qp, ell,
                   Pow(S.k.ring, OmegaAt(S, params, |f0|, ell), qp.refs[ell].i))
  {
    var point := Pow(S.k.ring, OmegaAt(S, params, |f0|, ell), qp.refs[ell].i);
    if params.UsesCommit() {
      CommitFold(S, params, f0, run, raw, qp, ell);
    } else {
      LastFold(S, params, f0, run, raw, qp, ell);
    }
    LastFoldOk(S, params, run.c, tuples, qp, ell, point);
  }

  lemma InnerAccepted<A(!new), T(!new)>(S: Setup<A, T>, params: Params, f0: seq<A>, run: Run<T>,
                                        tuples: Option<seq<seq<T>>>, raw: nat, qp: QueryPayload<T>, ell: nat)
    requires FullMath(S, params, f0, run) && LowDegreeInput(S, params, f0) && !params.stir
    requires Shaped(params, f0, run, raw)
    requires ValuesOpened(|f0|, params.schedule, run.layers, raw, qp) && ell < |params.schedule|
    requires ell + 1 < |params.schedule|
    ensures FoldOk(ContextOf(S, params, run.c, tuples), qp, ell,
                   Pow(S.k.ring, OmegaAt(S, params, |f0|, ell), qp.refs[ell].i))
  {
    var x := ContextOf(S, params, run.c, tuples);
    assert |x.schedule| == |params.schedule|;
    assert qp.payloads[ell].sVal == qp.payloads[ell + 1].fVal by {
      InnerFold(S, params, f0, run, raw, qp, ell);
    }
  }

  /** The verifier's fold check in any layer. */
  lemma FoldAccepted<A(!new), T(!new)>(S: Setup<A, T>, params: Params, f0: seq<A>, run: Run<T>,
                                       tuples: Option<seq<seq<T>>>, raw: nat, qp: QueryPayload<T>, ell: nat)
    requires FullMath(S, params, f0, run) && LowDegreeInput(S, params, f0) && !params.stir
    requires Shaped(params, f0, run, raw)
    requires ValuesOpened(|f0|, params.schedule, run.layers, raw, qp) && ell < |params.schedule|
    requires (params.UsesCommit() ==> tuples == Some(run.tuples))
    ensures FoldOk(ContextOf(S, params, run.c, tuples), qp, ell,
                   Pow(S.k.ring, OmegaAt(S, params, |f0|, ell), qp.refs[ell].i))
  {
    if ell + 1 < |params.schedule| {
      InnerAccepted(S, params, f0, run, tuples, raw, qp, ell);
    } else {
      LastAccepted(S, params, f0, run, tuples, raw, qp, ell);
    }
  }

  lemma LayerAccepted<A(!new), T(!new)>(S: Setup<A, T>, params: Params, f0: seq<A>, run: Run<T>,
                                        tuples: Option<seq<seq<T>>>, raw: nat, qp: QueryPayload<T>,
                                        opening: MerkleOpening, ell: nat)
    requires FullMath(S, params, f0, run) && LowDegreeInput(S, params, f0) && !params.stir
    requires Shaped(params, f0, run, raw) && ell < |params.schedule|
    requires PointFits(S, params, SizeAt(|f0|, params.schedule, ell), FirstZ(S, params, |f0|, run.c.rootF0))
    requires ValuesOpened(|f0|, params.schedule, run.layers, raw, qp)
    requires (params.UsesCommit() ==> tuples == Some(run.tuples))
    requires PayloadHonest(S, LayerConfig(params, |f0|, ell), run.layers[ell], qp.refs[ell].i, qp.payloads[ell],
                           opening)
    requires ContextFits(ContextOf(S, params, run.c, tuples))
    ensures ClassicLayerOk(S, ContextOf(S, params, run.c, tuples), opening, qp, ell)
  {
    assert FoldOk(ContextOf(S, params, run.c, tuples), qp, ell,
                  Pow(S.k.ring, OmegaAt(S, params, |f0|, ell), qp.refs[ell].i)) by {
      FoldAccepted(S, params, f0, run, tuples, raw, qp, ell);
    }
    DeepAccepted(S, params, f0, run, ell, qp.refs[ell].i, qp.payloads[ell], opening,
                 FirstZ(S, params, |f0|, run.c.rootF0));
  }

  lemma ClassicAccepted<A(!new), T(!new)>(S: Setup<A, T>, params: Params, f0: seq<A>, run: Run<T>,
                                          tuples: Option<seq<seq<T>>>, q: nat, raw: nat, qp: QueryPayload<T>,
                                          openings: seq<MerkleOpening>)
    requires ValidSetup(S) && FullMath(S, params, f0, run) && LowDegreeInput(S, params, f0) && !params.stir
    requires Shaped(params, f0, run, raw)
    requires PointFits(S, params, |f0|, FirstZ(S, params, |f0|, run.c.rootF0)) && |params.schedule| == |openings|
    requires ClassicHonest(S, params, f0, run, raw, qp, openings)
    requires (params.UsesCommit() ==> tuples == Some(run.tuples))
    requires ContextFits(ContextOf(S, params, run.c, tuples))
    requires raw == RawIndex(S, QuerySeed(S, params, run.c), q, |f0|)
    ensures ClassicQueryOk(S, ContextOf(S, params, run.c, tuples), qp, openings, q)
  {
    var x := ContextOf(S, params, run.c, tuples);
    assert BaseValueOk(S, |f0|, run.c.rootF0, qp.refs[0].i, qp.f0Opening, qp.payloads[0].fVal) by {
      assert BaseComponents(S, f0[raw]);
      BaseAccepted(S, params, f0, run, raw, qp, openings);
    }
    HonestValues(S, params, f0, run, raw, qp, openings);
    forall ell: nat | ell < |params.schedule|
      ensures ClassicLayerOk(S, x, openings[ell], qp, ell)
    {
      OffAt(S, params, |f0|, ell, FirstZ(S, params, |f0|, run.c.rootF0));
      assert PayloadHonest(S, LayerConfig(params, |f0|, ell), run.layers[ell], qp.refs[ell].i, qp.payloads[ell],
                           openings[ell]);
      LayerAccepted(S, params, f0, run, tuples, raw, qp, openings[ell], ell);
    }
  }

  // ---------- the whole proof ----------

  lemma StirPaths<A, T>(S: Setup<A, T>, f0: seq<A>, schedule: seq<nat>, rootF0: Digest, m: nat, half: nat,
                        second: Option<SecondLayer<T>>, raw: nat, pq: StirPayload<A, T>)
    requires schedule != [] && |f0| == m * half && half > 0 && half == SizeAt(|f0|, schedule, 1)
    requires StirHonest(S, f0, rootF0, m, half, second, raw, pq)
    requires |schedule| >= 2 ==> second.Some? && second.value.arity == schedule[1]
    ensures StirPathsFit(schedule, |f0|, pq)
  {
  }

  lemma ClassicPaths<A, T>(S: Setup<A, T>, params: Params, f0: seq<A>, run: Run<T>, raw: nat, proof: Proof<A, T>,
                           q: nat)
    requires params.schedule != [] && proof.n0 == |f0| && QueriesFit(params, proof, q)
    requires |run.layers| == |params.schedule|
    requires ClassicHonest(S, params, f0, run, raw, proof.queries[q], OpeningsOf(params, proof, q))
    ensures ClassicPathsFit(params, proof, q)
  {
    var openings := OpeningsOf(params, proof, q);
    forall ell: nat | ell < |params.schedule|
      ensures PathFits(LayerConfig(params, proof.n0, ell), proof.layerOpenings[ell][q].path)
    {
      var qp := proof.queries[q];
      assert PayloadHonest(S, LayerConfig(params, |f0|, ell), run.layers[ell], qp.refs[ell].i, qp.payloads[ell],
                           openings[ell]);
    }
  }

  lemma HonestPaths<A(!new), T(!new)>(S: Setup<A, T>, params: Params, f0: seq<A>, run: Run<T>, proof: Proof<A, T>)
    requires RunShape(S, params, f0, run) && QueriesHonest(S, params, f0, run, proof) && params.schedule != []
    requires proof.n0 == |f0|
    ensures PathsFit(params, proof)
  {
    var (m, half, seed) := (params.schedule[0], SizeAt(|f0|, params.schedule, 1), QuerySeed(S, params, run.c));
    assert LayerFits(|f0|, params.schedule, 0);
    if params.stir {
      var payloads := proof.stirProximityQueries.value;
      forall qi: nat | qi < |payloads|
        ensures StirPathsFit(params.schedule, |f0|, payloads[qi])
      {
        StirPaths(S, f0, params.schedule, run.c.rootF0, m, half, SecondOf(params, run), RawIndex(S, seed, qi, |f0|),
                  payloads[qi]);
      }
    } else {
      forall q: nat | q < params.r
        ensures ClassicFits(params, proof, q)
      {
        ClassicPaths(S, params, f0, run, RawIndex(S, seed, q, |f0|), proof, q);
      }
    }
  }

  /** An honest proof has the shape the verifier relies on. */
  lemma ProofShape<A(!new), T(!new)>(S: Setup<A, T>, params: Params, f0: seq<A>, run: Run<T>, proof: Proof<A, T>)
    requires GoodSchedule(|f0|, params.schedule) && ChallengeFits(S, params, f0)
    requires HonestProof(S, params, f0, run, proof)
    ensures WellShaped(S, params, proof)
  {
    assert proof.n0 == run.c.n0 == |f0| && proof.rootF0 == run.c.rootF0;
    GoodIsFit(|f0|, params.schedule);
    HonestPaths(S, params, f0, run, proof);
  }

  /** Every claim holds exactly when the final polynomial fits the last layer. */
  lemma ClaimsAccepted<A(!new), T(!new)>(S: Setup<A, T>, params: Params, f0: seq<A>, run: Run<T>,
                                         tuples: Option<seq<seq<T>>>)
    requires FullMath(S, params, f0, run) && LowDegreeInput(S, params, f0)
    requires (params.UsesCommit() ==> tuples == Some(run.tuples))
    requires (params.stir ==> FirstZ(S, params, |f0|, run.c.rootF0) != S.k.ring.zero)
    requires (params.UsesCommit() ==> CoeffRooted(S, run))
    requires OodFits(run.c) && |run.c.msgs| == |params.schedule| == |run.layers| > 0 && run.c.n0 == |f0|
    ensures ClaimsOk(S, params, run.c, tuples) <==> params.dFinal <= SizeAt(|f0|, params.schedule, |params.schedule|)
  {
    var end := |params.schedule|;
    assert |run.c.final| == params.dFinal <==> params.dFinal <= SizeAt(|f0|, params.schedule, end) by {
      FinalSize(S, params, f0, run, end - 1, end);
    }
    assert params.stir ==> forall ell :: 0 <= ell < end ==> OodFoldOk(S, params, run.c, ell) by {
      OodAllOk(S, params, f0, run);
    }
    assert params.UsesCommit() ==> CoeffsOk(S, params, run.c, tuples) by {
      if params.UsesCommit() {
        TuplesAccepted(S, params, f0, run, end - 1, BetaOf(S, params, run.c));
      }
    }
  }

  lemma OodAllOk<A(!new), T(!new)>(S: Setup<A, T>, params: Params, f0: seq<A>, run: Run<T>)
    requires FullMath(S, params, f0, run) && LowDegreeInput(S, params, f0)
    requires params.stir ==> FirstZ(S, params, |f0|, run.c.rootF0) != S.k.ring.zero
    requires OodFits(run.c) && |run.c.msgs| == |params.schedule| == |run.layers| && run.c.n0 == |f0|
    ensures params.stir ==> forall ell :: 0 <= ell < |params.schedule| ==> OodFoldOk(S, params, run.c, ell)
  {
    if params.stir {
      forall ell: nat | ell < |params.schedule|
        ensures OodFoldOk(S, params, run.c, ell)
      {
        OodOkAt(S, params, f0, run, ell, ell + 1);
      }
    }
  }

  /** Every query passes. */
  lemma QueriesAccepted<A(!new), T(!new)>(S: Setup<A, T>, params: Params, f0: seq<A>, run: Run<T>, proof: Proof<A, T>)
    requires ValidSetup(S) && FullMath(S, params, f0, run) && LowDegreeInput(S, params, f0)
    requires (params.UsesCommit() ==> proof.coeffTuples == Some(run.tuples))
    requires RunShape(S, params, f0, run) && QueriesHonest(S, params, f0, run, proof)
    requires ContextFits(ContextOf(S, params, run.c, proof.coeffTuples))
    requires PointFits(S, params, |f0|, FirstZ(S, params, |f0|, run.c.rootF0))
    ensures QueriesOk(S, ContextOf(S, params, run.c, proof.coeffTuples), params, proof)
  {
    if params.stir {
      StirAllOk(S, params, f0, run, proof, params.schedule[0], SizeAt(|f0|, params.schedule, 1));
    } else {
      forall q: nat | q < params.r
        ensures ClassicQueryAt(S, ContextOf(S, params, run.c, proof.coeffTuples), params, proof, q)
      {
        ClassicOk(S, params, f0, run, proof, q);
      }
    }
  }

  lemma ClassicOk<A(!new), T(!new)>(S: Setup<A, T>, params: Params, f0: seq<A>, run: Run<T>, proof: Proof<A, T>, q: nat)
    requires ValidSetup(S) && FullMath(S, params, f0, run) && LowDegreeInput(S, params, f0)
    requires (params.UsesCommit() ==> proof.coeffTuples == Some(run.tuples))
    requires RunShape(S, params, f0, run) && QueriesHonest(S, params, f0, run, proof)
    requires ContextFits(ContextOf(S, params, run.c, proof.coeffTuples))
    requires PointFits(S, params, |f0|, FirstZ(S, params, |f0|, run.c.rootF0)) && !params.stir && q < params.r
    ensures ClassicQueryAt(S, ContextOf(S, params, run.c, proof.coeffTuples), params, proof, q)
  {
    FactorsPositive(|f0|, params.schedule);
    HonestQueryAt(S, params, f0, run, proof, q);
    assert ClassicQueryOk(S, ContextOf(S, params, run.c, proof.coeffTuples), proof.queries[q],
                          OpeningsOf(params, proof, q), q) by {
      var raw := RawIndex(S, QuerySeed(S, params, run.c), q, |f0|);
      ClassicAccepted(S, params, f0, run, proof.coeffTuples, q, raw, proof.queries[q], OpeningsOf(params, proof, q));
    }
  }

  lemma HonestQueryAt<A(!new), T(!new)>(S: Setup<A, T>, params: Params, f0: seq<A>, run: Run<T>, proof: Proof<A, T>,
                                        q: nat)
    requires RunShape(S, params, f0, run) && QueriesHonest(S, params, f0, run, proof) && !params.stir && q < params.r
    requires |f0| > 0
    ensures QueriesFit(params, proof, q)
    ensures ClassicHonest(S, params, f0, run, RawIndex(S, QuerySeed(S, params, run.c), q, |f0|), proof.queries[q],
                          OpeningsOf(params, proof, q))
  {
  }

  lemma StirAllOk<A(!new), T(!new)>(S: Setup<A, T>, params: Params, f0: seq<A>, run: Run<T>, proof: Proof<A, T>, m: nat,
                                    half: nat)
    requires FullMath(S, params, f0, run) && LowDegreeInput(S, params, f0) && params.stir
    requires RunShape(S, params, f0, run) && QueriesHonest(S, params, f0, run, proof)
    requires ContextFits(ContextOf(S, params, run.c, proof.coeffTuples))
    requires m == params.schedule[0] && half == SizeAt(|f0|, params.schedule, 1)
    ensures proof.stirProximityQueries.Some? && |proof.stirProximityQueries.value| == params.s0
    ensures StirQueriesOk(S, ContextOf(S, params, run.c, proof.coeffTuples), proof.stirProximityQueries.value)
  {
    var payloads := proof.stirProximityQueries.value;
    assert LayerFits(|f0|, params.schedule, 0);
    forall qi: nat | qi < |payloads|
      ensures StirQueryOk(S, ContextOf(S, params, run.c, proof.coeffTuples), qi, payloads[qi])
    {
      StirAccepted(S, params, f0, run, proof.coeffTuples, m, half, qi,
                   RawIndex(S, QuerySeed(S, params, run.c), qi, |f0|), payloads[qi]);
    }
  }

  /** On a proof of the right shape acceptance is its claims and its queries. */
  lemma AcceptsShaped<A, T>(S: Setup<A, T>, params: Params, proof: Proof<A, T>, c: Commitments<T>)
    requires WellShaped(S, params, proof) && c == CommitmentsOf(params, proof)
    ensures OodFits(c) && ContextFits(ContextOf(S, params, c, proof.coeffTuples))
    ensures Accepts(S, params, proof) <==>
      && ClaimsOk(S, params, c, proof.coeffTuples)
      && QueriesOk(S, ContextOf(S, params, c, proof.coeffTuples), params, proof)
  {
    CommitmentsShape(S, params, proof);
  }

  /** Completeness: for a word of low degree the verifier accepts the honest proof exactly when the last layer
      has room for the final polynomial, in either mode, with and without coefficient commitment. */
  lemma Completeness<A(!new), T(!new)>(S: Setup<A, T>, params: Params, f0: seq<A>, run: Run<T>, proof: Proof<A, T>)
    requires ValidSetup(S) && GoodSchedule(|f0|, params.schedule) && ChallengeFits(S, params, f0)
    requires LowDegreeInput(S, params, f0)
    requires HonestProof(S, params, f0, run, proof)
    ensures WellShaped(S, params, proof)
    ensures Accepts(S, params, proof) <==> params.dFinal <= SizeAt(|f0|, params.schedule, |params.schedule|)
  {
    ProofShape(S, params, f0, run, proof);
    AcceptsShaped(S, params, proof, run.c);
    MathOfRun(S, params, f0, run);
    ClaimsAccepted(S, params, f0, run, proof.coeffTuples);
    QueriesAccepted(S, params, f0, run, proof);
  }

  /** Prove, then verify. */
  method ProveAndVerify<A(!new, ==), T(!new, ==)>(S: Setup<A, T>, params: Params, f0: seq<A>) returns (w: Verdict)
    requires ValidSetup(S) && GoodSchedule(|f0|, params.schedule) && ChallengeFits(S, params, f0)
    requires LowDegreeInput(S, params, f0)
    ensures w == VerdictOf(params.dFinal <= SizeAt(|f0|, params.schedule, |params.schedule|))
  {
    var proof, run := DeepFriProve(S, params, f0);
    Completeness(S, params, f0, run, proof);
    GoodIsFit(|f0|, params.schedule);
    w := DeepFriVerify(S, params, proof);
  }
}
