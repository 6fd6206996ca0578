/** Every component of every challenge is drawn from the oracle at a point of its own: answering differently there
    changes that component and no other. */
module FriChallenges {
  import opened Rings
  import opened ExtTransform
  import opened Hashing
  import opened FriSetup
  import opened FriProtocol
  import opened FriProver

  // ---------- labels ----------

  /** The number a decimal numeral stands for. */
  function NumberOf(s: string): int {
    if s == [] then 0 else 10 * NumberOf(s[..|s| - 1]) + (s[|s| - 1] as int - '0' as int)
  }

  /** Component numbers are written in decimal. */
  lemma {:induction false} DigitsRead(i: nat)
    ensures Digits(i) != [] && NumberOf(Digits(i)) == i
    decreases i
  {
    var s := Digits(i);
    if i < 10 {
      assert s[..0] == [];
    } else {
      DigitsRead(i / 10);
      assert s[..|s| - 1] == Digits(i / 10);
    }
  }

  /** Different component numbers give different labels. */
  lemma SubTagInjective(tag: string, i: nat, j: nat)
    ensures SubTag(tag, i) == SubTag(tag, j) <==> i == j
  {
    if SubTag(tag, i) == SubTag(tag, j) {
      var head := tag + "/c";
      PrefixesAgree(head, Digits(i), head, Digits(j));
      DigitsRead(i);
      DigitsRead(j);
    }
  }

  // ---------- one answer changed ----------

  /** The setup whose oracle answers v at one point. */
  function Override<A, T>(S: Setup<A, T>, at: Log, name: string, v: A): Setup<A, T> {
    S.(squeeze := (log: Log, tag: string) => if log == at && tag == name then v else S.squeeze(log, tag))
  }

  lemma {:induction false} ComponentsUnder<A, T>(S: Setup<A, T>, at: Log, name: string, v: A, log: Log, tag: string,
                                                 k: nat)
    ensures
      var before := ChallengeComponents(S, log, tag, k);
      |before| == |ChallengeComponents(Override(S, at, name, v), log, tag, k)| == k
          && forall i :: 0 <= i < k ==>
               ChallengeComponents(Override(S, at, name, v), log, tag, k)[i]
               == if log == at && SubTag(tag, i) == name then v else before[i]
  {
    if k > 0 {
      ComponentsUnder(S, at, name, v, log, tag, k - 1);
    }
  }

  /** Away from its log or its tag a challenge is not touched. */
  lemma ChallengeKept<A, T>(S: Setup<A, T>, at: Log, name: string, v: A, log: Log, tag: string)
    requires log != at || forall i :: 0 <= i < S.degree ==> SubTag(tag, i) != name
    ensures ChallengeExt(Override(S, at, name, v), log, tag) == ChallengeExt(S, log, tag)
  {
    ComponentsUnder(S, at, name, v, log, tag, S.degree);
    assert ChallengeComponents(Override(S, at, name, v), log, tag, S.degree)
        == ChallengeComponents(S, log, tag, S.degree);
  }

  /** At it, one component is replaced. */
  lemma ChallengeChanged<A(!new), T(!new)>(S: Setup<A, T>, at: Log, tag: string, i: nat, v: A)
    requires ValidSetup(S) && i < S.degree
    ensures
      var (before, after) :=
        (S.comps(ChallengeExt(S, at, tag)), S.comps(ChallengeExt(Override(S, at, SubTag(tag, i), v), at, tag)));
      |before| == S.degree && after == before[i := v]
  {
    var S2 := Override(S, at, SubTag(tag, i), v);
    var (cs, ds) := (ChallengeComponents(S, at, tag, S.degree), ChallengeComponents(S2, at, tag, S.degree));
    ComponentsUnder(S, at, SubTag(tag, i), v, at, tag, S.degree);
    forall j: nat | j < S.degree
      ensures ds[j] == cs[i := v][j]
    {
      SubTagInjective(tag, i, j);
    }
    assert ds == cs[i := v];
    assert Joins(S.k.ring, BasisOf(S), cs) && Joins(S.k.ring, BasisOf(S), ds);
  }

  // ---------- logs do not depend on the oracle ----------

  /** The same but for the oracle's answers. */
  ghost predicate SameBytes<A, T>(S: Setup<A, T>, S2: Setup<A, T>) {
    S2.comps == S.comps && S2.fieldBytes == S.fieldBytes && S2.fromU64 == S.fromU64 && S2.degree == S.degree
  }

  lemma {:induction false} ExtItemsSame<A, T>(S: Setup<A, T>, S2: Setup<A, T>, vs: seq<T>)
    requires SameBytes(S, S2)
    ensures ExtItems(S2, vs) == ExtItems(S, vs)
  {
    if vs != [] {
      ExtItemsSame(S, S2, vs[..|vs| - 1]);
      var cs := S.comps(vs[|vs| - 1]);
      assert FieldItems(S2, cs) == FieldItems(S, cs);
    }
  }

  lemma StatementSame<A, T>(S: Setup<A, T>, S2: Setup<A, T>, params: Params, n0: nat)
    requires SameBytes(S, S2)
    ensures StatementItems(S2, params, n0) == StatementItems(S, params, n0)
  {
    assert ScheduleItems(S2, params.schedule) == ScheduleItems(S, params.schedule);
    assert SizeItems(S2, n0, |params.schedule|) == SizeItems(S, n0, |params.schedule|);
    assert ModeItems(S2, params) == ModeItems(S, params);
  }

  lemma {:induction false} LayersSame<A, T>(S: Setup<A, T>, S2: Setup<A, T>, params: Params, c: Commitments<T>,
                                            i: nat)
    requires SameBytes(S, S2) && i <= |c.msgs|
    ensures LayersLog(S2, params, c, i) == LayersLog(S, params, c, i)
  {
    if i == 0 {
      StatementSame(S, S2, params, c.n0);
    } else {
      LayersSame(S, S2, params, c, i - 1);
      ExtItemsSame(S, S2, c.msgs[i - 1].ood);
    }
  }

  lemma SeedLogSame<A, T>(S: Setup<A, T>, S2: Setup<A, T>, params: Params, c: Commitments<T>)
    requires SameBytes(S, S2)
    ensures CommitLog(S2, params, c) == CommitLog(S, params, c) && SeedLog(S2, params, c) == SeedLog(S, params, c)
  {
    LayersSame(S, S2, params, c, |c.msgs|);
    ExtItemsSame(S, S2, c.final);
  }

  /** Every layer adds its root to the log. */
  lemma {:induction false} LogsGrow<A, T>(S: Setup<A, T>, params: Params, c: Commitments<T>, i: nat, j: nat)
    requires i < j <= |c.msgs|
    ensures |LayersLog(S, params, c, i)| < |LayersLog(S, params, c, j)|
    decreases j - i
  {
    if i < j - 1 {
      LogsGrow(S, params, c, i, j - 1);
    }
  }

  // ---------- the draws of a run ----------

  /** The out-of-domain point, the folding challenge of a layer, the batching challenge, the query seed. */
  datatype Draw = First | Fold(ell: nat) | Batch | Query

  predicate Occurs<T>(params: Params, c: Commitments<T>, d: Draw) {
    match d
    case First => true
    case Fold(ell) => ell < |c.msgs|
    case Batch => params.UsesCommit()
    case Query => true
  }

  function DrawLog<A, T>(S: Setup<A, T>, params: Params, c: Commitments<T>, d: Draw): Log
    requires Occurs(params, c, d)
  {
    match d
    case First => LayersLog(S, params, c, 0)
    case Fold(ell) => if ell < params.NormalLayers() then LayersLog(S, params, c, ell) else CommitLog(S, params, c)
    case Batch => CommitLog(S, params, c)
    case Query => SeedLog(S, params, c)
  }

  function DrawTag(d: Draw): string {
    match d
    case First => "z_fp3"
    case Fold(ell) => "alpha"
    case Batch => "beta_deg"
    case Query => "query_seed"
  }

  function DrawLabel(d: Draw, i: nat): string { if d.Query? then DrawTag(d) else SubTag(DrawTag(d), i) }

  /** What is drawn, in ground-field components. */
  function Drawn<A, T>(S: Setup<A, T>, params: Params, c: Commitments<T>, d: Draw): seq<A>
    requires Occurs(params, c, d)
  {
    match d
    case First => S.comps(FirstZ(S, params, c.n0, c.rootF0))
    case Fold(ell) => S.comps(AlphaAt(S, params, c, ell))
    case Batch => S.comps(BetaOf(S, params, c))
    case Query => [QuerySeed(S, params, c)]
  }

  lemma DrawLogSame<A, T>(S: Setup<A, T>, S2: Setup<A, T>, params: Params, c: Commitments<T>, d: Draw)
    requires SameBytes(S, S2) && Occurs(params, c, d)
    ensures DrawLog(S2, params, c, d) == DrawLog(S, params, c, d)
  {
    SeedLogSame(S, S2, params, c);
    match d
    case First => LayersSame(S, S2, params, c, 0);
    case Fold(ell) => LayersSame(S, S2, params, c, ell);
    case Batch =>
    case Query =>
  }

  lemma DrawnIs<A, T>(S: Setup<A, T>, params: Params, c: Commitments<T>, d: Draw)
    requires Occurs(params, c, d)
    ensures Drawn(S, params, c, d)
         == if d.Query? then [S.squeeze(DrawLog(S, params, c, d), "query_seed")]
            else S.comps(ChallengeExt(S, DrawLog(S, params, c, d), DrawTag(d)))
  {
  }

  /** Draws with one tag are made from different logs. */
  lemma DrawsApart<A, T>(S: Setup<A, T>, params: Params, c: Commitments<T>, d: Draw, e: Draw, i: nat, j: nat)
    requires |c.msgs| == |params.schedule| && Occurs(params, c, d) && Occurs(params, c, e) && d != e
    ensures DrawLog(S, params, c, d) != DrawLog(S, params, c, e) || DrawLabel(d, i) != DrawLabel(e, j)
  {
    assert DrawLabel(d, i)[0] == DrawTag(d)[0] && DrawLabel(e, j)[0] == DrawTag(e)[0];
    if d.Fold? && e.Fold? {
      var (low, high) := if d.ell < e.ell then (d.ell, e.ell) else (e.ell, d.ell);
      LogsGrow(S, params, c, low, high);
      LogsGrow(S, params, c, low, |c.msgs|);
    }
  }

  lemma NamesApart<A, T>(S: Setup<A, T>, params: Params, c: Commitments<T>, d: Draw, e: Draw, i: nat)
    requires |c.msgs| == |params.schedule| && Occurs(params, c, d) && Occurs(params, c, e) && d != e
    ensures DrawLog(S, params, c, e) != DrawLog(S, params, c, d)
         || forall j :: 0 <= j < S.degree ==> DrawLabel(e, j) != DrawLabel(d, i)
  {
    forall j: nat | j < S.degree
      ensures DrawLog(S, params, c, e) != DrawLog(S, params, c, d) || DrawLabel(e, j) != DrawLabel(d, i)
    {
      DrawsApart(S, params, c, d, e, i, j);
    }
  }

  lemma DrawKept<A, T>(S: Setup<A, T>, params: Params, c: Commitments<T>, d: Draw, i: nat, v: A, e: Draw)
    requires |c.msgs| == |params.schedule| && Occurs(params, c, d) && Occurs(params, c, e) && d != e
    ensures
      Drawn(Override(S, DrawLog(S, params, c, d), DrawLabel(d, i), v), params, c, e) == Drawn(S, params, c, e)
  {
    var (at, log, name) := (DrawLog(S, params, c, d), DrawLog(S, params, c, e), DrawLabel(d, i));
    var S2 := Override(S, at, name, v);
    DrawLogSame(S, S2, params, c, e);
    DrawnIs(S, params, c, e);
    DrawnIs(S2, params, c, e);
    if e.Query? {
      DrawsApart(S, params, c, d, e, i, 0);
    } else {
      NamesApart(S, params, c, d, e, i);
      assert forall j :: 0 <= j < S.degree ==> DrawLabel(e, j) == SubTag(DrawTag(e), j);
      ChallengeKept(S, at, name, v, log, DrawTag(e));
    }
  }

  /** Each challenge can be changed alone: there is a point of the oracle for each of its components, and the answer
      given there decides that component and no other draw. */
  lemma ChallengesFresh<A(!new), T(!new)>(S: Setup<A, T>, params: Params, c: Commitments<T>, d: Draw, i: nat, v: A,
                                          e: Draw)
    requires ValidSetup(S) && |c.msgs| == |params.schedule| && Occurs(params, c, d) && Occurs(params, c, e)
    requires i < if d.Query? then 1 else S.degree
    ensures
      var S2 := Override(S, DrawLog(S, params, c, d), DrawLabel(d, i), v);
      var (before, after) := (Drawn(S, params, c, e), Drawn(S2, params, c, e));
      |Drawn(S, params, c, d)| > i && after == if d == e then before[i := v] else before
  {
    var at := DrawLog(S, params, c, d);
    var S2 := Override(S, at, DrawLabel(d, i), v);
    DrawnIs(S, params, c, d);
    if !d.Query? {
      ChallengeChanged(S, at, DrawTag(d), i, v);
    }
    if d == e {
      DrawLogSame(S, S2, params, c, d);
      DrawnIs(S2, params, c, d);
    }
    if d != e {
      DrawKept(S, params, c, d, i, v, e);
    }
  }

  // ---------- the first point ----------

  lemma {:induction false} ComponentAt<A, T>(S: Setup<A, T>, log: Log, tag: string, k: nat, j: nat)
    requires j < k
    ensures |ChallengeComponents(S, log, tag, k)| == k
    ensures ChallengeComponents(S, log, tag, k)[j] == S.squeeze(log, SubTag(tag, j))
  {
    if j < k - 1 {
      ComponentAt(S, log, tag, k - 1, j);
    } else {
      ComponentsUnder(S, log, tag, S.squeeze(log, tag), log, tag, k - 1);
    }
  }

  /** A challenge with a nonzero component after the first is no ground-field element. */
  lemma NotInGround<A(!new), T(!new)>(S: Setup<A, T>, log: Log, tag: string, j: nat, a: A)
    requires ValidSetup(S) && 0 < j < S.degree && S.squeeze(log, SubTag(tag, j)) != S.fromU64(0)
    ensures ChallengeExt(S, log, tag) != S.emb(a)
  {
    var cs := ChallengeComponents(S, log, tag, S.degree);
    ComponentAt(S, log, tag, S.degree, j);
    assert Joins(S.k.ring, BasisOf(S), cs) && BaseComponents(S, a) && ComponentsFit(S, S.emb(a));
  }

  /** The hypothesis the prover makes of its first point holds whenever any component squeezed for it after the first
      is nonzero, in either mode. */
  lemma FirstPointFits<A(!new), T(!new)>(S: Setup<A, T>, params: Params, f0: seq<A>, j: nat)
    requires ValidSetup(S) && GoodSchedule(|f0|, params.schedule) && 0 < j < S.degree
    requires S.squeeze(StartLog(S, params, |f0|, F0Commitment(S, params, f0)), SubTag("z_fp3", j)) != S.fromU64(0)
    ensures ChallengeFits(S, params, f0)
  {
    var log := StartLog(S, params, |f0|, F0Commitment(S, params, f0));
    var (r, B, n) := (S.k.ring, BasisOf(S), |f0|);
    if params.stir {
      assert S.emb(S.ground.zero) == r.zero;
      NotInGround(S, log, "z_fp3", j, S.ground.zero);
    } else {
      assert DomainEmbeds(S, n);
      var gen := S.groundDomains(n).gen;
      forall i: nat | i < n
        ensures Pow(r, S.domains(n).gen, i) != ChallengeExt(S, log, "z_fp3")
      {
        HomPow(S.ground, r, S.emb, gen, i);
        NotInGround(S, log, "z_fp3", j, Pow(S.ground, gen, i));
      }
    }
  }
}
