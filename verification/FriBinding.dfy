/** What a transcript determines: its log can be read back into the statement it opens with and the commitments
    absorbed after it. */
module FriBinding {
  import opened ExtTransform
  import opened Hashing
  import opened FriSetup
  import opened FriProtocol

  lemma Regroup<X>(a: seq<X>, b: seq<X>, c: seq<X>)
    ensures (a + b) + c == a + (b + c)
  {
  }

  lemma RegroupFour<X>(a: seq<X>, b: seq<X>, c: seq<X>, d: seq<X>, x: seq<X>)
    ensures a + b + c + d + x == a + (b + (c + (d + x)))
  {
    Regroup(a + b + c, d, x);
    Regroup(a + b, c, d + x);
    Regroup(a, b, c + (d + x));
  }

  // ---------- the statement ----------

  ghost predicate IsAscii(s: string) { forall i :: 0 <= i < |s| ==> s[i] as int < 128 }

  /** Tags are absorbed character by character. */
  lemma AsciiBinds(s: string, t: string)
    requires IsAscii(s) && IsAscii(t)
    ensures Ascii(s) == Ascii(t) <==> s == t
  {
    if Ascii(s) == Ascii(t) {
      assert |s| == |Ascii(s)| == |t|;
      forall i: nat | i < |s|
        ensures s[i] == t[i]
      {
        assert Ascii(s)[i] == s[i] as int && Ascii(t)[i] == t[i] as int;
      }
    }
  }

  /** How a number is absorbed. */
  function NumberItem<A, T>(S: Setup<A, T>, x: nat): seq<Byte> { S.fieldBytes(S.fromU64(x)) }

  /** Numbers below the bound are absorbed differently. */
  ghost predicate NumbersApart<A, T>(S: Setup<A, T>, bound: nat) {
    forall x: nat, y: nat :: x < bound && y < bound && NumberItem(S, x) == NumberItem(S, y) ==> x == y
  }

  /** The numbers of a statement. */
  predicate NumbersBelow(params: Params, n0: nat, bound: nat) {
    && bound > 1 && n0 < bound && |params.schedule| < bound && params.seedZ < bound
    && forall i :: 0 <= i < |params.schedule| ==> params.schedule[i] < bound
  }

  /** What both sides agree on before anything is committed. */
  predicate SameStatement(p1: Params, n1: nat, p2: Params, n2: nat) {
    && p1.publicInputsHash == p2.publicInputsHash && n1 == n2 && p1.schedule == p2.schedule && p1.seedZ == p2.seedZ
    && p1.coeffCommitFinal == p2.coeffCommitFinal && p1.stir == p2.stir
  }

  lemma PublicReadBack(p1: Params, p2: Params, x: Log, y: Log)
    requires PublicItems(p1) + x == PublicItems(p2) + y
    requires x != [] && y != [] && x[0] == y[0] == Ascii("DEEP-FRI-STATEMENT-V2")
    ensures p1.publicInputsHash == p2.publicInputsHash && x == y
  {
    var (a, b) := (PublicItems(p1), PublicItems(p2));
    assert |Ascii("CAIRO-PUBLIC-INPUTS-V1")| != |Ascii("DEEP-FRI-STATEMENT-V2")|;
    assert (a + x)[0] == (b + y)[0];
    assert a == [] ==> (a + x)[0] == x[0];
    assert b == [] ==> (b + y)[0] == y[0];
    assert |a| == |b|;
    PrefixesAgree(a, x, b, y);
    assert a != [] ==> a[1] == b[1];
  }

  lemma SizesReadBack<A, T>(S: Setup<A, T>, n1: nat, l1: nat, x: Log, n2: nat, l2: nat, y: Log, bound: nat)
    requires NumbersApart(S, bound) && n1 < bound && n2 < bound && l1 < bound && l2 < bound
    requires SizeItems(S, n1, l1) + x == SizeItems(S, n2, l2) + y
    ensures n1 == n2 && l1 == l2 && x == y
  {
    var (a, b) := (SizeItems(S, n1, l1), SizeItems(S, n2, l2));
    PrefixesAgree(a, x, b, y);
    assert a[1] == NumberItem(S, n1) && b[1] == NumberItem(S, n2);
    assert a[2] == NumberItem(S, l1) && b[2] == NumberItem(S, l2);
  }

  lemma ScheduleReadBack<A, T>(S: Setup<A, T>, s1: seq<nat>, x: Log, s2: seq<nat>, y: Log, bound: nat)
    requires NumbersApart(S, bound) && |s1| == |s2|
    requires forall i :: 0 <= i < |s1| ==> s1[i] < bound && s2[i] < bound
    requires ScheduleItems(S, s1) + x == ScheduleItems(S, s2) + y
    ensures s1 == s2 && x == y
  {
    var (a, b) := (ScheduleItems(S, s1), ScheduleItems(S, s2));
    PrefixesAgree(a, x, b, y);
    forall i | 0 <= i < |s1|
      ensures s1[i] == s2[i]
    {
      assert a[i] == NumberItem(S, s1[i]) && b[i] == NumberItem(S, s2[i]);
    }
  }

  lemma ModeReadBack<A, T>(S: Setup<A, T>, p1: Params, x: Log, p2: Params, y: Log, bound: nat)
    requires NumbersApart(S, bound) && bound > 1 && p1.seedZ < bound && p2.seedZ < bound
    requires ModeItems(S, p1) + x == ModeItems(S, p2) + y
    ensures p1.seedZ == p2.seedZ && p1.coeffCommitFinal == p2.coeffCommitFinal && p1.stir == p2.stir && x == y
  {
    var (a, b) := (ModeItems(S, p1), ModeItems(S, p2));
    PrefixesAgree(a, x, b, y);
    assert a[0] == NumberItem(S, p1.seedZ) && b[0] == NumberItem(S, p2.seedZ);
    assert a[2] == NumberItem(S, if p1.coeffCommitFinal then 1 else 0);
    assert b[2] == NumberItem(S, if p2.coeffCommitFinal then 1 else 0);
    assert a[3] == NumberItem(S, if p1.stir then 1 else 0) && b[3] == NumberItem(S, if p2.stir then 1 else 0);
  }

  function AfterSizes<A, T>(S: Setup<A, T>, p: Params, x: Log): Log {
    ScheduleItems(S, p.schedule) + (ModeItems(S, p) + x)
  }

  function AfterPublic<A, T>(S: Setup<A, T>, p: Params, n0: nat, x: Log): (rest: Log)
    ensures rest != [] && rest[0] == Ascii("DEEP-FRI-STATEMENT-V2")
  {
    SizeItems(S, n0, |p.schedule|) + AfterSizes(S, p, x)
  }

  /** Whatever follows them, equal logs open with equal statements. */
  lemma StatementReadBack<A, T>(S: Setup<A, T>, p1: Params, n1: nat, x: Log, p2: Params, n2: nat, y: Log, bound: nat)
    requires NumbersApart(S, bound) && NumbersBelow(p1, n1, bound) && NumbersBelow(p2, n2, bound)
    requires StatementItems(S, p1, n1) + x == StatementItems(S, p2, n2) + y
    ensures SameStatement(p1, n1, p2, n2) && x == y
  {
    RegroupFour(PublicItems(p1), SizeItems(S, n1, |p1.schedule|), ScheduleItems(S, p1.schedule), ModeItems(S, p1), x);
    RegroupFour(PublicItems(p2), SizeItems(S, n2, |p2.schedule|), ScheduleItems(S, p2.schedule), ModeItems(S, p2), y);
    PublicReadBack(p1, p2, AfterPublic(S, p1, n1, x), AfterPublic(S, p2, n2, y));
    SizesReadBack(S, n1, |p1.schedule|, AfterSizes(S, p1, x), n2, |p2.schedule|, AfterSizes(S, p2, y), bound);
    ScheduleReadBack(S, p1.schedule, ModeItems(S, p1) + x, p2.schedule, ModeItems(S, p2) + y, bound);
    ModeReadBack(S, p1, x, p2, y, bound);
  }

  /** The statement absorbed determines everything said about the run in it. */
  lemma StatementBinds<A, T>(S: Setup<A, T>, p1: Params, n1: nat, p2: Params, n2: nat, bound: nat)
    requires NumbersApart(S, bound) && NumbersBelow(p1, n1, bound) && NumbersBelow(p2, n2, bound)
    ensures StatementItems(S, p1, n1) == StatementItems(S, p2, n2) <==> SameStatement(p1, n1, p2, n2)
  {
    if StatementItems(S, p1, n1) == StatementItems(S, p2, n2) {
      StatementReadBack(S, p1, n1, [], p2, n2, [], bound);
    }
  }

  /** The same parameters over an extension of another degree make another statement. */
  lemma DegreeBinds<A, T, U>(S: Setup<A, T>, R: Setup<A, U>, p: Params, n0: nat, bound: nat)
    requires NumbersApart(S, bound) && S.degree < bound && R.degree < bound
    requires S.fieldBytes == R.fieldBytes && S.fromU64 == R.fromU64
    requires StatementItems(S, p, n0) == StatementItems(R, p, n0)
    ensures S.degree == R.degree
  {
    var front := PublicItems(p) + SizeItems(S, n0, |p.schedule|) + ScheduleItems(S, p.schedule);
    assert SizeItems(S, n0, |p.schedule|) == SizeItems(R, n0, |p.schedule|);
    assert ScheduleItems(S, p.schedule) == ScheduleItems(R, p.schedule);
    PrefixesAgree(front, ModeItems(S, p), front, ModeItems(R, p));
    assert ModeItems(S, p)[1] == NumberItem(S, S.degree) && ModeItems(R, p)[1] == NumberItem(S, R.degree);
  }

  /** The log the first challenge is drawn from determines the statement and the root of the first tree. */
  lemma StartBinds<A, T>(S: Setup<A, T>, p1: Params, n1: nat, root1: Digest, p2: Params, n2: nat, root2: Digest,
                         bound: nat)
    requires NumbersApart(S, bound) && NumbersBelow(p1, n1, bound) && NumbersBelow(p2, n2, bound)
    ensures StartLog(S, p1, n1, root1) == StartLog(S, p2, n2, root2) <==>
      SameStatement(p1, n1, p2, n2) && root1 == root2
  {
    if StartLog(S, p1, n1, root1) == StartLog(S, p2, n2, root2) {
      StatementReadBack(S, p1, n1, [root1], p2, n2, [root2], bound);
      assert [root1][0] == [root2][0];
    }
  }

  // ---------- field elements ----------

  ghost predicate BytesApart<A(!new), T>(S: Setup<A, T>) {
    forall a, b :: S.fieldBytes(a) == S.fieldBytes(b) ==> a == b
  }

  lemma ComponentsBind<A(!new), T(!new)>(S: Setup<A, T>, x: T, y: T)
    requires ValidSetup(S) && S.comps(x) == S.comps(y)
    ensures x == y
  {
    var (r, B) := (S.k.ring, BasisOf(S));
    assert Splits(r, B, x) && Splits(r, B, y);
  }

  lemma FieldItemsBind<A(!new), T>(S: Setup<A, T>, xs: seq<A>, ys: seq<A>)
    requires BytesApart(S) && FieldItems(S, xs) == FieldItems(S, ys)
    ensures xs == ys
  {
    var (a, b) := (FieldItems(S, xs), FieldItems(S, ys));
    assert |a| == |xs| && |b| == |ys|;
    forall i | 0 <= i < |xs|
      ensures xs[i] == ys[i]
    {
      assert a[i] == S.fieldBytes(xs[i]) && b[i] == S.fieldBytes(ys[i]);
    }
  }

  lemma {:induction false} ExtItemsAlike<A(!new), T(!new)>(S: Setup<A, T>, vs: seq<T>, us: seq<T>)
    requires ValidSetup(S) && |vs| == |us|
    ensures |ExtItems(S, vs)| == |ExtItems(S, us)|
  {
    if vs != [] {
      var last := |vs| - 1;
      ExtItemsAlike(S, vs[..last], us[..last]);
      assert ComponentsFit(S, vs[last]) && ComponentsFit(S, us[last]);
    }
  }

  /** Equally many extension-field elements can be read back, whatever follows. */
  lemma {:induction false} ExtReadBack<A(!new), T(!new)>(S: Setup<A, T>, vs: seq<T>, x: Log, us: seq<T>, y: Log)
    requires ValidSetup(S) && BytesApart(S) && |vs| == |us| && ExtItems(S, vs) + x == ExtItems(S, us) + y
    ensures vs == us && x == y
  {
    if vs != [] {
      var last := |vs| - 1;
      var (v, u) := (FieldItems(S, S.comps(vs[last])), FieldItems(S, S.comps(us[last])));
      assert ComponentsFit(S, vs[last]) && ComponentsFit(S, us[last]);
      Regroup(ExtItems(S, vs[..last]), v, x);
      Regroup(ExtItems(S, us[..last]), u, y);
      ExtReadBack(S, vs[..last], v + x, us[..last], u + y);
      PrefixesAgree(v, x, u, y);
      FieldItemsBind(S, S.comps(vs[last]), S.comps(us[last]));
      ComponentsBind(S, vs[last], us[last]);
      assert vs == vs[..last] + [vs[last]] && us == us[..last] + [us[last]];
    } else {
      assert ExtItems(S, vs) + x == x && ExtItems(S, us) + y == y;
    }
  }

  // ---------- the commitments ----------

  /** The layers' messages alone. */
  lemma {:induction false} LogFromStart<A, T>(S: Setup<A, T>, start: Log, msgs: seq<LayerMsg<T>>, i: nat)
    requires i <= |msgs|
    ensures LogAt(S, start, msgs, i) == start + LogAt(S, [], msgs, i)
  {
    if i > 0 {
      LogFromStart(S, start, msgs, i - 1);
    }
  }

  /** As many out-of-domain values in every layer. */
  predicate ListsAlike<T>(a: seq<LayerMsg<T>>, b: seq<LayerMsg<T>>) {
    |a| == |b| && forall i :: 0 <= i < |a| ==> |a[i].ood| == |b[i].ood|
  }

  lemma MsgReadBack<A(!new), T(!new)>(S: Setup<A, T>, a: LayerMsg<T>, x: Log, b: LayerMsg<T>, y: Log)
    requires ValidSetup(S) && BytesApart(S) && |a.ood| == |b.ood| && MsgItems(S, a) + x == MsgItems(S, b) + y
    ensures a == b && x == y
  {
    Regroup(ExtItems(S, a.ood), [a.root], x);
    Regroup(ExtItems(S, b.ood), [b.root], y);
    ExtReadBack(S, a.ood, [a.root] + x, b.ood, [b.root] + y);
    PrefixesAgree([a.root], x, [b.root], y);
    assert [a.root][0] == [b.root][0];
  }

  lemma {:induction false} MsgsReadBack<A(!new), T(!new)>(S: Setup<A, T>, a: seq<LayerMsg<T>>, x: Log,
                                                          b: seq<LayerMsg<T>>, y: Log, i: nat)
    requires ValidSetup(S) && BytesApart(S) && ListsAlike(a, b) && i <= |a|
    requires LogAt(S, [], a, i) + x == LogAt(S, [], b, i) + y
    ensures a[..i] == b[..i] && x == y
    decreases i
  {
    if i > 0 {
      var (below, u, v) := (i - 1, MsgItems(S, a[i - 1]), MsgItems(S, b[i - 1]));
      Regroup(LogAt(S, [], a, below), u, x);
      Regroup(LogAt(S, [], b, below), v, y);
      MsgsReadBack(S, a, u + x, b, v + y, below);
      MsgReadBack(S, a[below], x, b[below], y);
      PrefixGrows(a, below);
      PrefixGrows(b, below);
    } else {
      assert LogAt(S, [], a, i) + x == x && LogAt(S, [], b, i) + y == y;
    }
  }

  /** What the log says after the statement. */
  function CommitmentItems<A, T>(S: Setup<A, T>, params: Params, c: Commitments<T>, i: nat): Log
    requires i <= |c.msgs|
  {
    [c.rootF0] + LogAt(S, [], c.msgs, i)
  }

  lemma LayersLogSplits<A, T>(S: Setup<A, T>, params: Params, c: Commitments<T>, i: nat, x: Log)
    requires i <= |c.msgs|
    ensures LayersLog(S, params, c, i) + x == StatementItems(S, params, c.n0) + (CommitmentItems(S, params, c, i) + x)
  {
    LogFromStart(S, StartLog(S, params, c.n0, c.rootF0), c.msgs, i);
  }

  /** Whatever follows: the log after i layers determines the statement, the first root, and the messages so far. */
  lemma LayersReadBack<A(!new), T(!new)>(S: Setup<A, T>, p1: Params, c1: Commitments<T>, x: Log, p2: Params,
                                         c2: Commitments<T>, y: Log, i: nat, bound: nat)
    requires ValidSetup(S) && BytesApart(S) && NumbersApart(S, bound)
    requires NumbersBelow(p1, c1.n0, bound) && NumbersBelow(p2, c2.n0, bound)
    requires ListsAlike(c1.msgs, c2.msgs) && i <= |c1.msgs|
    requires LayersLog(S, p1, c1, i) + x == LayersLog(S, p2, c2, i) + y
    ensures SameStatement(p1, c1.n0, p2, c2.n0) && c1.rootF0 == c2.rootF0 && c1.msgs[..i] == c2.msgs[..i] && x == y
  {
    LayersLogSplits(S, p1, c1, i, x);
    LayersLogSplits(S, p2, c2, i, y);
    var (a, b) := (CommitmentItems(S, p1, c1, i) + x, CommitmentItems(S, p2, c2, i) + y);
    StatementReadBack(S, p1, c1.n0, a, p2, c2.n0, b, bound);
    var (u, v) := (LogAt(S, [], c1.msgs, i), LogAt(S, [], c2.msgs, i));
    assert a == [c1.rootF0] + (u + x) && b == [c2.rootF0] + (v + y);
    PrefixesAgree([c1.rootF0], u + x, [c2.rootF0], v + y);
    assert [c1.rootF0][0] == [c2.rootF0][0];
    MsgsReadBack(S, c1.msgs, x, c2.msgs, y, i);
  }

  /** The log a folding challenge is drawn from determines everything committed before it. */
  lemma LayersBind<A(!new), T(!new)>(S: Setup<A, T>, p1: Params, c1: Commitments<T>, p2: Params, c2: Commitments<T>,
                                     i: nat, bound: nat)
    requires ValidSetup(S) && BytesApart(S) && NumbersApart(S, bound)
    requires NumbersBelow(p1, c1.n0, bound) && NumbersBelow(p2, c2.n0, bound)
    requires ListsAlike(c1.msgs, c2.msgs) && i <= |c1.msgs| && LayersLog(S, p1, c1, i) == LayersLog(S, p2, c2, i)
    ensures SameStatement(p1, c1.n0, p2, c2.n0) && c1.rootF0 == c2.rootF0 && c1.msgs[..i] == c2.msgs[..i]
  {
    assert LayersLog(S, p1, c1, i) + [] == LayersLog(S, p2, c2, i) + [];
    LayersReadBack(S, p1, c1, [], p2, c2, [], i, bound);
  }

  /** The log the query seed is drawn from determines the statement and every commitment. */
  lemma SeedBinds<A(!new), T(!new)>(S: Setup<A, T>, p1: Params, c1: Commitments<T>, p2: Params, c2: Commitments<T>,
                                    bound: nat)
    requires ValidSetup(S) && BytesApart(S) && NumbersApart(S, bound)
    requires NumbersBelow(p1, c1.n0, bound) && NumbersBelow(p2, c2.n0, bound)
    requires ListsAlike(c1.msgs, c2.msgs) && |c1.final| == |c2.final|
    requires SeedLog(S, p1, c1) == SeedLog(S, p2, c2)
    ensures SameStatement(p1, c1.n0, p2, c2.n0)
    ensures c1.rootF0 == c2.rootF0 && c1.msgs == c2.msgs && c1.final == c2.final
    ensures p1.coeffCommitFinal && p1.schedule != [] ==> c1.coeffRoot == c2.coeffRoot
  {
    var last := |c1.msgs|;
    var (x, y) := (CoeffItems(p1, c1), CoeffItems(p2, c2));
    var (u, v) := (ExtItems(S, c1.final), ExtItems(S, c2.final));
    Regroup(LayersLog(S, p1, c1, last), x, u);
    Regroup(LayersLog(S, p2, c2, last), y, v);
    LayersReadBack(S, p1, c1, x + u, p2, c2, y + v, last, bound);
    assert c1.msgs[..last] == c1.msgs && c2.msgs[..last] == c2.msgs;
    TailReadBack(S, p1, c1, p2, c2);
  }

  /** The coefficient root when there is one. */
  function CoeffItems<T>(p: Params, c: Commitments<T>): Log { if p.UsesCommit() then [c.coeffRoot] else [] }

  lemma TailReadBack<A(!new), T(!new)>(S: Setup<A, T>, p1: Params, c1: Commitments<T>, p2: Params, c2: Commitments<T>)
    requires ValidSetup(S) && BytesApart(S) && p1.UsesCommit() == p2.UsesCommit() && |c1.final| == |c2.final|
    requires CoeffItems(p1, c1) + ExtItems(S, c1.final) == CoeffItems(p2, c2) + ExtItems(S, c2.final)
    ensures c1.final == c2.final && (p1.UsesCommit() ==> c1.coeffRoot == c2.coeffRoot)
  {
    var (u, v) := (ExtItems(S, c1.final), ExtItems(S, c2.final));
    PrefixesAgree(CoeffItems(p1, c1), u, CoeffItems(p2, c2), v);
    assert p1.UsesCommit() ==> CoeffItems(p1, c1)[0] == CoeffItems(p2, c2)[0];
    assert u + [] == v + [];
    ExtReadBack(S, c1.final, [], c2.final, []);
  }
}
