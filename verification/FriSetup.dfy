/** What the FRI protocol runs on: fields, domains, the transcript as an append-only log, tree configurations. */
module FriSetup {
  import opened Arith
  import opened Rings
  import opened Domains
  import opened ExtTransform
  import opened FriLayers
  import opened Hashing
  import opened Merkle
  import opened MerkleChannel

  /** The byte strings absorbed so far. */
  type Log = seq<seq<Byte>>

  /** The extension field with its embedded ground field, the evaluation domain of each size over either, the hash
      function, and the two oracles: `squeeze` reads a challenge off a log, `index` is the
      pseudorandom word derived from the query seed and a counter. */
  datatype Setup<!A, !T> = Setup(
    k: Field<T>, degree: nat, ground: Ring<A>, elements: seq<T>, emb: A -> T, comps: T -> seq<A>,
    fromComps: seq<A> -> T,
    fromU64: nat -> A, fieldBytes: A -> seq<Byte>, domains: nat -> Domain<T>, groundDomains: nat -> Domain<A>,
    hasher: Hasher, squeeze: (Log, string) -> A, index: (A, nat) -> nat)

  /** The extension as ground-field components. */
  function BasisOf<A, T>(S: Setup<A, T>): Basis<A, T> { Basis(S.ground, S.emb, S.comps, S.fromComps, S.elements) }

  /** Goldilocks has two-power domains up to its two-adicity of 32. */
  const MAX_DOMAIN: nat := 0x1_0000_0000

  ghost predicate DomainFits<A, T(!new)>(S: Setup<A, T>, n: nat) {
    IsPowerOfTwo(n) && n <= MAX_DOMAIN ==> S.domains(n).size == n && ValidDomain(S.k.ring, S.domains(n))
  }

  /** Other sizes are rounded up. */
  ghost predicate DomainRounds<A, T>(S: Setup<A, T>, n: nat) { S.domains(n) == S.domains(NextPowerOfTwo(n)) }

  /** omega_(n/m) = omega_n^m */
  ghost predicate DomainsNest<A, T>(S: Setup<A, T>, m: nat, q: nat) {
    IsPowerOfTwo(m) && IsPowerOfTwo(q) && m * q <= MAX_DOMAIN ==>
      S.domains(q).gen == Pow(S.k.ring, S.domains(m * q).gen, m)
  }

  /** Domains lie in the ground field. */
  ghost predicate DomainEmbeds<A, T>(S: Setup<A, T>, n: nat) { S.domains(n) == EmbedDomain(S.emb, S.groundDomains(n)) }

  ghost predicate ComponentsFit<A, T>(S: Setup<A, T>, x: T) { |S.comps(x)| == S.degree }

  /** Ground-field elements have their own first component and zeros after it. */
  ghost predicate BaseComponents<A, T>(S: Setup<A, T>, a: A) {
    |S.comps(S.emb(a))| > 0 && S.comps(S.emb(a))[0] == a && forall i :: 0 < i < |S.comps(S.emb(a))| ==>
      S.comps(S.emb(a))[i] == S.fromU64(0)
  }

  ghost predicate ValidSetup<A(!new), T(!new)>(S: Setup<A, T>) {
    && IsField(S.k) && IsBasis(S.k.ring, BasisOf(S)) && |S.elements| == S.degree > 0
    && (forall x :: ComponentsFit(S, x)) && (forall a :: BaseComponents(S, a))
    && (forall n :: DomainFits(S, n)) && (forall n :: DomainRounds(S, n)) && (forall n :: DomainEmbeds(S, n))
    && (forall m, q :: DomainsNest(S, m, q))
  }

  /** The domain of any size up to the largest. */
  lemma DomainOfAny<A(!new), T(!new)>(S: Setup<A, T>, n: nat)
    requires ValidSetup(S) && n <= MAX_DOMAIN
    ensures ValidDomain(S.k.ring, S.domains(n)) && S.domains(n).size == NextPowerOfTwo(n) >= n
  {
    LargestIsPower();
    NextPowerIsLeast(n, MAX_DOMAIN);
    assert DomainRounds(S, n) && DomainFits(S, NextPowerOfTwo(n));
  }

  /** Powers of two are invertible, as two is the size of a domain. */
  lemma {:induction false} PowerInvertible<A(!new), T(!new)>(S: Setup<A, T>, m: nat)
    requires ValidSetup(S) && IsPowerOfTwo(m)
    ensures NatElem(S.k.ring, m) != S.k.ring.zero && S.k.Invert(NatElem(S.k.ring, m)).Some?
  {
    var k, half := S.k, m / 2;
    if m == 1 {
      assert DomainFits(S, 1);
      UnitIsNonZero(k, NatElem(k.ring, 1), S.domains(1).sizeInv);
    } else {
      PowerInvertible(S, half);
      assert IsPowerOfTwo(2) && DomainFits(S, 2);
      UnitIsNonZero(k, NatElem(k.ring, 2), S.domains(2).sizeInv);
      NatElemMul(k.ring, 2, half);
      if NatElem(k.ring, m) == k.ring.zero {
        NoZeroDivisors(k, NatElem(k.ring, 2), NatElem(k.ring, half));
      }
      InvertDefined(k, NatElem(k.ring, m));
    }
  }

  datatype Params = Params(schedule: seq<nat>, r: nat, seedZ: nat, coeffCommitFinal: bool, dFinal: nat, stir: bool,
                           s0: nat, publicInputsHash: Option<seq<Byte>>)
  {
    function UsesCommit(): bool { coeffCommitFinal && schedule != [] }

    function NormalLayers(): nat { if UsesCommit() then |schedule| - 1 else |schedule| }
  }

  // ---------- layer sizes ----------

  function SizeAt(n0: nat, schedule: seq<nat>, ell: nat): nat
    requires ell <= |schedule|
  {
    if ell == 0 then n0
    else if schedule[ell - 1] == 0 then 0
    else Quot(SizeAt(n0, schedule, ell - 1), schedule[ell - 1])
  }

  /** Factors are powers of two, at least two, and divide the sizes they meet; sizes are powers of two. */
  ghost predicate LayerFits(n0: nat, schedule: seq<nat>, ell: nat)
    requires ell < |schedule|
  {
    && IsPowerOfTwo(schedule[ell]) && schedule[ell] >= 2
    && IsPowerOfTwo(SizeAt(n0, schedule, ell)) && IsPowerOfTwo(SizeAt(n0, schedule, ell + 1))
    && SizeAt(n0, schedule, ell) == schedule[ell] * SizeAt(n0, schedule, ell + 1)
    && SizeAt(n0, schedule, ell + 1) <= SizeAt(n0, schedule, ell) <= MAX_DOMAIN
  }

  ghost predicate GoodSchedule(n0: nat, schedule: seq<nat>) {
    schedule != [] && IsPowerOfTwo(n0) && forall ell :: 0 <= ell < |schedule| ==> LayerFits(n0, schedule, ell)
  }

  lemma FactorsPositive(n0: nat, schedule: seq<nat>)
    requires GoodSchedule(n0, schedule)
    ensures n0 > 0 && forall ell :: 0 <= ell < |schedule| ==> schedule[ell] > 0
  {
    forall ell: nat | ell < |schedule|
      ensures schedule[ell] > 0
    {
      assert LayerFits(n0, schedule, ell);
    }
  }

  lemma SizesStayPositive(n0: nat, schedule: seq<nat>)
    requires GoodSchedule(n0, schedule)
    ensures forall ell :: 0 <= ell <= |schedule| ==> SizeAt(n0, schedule, ell) > 0
  {
    forall ell: nat | ell <= |schedule|
      ensures SizeAt(n0, schedule, ell) > 0
    {
      assert ell < |schedule| ==> LayerFits(n0, schedule, ell);
      assert ell == |schedule| ==> LayerFits(n0, schedule, ell - 1);
    }
  }

  function ProductOf(schedule: seq<nat>): nat {
    if schedule == [] then 1 else schedule[0] * ProductOf(schedule[1..])
  }

  ghost predicate TwoPowerFactors(schedule: seq<nat>) {
    forall ell :: 0 <= ell < |schedule| ==> IsPowerOfTwo(schedule[ell]) && schedule[ell] >= 2
  }

  /** The good schedules: powers of two, each at least two, whose product divides the size of the first domain. */
  lemma GoodScheduleIff(n0: nat, schedule: seq<nat>)
    requires IsPowerOfTwo(n0)
    ensures GoodSchedule(n0, schedule) <==>
      && schedule != [] && n0 <= MAX_DOMAIN && TwoPowerFactors(schedule)
      && Divides(ProductOf(schedule), n0)
  {
    if GoodSchedule(n0, schedule) {
      FactorsOfGood(n0, schedule);
    }
    if schedule != [] && n0 <= MAX_DOMAIN && TwoPowerFactors(schedule) && Divides(ProductOf(schedule), n0) {
      GoodFromFactors(n0, schedule);
    }
  }

  lemma FactorsOfGood(n0: nat, schedule: seq<nat>)
    requires GoodSchedule(n0, schedule)
    ensures n0 <= MAX_DOMAIN && TwoPowerFactors(schedule) && Divides(ProductOf(schedule), n0)
  {
    forall ell: nat | ell < |schedule|
      ensures IsPowerOfTwo(schedule[ell]) && schedule[ell] >= 2
    {
      assert LayerFits(n0, schedule, ell);
    }
    assert LayerFits(n0, schedule, 0) && SizeAt(n0, schedule, 0) == n0;
    SizeTimesRest(n0, schedule, 0);
    assert schedule[0..] == schedule;
    ProductIsPower(schedule);
    MultipleDivides(SizeAt(n0, schedule, |schedule|), ProductOf(schedule));
  }

  lemma GoodFromFactors(n0: nat, schedule: seq<nat>)
    requires IsPowerOfTwo(n0) && schedule != [] && n0 <= MAX_DOMAIN && TwoPowerFactors(schedule)
    requires Divides(ProductOf(schedule), n0)
    ensures GoodSchedule(n0, schedule)
  {
    var p := ProductOf(schedule);
    ProductIsPower(schedule);
    QuotientExists(n0, p);
    PowersOfTwoDivide(n0, p);
    var k := n0 / p;
    assert n0 == k * p && schedule[0..] == schedule;
    forall ell: nat | ell < |schedule|
      ensures LayerFits(n0, schedule, ell)
    {
      LayerOfProduct(n0, schedule, k, ell);
    }
  }

  lemma QuotientExists(n: nat, p: nat)
    requires Divides(p, n) && n > 0
    ensures p <= n
  {
  }

  lemma {:induction false} ProductIsPower(schedule: seq<nat>)
    requires TwoPowerFactors(schedule)
    ensures IsPowerOfTwo(ProductOf(schedule)) && ProductOf(schedule) > 0
  {
    if schedule != [] {
      ProductIsPower(schedule[1..]);
      PowerTimesPower(schedule[0], ProductOf(schedule[1..]));
    }
  }

  /** A layer's size is the last layer's times the factors still to come. */
  lemma {:induction false} SizeTimesRest(n0: nat, schedule: seq<nat>, ell: nat)
    requires GoodSchedule(n0, schedule) && ell <= |schedule|
    ensures SizeAt(n0, schedule, ell) == SizeAt(n0, schedule, |schedule|) * ProductOf(schedule[ell..])
    decreases |schedule| - ell
  {
    if ell < |schedule| {
      SizeTimesRest(n0, schedule, ell + 1);
      assert LayerFits(n0, schedule, ell) && schedule[ell..][1..] == schedule[ell + 1..];
      TripleProduct(SizeAt(n0, schedule, |schedule|), schedule[ell], ProductOf(schedule[ell + 1..]));
    } else {
      assert schedule[ell..] == [];
    }
  }

  lemma TripleProduct(k: nat, m: nat, rest: nat)
    ensures m * (k * rest) == k * (m * rest) == (k * rest) * m
  {
  }

  /** Sizes computed by division when the first is k times the product. */
  lemma {:induction false} SizeOfProduct(n0: nat, schedule: seq<nat>, k: nat, ell: nat)
    requires TwoPowerFactors(schedule) && n0 == k * ProductOf(schedule[0..]) && ell <= |schedule|
    ensures SizeAt(n0, schedule, ell) == k * ProductOf(schedule[ell..])
  {
    if ell > 0 {
      SizeOfProduct(n0, schedule, k, ell - 1);
      var (m, rest) := (schedule[ell - 1], ProductOf(schedule[ell..]));
      assert schedule[ell - 1..][1..] == schedule[ell..];
      TripleProduct(k, m, rest);
      MultipleDivides(k * rest, m);
    }
  }

  lemma LayerOfProduct(n0: nat, schedule: seq<nat>, k: nat, ell: nat)
    requires TwoPowerFactors(schedule) && n0 == k * ProductOf(schedule[0..]) && ell < |schedule| && IsPowerOfTwo(k)
    requires n0 <= MAX_DOMAIN
    ensures LayerFits(n0, schedule, ell)
  {
    var (m, rest) := (schedule[ell], ProductOf(schedule[ell + 1..]));
    SizeOfProduct(n0, schedule, k, ell);
    SizeOfProduct(n0, schedule, k, ell + 1);
    assert schedule[ell..][1..] == schedule[ell + 1..];
    TripleProduct(k, m, rest);
    ProductIsPower(schedule[ell..]);
    ProductIsPower(schedule[ell + 1..]);
    PowerTimesPower(k, ProductOf(schedule[ell..]));
    PowerTimesPower(k, rest);
    BlocksMonotone(1, m, k * rest);
    SizesShrink(n0, schedule, ell);
  }

  lemma {:induction false} SizesShrink(n0: nat, schedule: seq<nat>, ell: nat)
    requires ell <= |schedule|
    ensures SizeAt(n0, schedule, ell) <= n0
  {
    if ell > 0 {
      SizesShrink(n0, schedule, ell - 1);
      if schedule[ell - 1] > 0 {
        var s, m := SizeAt(n0, schedule, ell - 1), schedule[ell - 1];
        BlockOf(s, m, Quot(s, m) * m);
        BlocksMonotone(1, m, Quot(s, m));
        assert Quot(s, m) * m == m * Quot(s, m);
      }
    }
  }

  predicate SizesDivide(n0: nat, schedule: seq<nat>) {
    forall ell :: 0 <= ell < |schedule| ==> DividesAt(n0, schedule, ell)
  }

  predicate DividesAt(n0: nat, schedule: seq<nat>, ell: nat)
    requires ell < |schedule|
  {
    schedule[ell] > 0 && Rem(SizeAt(n0, schedule, ell), schedule[ell]) == 0
  }

  /** `layer_sizes_from_schedule`: it asserts that every factor divides the size it meets. */
  method LayerSizesFromSchedule(n0: nat, schedule: seq<nat>) returns (divides: bool, sizes: seq<nat>)
    requires forall ell :: 0 <= ell < |schedule| ==> schedule[ell] > 0
    ensures divides <==> SizesDivide(n0, schedule)
    ensures divides ==>
      |sizes| == |schedule| + 1 && forall ell :: 0 <= ell <= |schedule| ==> sizes[ell] == SizeAt(n0, schedule, ell)
  {
    sizes := [n0];
    var n := n0;
    for ell := 0 to |schedule|
      invariant |sizes| == ell + 1 && n == SizeAt(n0, schedule, ell)
      invariant forall i :: 0 <= i <= ell ==> sizes[i] == SizeAt(n0, schedule, i)
      invariant forall i :: 0 <= i < ell ==> DividesAt(n0, schedule, i)
    {
      if Rem(n, schedule[ell]) != 0 {
        assert !DividesAt(n0, schedule, ell);
        return false, sizes;
      }
      n := Quot(n, schedule[ell]);
      sizes := sizes + [n];
    }
    divides := true;
  }

  /** A schedule of powers of two, and a first size its factors divide. */
  ghost predicate Divisible(n0: nat, schedule: seq<nat>) {
    schedule != [] && TwoPowerFactors(schedule) && SizesDivide(n0, schedule)
  }

  /** The same, and small enough for the domains to exist. */
  ghost predicate FitSchedule(n0: nat, schedule: seq<nat>) { Divisible(n0, schedule) && n0 <= MAX_DOMAIN }

  lemma GoodIsFit(n0: nat, schedule: seq<nat>)
    requires GoodSchedule(n0, schedule)
    ensures FitSchedule(n0, schedule) && n0 > 0
  {
    FactorsOfGood(n0, schedule);
    forall ell: nat | ell < |schedule|
      ensures DividesAt(n0, schedule, ell)
    {
      assert LayerFits(n0, schedule, ell);
      ExactFactor(SizeAt(n0, schedule, ell), schedule[ell], SizeAt(n0, schedule, ell + 1));
    }
  }

  lemma ExactFactor(n: nat, m: nat, q: nat)
    requires m > 0 && n == m * q
    ensures Rem(n, m) == 0 && Quot(n, m) == q
  {
    MultipleDivides(q, m);
  }

  lemma ExactQuotient(n: nat, m: nat)
    requires m > 0 && Rem(n, m) == 0
    ensures n == m * Quot(n, m) && (n > 0 ==> Quot(n, m) > 0)
  {
    BlockOf(n, m, Quot(n, m) * m);
  }

  /** Sizes of a fitting schedule stay positive and have domains. */
  lemma {:induction false} FitSizes(n0: nat, schedule: seq<nat>, ell: nat)
    requires Divisible(n0, schedule) && ell <= |schedule|
    ensures SizeAt(n0, schedule, ell) <= n0 && (n0 > 0 ==> SizeAt(n0, schedule, ell) > 0)
  {
    SizesShrink(n0, schedule, ell);
    if ell > 0 {
      FitSizes(n0, schedule, ell - 1);
      assert DividesAt(n0, schedule, ell - 1);
      ExactQuotient(SizeAt(n0, schedule, ell - 1), schedule[ell - 1]);
    }
  }

  // ---------- the transcript ----------

  function Ascii(s: string): seq<Byte> { seq(|s|, i requires 0 <= i < |s| => s[i] as int % 256) }

  function Digits(n: nat): string {
    if n < 10 then [('0' as int + n) as char] else Digits(n / 10) + [('0' as int + n % 10) as char]
  }

  /** The label of component i of an extension-field challenge. */
  function SubTag(tag: string, i: nat): string { tag + "/c" + Digits(i) }

  function ChallengeExt<A, T>(S: Setup<A, T>, log: Log, tag: string): T {
    S.fromComps(ChallengeComponents(S, log, tag, S.degree))
  }

  function ChallengeComponents<A, T>(S: Setup<A, T>, log: Log, tag: string, k: nat): seq<A> {
    if k == 0 then [] else ChallengeComponents(S, log, tag, k - 1) + [S.squeeze(log, SubTag(tag, k - 1))]
  }

  /** What absorbing extension-field elements appends: their components one by one. */
  function FieldItems<A, T>(S: Setup<A, T>, xs: seq<A>): Log {
    seq(|xs|, i requires 0 <= i < |xs| => S.fieldBytes(xs[i]))
  }

  function ExtItems<A, T>(S: Setup<A, T>, vs: seq<T>): Log {
    if vs == [] then [] else ExtItems(S, vs[..|vs| - 1]) + FieldItems(S, S.comps(vs[|vs| - 1]))
  }

  class Transcript<A, T> {
    const S: Setup<A, T>
    var log: Log

    constructor (S: Setup<A, T>)
      ensures this.S == S && log == []
    {
      this.S, log := S, [];
    }

    method AbsorbBytes(bytes: seq<Byte>)
      modifies this
      ensures log == old(log) + [bytes]
    {
      log := log + [bytes];
    }

    method AbsorbField(x: A)
      modifies this
      ensures log == old(log) + [S.fieldBytes(x)]
    {
      AbsorbBytes(S.fieldBytes(x));
    }

    method AbsorbExt(v: T)
      modifies this
      ensures log == old(log) + FieldItems(S, S.comps(v))
    {
      var comps := S.comps(v);
      ghost var items := FieldItems(S, comps);
      for i := 0 to |comps|
        invariant log == old(log) + items[..i]
      {
        AbsorbField(comps[i]);
      }
      assert items[..|comps|] == items;
    }

    method AbsorbAll(vs: seq<T>)
      modifies this
      ensures log == old(log) + ExtItems(S, vs)
    {
      for i := 0 to |vs|
        invariant log == old(log) + ExtItems(S, vs[..i])
      {
        assert vs[..i + 1][..i] == vs[..i];
        AbsorbExt(vs[i]);
      }
      assert vs[..|vs|] == vs;
    }

    /** `challenge_ext`: reading challenges leaves the log alone. */
    method Challenge(tag: string) returns (v: T)
      ensures v == ChallengeExt(S, log, tag)
    {
      var components := [];
      for i := 0 to S.degree
        invariant components == ChallengeComponents(S, log, tag, i)
      {
        components := components + [S.squeeze(log, SubTag(tag, i))];
      }
      v := S.fromComps(components);
    }
  }

  /** The commitment to the public inputs, when there is one. */
  function PublicItems(params: Params): Log {
    if params.publicInputsHash.Some? then [Ascii("CAIRO-PUBLIC-INPUTS-V1"), params.publicInputsHash.value] else []
  }

  function ScheduleItems<A, T>(S: Setup<A, T>, schedule: seq<nat>): Log {
    seq(|schedule|, i requires 0 <= i < |schedule| => S.fieldBytes(S.fromU64(schedule[i])))
  }

  function FlagItem<A, T>(S: Setup<A, T>, flag: bool): seq<Byte> { S.fieldBytes(S.fromU64(if flag then 1 else 0)) }

  function SizeItems<A, T>(S: Setup<A, T>, n0: nat, layers: nat): Log {
    [Ascii("DEEP-FRI-STATEMENT-V2"), S.fieldBytes(S.fromU64(n0)), S.fieldBytes(S.fromU64(layers))]
  }

  function ModeItems<A, T>(S: Setup<A, T>, params: Params): Log {
    [S.fieldBytes(S.fromU64(params.seedZ)), S.fieldBytes(S.fromU64(S.degree)), FlagItem(S, params.coeffCommitFinal),
     FlagItem(S, params.stir)]
  }

  /** The statement both sides absorb first. */
  function StatementItems<A, T>(S: Setup<A, T>, params: Params, n0: nat): Log {
    PublicItems(params) + SizeItems(S, n0, |params.schedule|) + ScheduleItems(S, params.schedule) + ModeItems(S, params)
  }

  /** `bind_statement_to_transcript` */
  method BindStatement<A, T>(tr: Transcript<A, T>, params: Params, n0: nat)
    modifies tr
    ensures tr.log == old(tr.log) + StatementItems(tr.S, params, n0)
  {
    ghost var a, b := PublicItems(params), SizeItems(tr.S, n0, |params.schedule|);
    ghost var c, d := ScheduleItems(tr.S, params.schedule), ModeItems(tr.S, params);
    AbsorbPublic(tr, params);
    AbsorbSizes(tr, n0, |params.schedule|);
    AbsorbSchedule(tr, params.schedule);
    AbsorbMode(tr, params);
    AppendFour(old(tr.log), a, b, c, d);
  }

  lemma AppendFour<X>(s: seq<X>, a: seq<X>, b: seq<X>, c: seq<X>, d: seq<X>)
    ensures s + a + b + c + d == s + (a + b + c + d)
  {
  }

  method AbsorbPublic<A, T>(tr: Transcript<A, T>, params: Params)
    modifies tr
    ensures tr.log == old(tr.log) + PublicItems(params)
  {
    if params.publicInputsHash.Some? {
      tr.AbsorbBytes(Ascii("CAIRO-PUBLIC-INPUTS-V1"));
      tr.AbsorbBytes(params.publicInputsHash.value);
    }
  }

  method AbsorbSizes<A, T>(tr: Transcript<A, T>, n0: nat, layers: nat)
    modifies tr
    ensures tr.log == old(tr.log) + SizeItems(tr.S, n0, layers)
  {
    tr.AbsorbBytes(Ascii("DEEP-FRI-STATEMENT-V2"));
    tr.AbsorbField(tr.S.fromU64(n0));
    tr.AbsorbField(tr.S.fromU64(layers));
  }

  method AbsorbMode<A, T>(tr: Transcript<A, T>, params: Params)
    modifies tr
    ensures tr.log == old(tr.log) + ModeItems(tr.S, params)
  {
    tr.AbsorbField(tr.S.fromU64(params.seedZ));
    tr.AbsorbField(tr.S.fromU64(tr.S.degree));
    tr.AbsorbField(tr.S.fromU64(if params.coeffCommitFinal then 1 else 0));
    tr.AbsorbField(tr.S.fromU64(if params.stir then 1 else 0));
  }

  method AbsorbSchedule<A, T>(tr: Transcript<A, T>, schedule: seq<nat>)
    modifies tr
    ensures tr.log == old(tr.log) + ScheduleItems(tr.S, schedule)
  {
    ghost var items := ScheduleItems(tr.S, schedule);
    for i := 0 to |schedule|
      invariant tr.log == old(tr.log) + items[..i]
    {
      tr.AbsorbField(tr.S.fromU64(schedule[i]));
    }
    assert items[..|schedule|] == items;
  }

  // ---------- trees ----------

  /** `pick_arity_for_layer` */
  function PickArity(n: nat, requested: nat): nat {
    if requested >= 128 && n % 128 == 0 then 128
    else if requested >= 64 && n % 64 == 0 then 64
    else if requested >= 32 && n % 32 == 0 then 32
    else if requested >= 16 && n % 16 == 0 then 16
    else if requested >= 8 && n % 8 == 0 then 8
    else if requested >= 4 && n % 4 == 0 then 4
    else if n % 2 == 0 then 2
    else 1
  }

  function TreeArity(n: nat, requested: nat): (a: nat)
    ensures a >= 2
  {
    var a := PickArity(n, requested);
    if a < 2 then 2 else a
  }

  /** A power of two that may be picked. */
  ghost predicate ArityFits(n: nat, requested: nat, b: nat) {
    IsPowerOfTwo(b) && b <= 128 && b <= requested && Divides(b, n)
  }

  lemma {:induction false} SmallPowers(b: nat)
    requires IsPowerOfTwo(b) && b <= 128
    ensures b == 1 || b == 2 || b == 4 || b == 8 || b == 16 || b == 32 || b == 64 || b == 128
  {
    if b > 1 {
      SmallPowers(b / 2);
    }
  }

  /** The largest power of two up to 128 and up to the request that divides the size, but at least two. */
  lemma TreeArityIsLargest(n: nat, requested: nat)
    ensures
      var a := TreeArity(n, requested);
      && (a == 2 || ArityFits(n, requested, a))
      && forall b: nat :: ArityFits(n, requested, b) ==> b <= a
  {
    var a := TreeArity(n, requested);
    assert IsPowerOfTwo(2) && IsPowerOfTwo(4) && IsPowerOfTwo(8);
    assert IsPowerOfTwo(16) && IsPowerOfTwo(32);
    assert IsPowerOfTwo(64) && IsPowerOfTwo(128);
    forall b: nat | ArityFits(n, requested, b)
      ensures b <= a
    {
      SmallPowers(b);
    }
  }

  /** Equal arities, as many as `merkle_depth` says. */
  function TreeConfig(n: nat, requested: nat, treeLabel: nat): (cfg: MerkleChannelCfg)
    ensures cfg.layerArities != []
  {
    var arity := TreeArity(n, requested);
    MerkleChannelCfg(seq(DepthFor(n, arity), _ => arity), treeLabel)
  }

  const F0_LABEL: nat := 0xFF

  const COEFF_LABEL: nat := 0xFE

  lemma TreeConfigCovers(n: nat, requested: nat, treeLabel: nat)
    ensures Covers(TreeConfig(n, requested, treeLabel).layerArities, 0, n)
  {
    var arity := TreeArity(n, requested);
    DepthCovers(TreeConfig(n, requested, treeLabel).layerArities, arity, n, 0);
  }

  /** The root of a finalized tree over serialized leaves. */
  function TreeRoot(h: Hasher, requested: nat, treeLabel: nat, leaves: seq<seq<Byte>>): Digest {
    if leaves == [] then []
    else
      var cfg := TreeConfig(|leaves|, requested, treeLabel);
      TreeConfigCovers(|leaves|, requested, treeLabel);
      RootOf(h, cfg, 0, LeafHashes(h, cfg, leaves))
  }

  /** What a leaf check asks of an opening: it verifies, is for the index, and binds the value. */
  ghost predicate OpensTo(h: Hasher, cfg: MerkleChannelCfg, root: Digest, o: MerkleOpening, index: nat,
                          value: seq<Byte>) {
    && PathFits(cfg, o.path) && cfg.layerArities != []
    && Verifies(h, cfg, root, o) && o.index == index && o.leaf == LeafHash(h, cfg, o.index, value)
  }

  /** The leaf check: Merkle path, then index, then leaf. */
  function OpensVerdict(h: Hasher, cfg: MerkleChannelCfg, root: Digest, o: MerkleOpening, index: nat,
                        value: seq<Byte>): Verdict
    requires cfg.layerArities != []
  {
    OpeningVerdict(h, cfg, root, o).Then(VerdictOf(o.index == index && o.leaf == LeafHash(h, cfg, o.index, value)))
  }

  lemma OpensVerdictIs(h: Hasher, cfg: MerkleChannelCfg, root: Digest, o: MerkleOpening, index: nat, value: seq<Byte>)
    requires cfg.layerArities != []
    ensures OpensVerdict(h, cfg, root, o, index, value).Accept? <==> OpensTo(h, cfg, root, o, index, value)
    ensures PathFits(cfg, o.path) ==> !OpensVerdict(h, cfg, root, o, index, value).Abort?
  {
    OpeningVerdictIs(h, cfg, root, o);
  }

  lemma CeilDivHalves(n: nat, arity: nat, bound: nat)
    requires arity >= 2 && n <= 2 * bound
    ensures CeilDiv(n, arity) <= bound
  {
    var g := CeilDiv(n, arity);
    if g > bound {
      BlocksMonotone(bound + 1, g, arity);
      BlocksMonotone(2, arity, bound);
    }
  }

  lemma MaxDomainIsPower()
    ensures MAX_DOMAIN == Pow2(32)
  {
    assert Pow2(8) == 256;
    Pow2Add(8, 8);
    Pow2Add(16, 16);
  }

  /** Trees over up to 2^k leaves have at most k levels. */
  lemma {:induction false} DepthBound(n: nat, arity: nat, k: nat)
    requires arity >= 2 && k > 0 && n <= Pow2(k)
    ensures DepthFor(n, arity) <= k
    decreases k
  {
    if n > arity {
      var g, below := CeilDiv(n, arity), k - 1;
      assert below > 0 && g <= Pow2(below) by {
        assert n <= 2 * Pow2(below);
        CeilDivHalves(n, arity, Pow2(below));
      }
      DepthBound(g, arity, below);
      assert DepthFor(n, arity) == 1 + DepthFor(g, arity);
    }
  }

  /** What the leaf checks of the protocol rest on: no two values pass at one index under one root without a hash
      collision, whatever lengths the paths have. */
  lemma LeafChecksBind(h: Hasher, n: nat, requested: nat, treeLabel: nat, root: Digest, o1: MerkleOpening,
                       o2: MerkleOpening, index: nat, v1: seq<Byte>, v2: seq<Byte>)
    requires FixedLength(h) && WellSized(h, o1) && WellSized(h, o2) && n <= MAX_DOMAIN && v1 != v2
    requires OpensTo(h, TreeConfig(n, requested, treeLabel), root, o1, index, v1)
    requires OpensTo(h, TreeConfig(n, requested, treeLabel), root, o2, index, v2)
    ensures
      var (x, y) := ValueCollisionFrom(h, TreeConfig(n, requested, treeLabel), o1, o2, v1, v2);
      Collision(h, x, y)
  {
    assert |TreeConfig(n, requested, treeLabel).layerArities| <= 32 by {
      assert n <= Pow2(32) by { MaxDomainIsPower(); }
      DepthBound(n, TreeArity(n, requested), 32);
    }
    ValueBinding(h, TreeConfig(n, requested, treeLabel), root, o1, o2, v1, v2);
  }

  ghost predicate IsTreeOver(h: Hasher, requested: nat, treeLabel: nat, leaves: seq<seq<Byte>>, tree: MerkleTreeChannel)
    requires leaves != []
    reads tree
  {
    var cfg := TreeConfig(|leaves|, requested, treeLabel);
    && tree.h == h && tree.cfg == cfg && tree.skip == 0
    && Covers(cfg.layerArities, 0, |leaves|) && tree.levels == BuildLevels(h, cfg, 0, LeafHashes(h, cfg, leaves))
  }

  /** Push all leaves and finalize. */
  method BuildTree(h: Hasher, requested: nat, treeLabel: nat, leaves: seq<seq<Byte>>)
    returns (tree: MerkleTreeChannel, root: Digest)
    requires leaves != []
    ensures fresh(tree) && root == TreeRoot(h, requested, treeLabel, leaves)
    ensures IsTreeOver(h, requested, treeLabel, leaves, tree)
  {
    var n := |leaves|;
    var arity := TreeArity(n, requested);
    var depth := MerkleDepth(n, arity);
    var cfg := MerkleChannelCfg(seq(depth, _ => arity), treeLabel);
    assert cfg == TreeConfig(n, requested, treeLabel);
    TreeConfigCovers(n, requested, treeLabel);
    tree := new MerkleTreeChannel(h, cfg);
    tree.PushLeavesParallel(leaves);
    root := tree.Finalize();
  }

  lemma PrefixGrows<X>(s: seq<X>, i: nat)
    requires i < |s|
    ensures s[..i + 1] == s[..i] + [s[i]]
  {
  }

  /** The same tree with its leaves pushed one at a time. */
  method GrowTree(h: Hasher, requested: nat, treeLabel: nat, leaves: seq<seq<Byte>>)
    returns (tree: MerkleTreeChannel, root: Digest)
    requires leaves != []
    ensures fresh(tree) && root == TreeRoot(h, requested, treeLabel, leaves)
    ensures IsTreeOver(h, requested, treeLabel, leaves, tree)
  {
    var n := |leaves|;
    var arity := TreeArity(n, requested);
    var depth := MerkleDepth(n, arity);
    var cfg := MerkleChannelCfg(seq(depth, _ => arity), treeLabel);
    assert cfg == TreeConfig(n, requested, treeLabel);
    TreeConfigCovers(n, requested, treeLabel);
    tree := new MerkleTreeChannel(h, cfg);
    ghost var hashes := LeafHashes(h, cfg, leaves);
    for i := 0 to n
      invariant tree.h == h && tree.cfg == cfg && tree.skip == 0
      invariant tree.levels == if i == 0 then [] else [hashes[..i]]
    {
      tree.PushLeaf(leaves[i]);
      PrefixGrows(hashes, i);
      assert hashes[i] == LeafHash(h, cfg, i, leaves[i]);
      assert i == 0 ==> hashes[..i + 1] == [hashes[i]];
      assert [hashes[..i]][0 := hashes[..i + 1]] == [hashes[..i + 1]];
    }
    assert hashes[..n] == hashes;
    root := tree.Finalize();
  }

  /** The opening of any leaf passes the leaf check. */
  method OpenLeaf(h: Hasher, requested: nat, treeLabel: nat, tree: MerkleTreeChannel, ghost leaves: seq<seq<Byte>>,
                  index: nat)
    returns (o: MerkleOpening)
    requires index < |leaves| && IsTreeOver(h, requested, treeLabel, leaves, tree)
    ensures OpensTo(h, TreeConfig(|leaves|, requested, treeLabel), TreeRoot(h, requested, treeLabel, leaves), o, index,
                    leaves[index])
  {
    ghost var cfg := TreeConfig(|leaves|, requested, treeLabel);
    ghost var hashes := LeafHashes(h, cfg, leaves);
    BuildIsLinked(h, cfg, 0, hashes);
    o := tree.Open(index);
    Completeness(h, cfg, hashes, index);
    assert o == OpeningOf(h, cfg, hashes, index);
  }
}
