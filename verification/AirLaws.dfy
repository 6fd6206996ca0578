/** The traces and their constraints entry by entry, in powers, numbers and quotients of the field alone. */
module AirLaws {
  import Arith
  import opened Rings
  import opened FriLayers
  import opened Air
  import opened AirDetermined

  // ---------- Fibonacci numbers ----------

  function Fib(i: nat): nat { if i < 2 then 1 else Fib(i - 2) + Fib(i - 1) }

  /** Row i of the builder's table holds two consecutive Fibonacci numbers. */
  lemma {:induction false} FibonacciNumbers<T(!new)>(r: Ring<T>, i: nat)
    requires IsRing(r)
    ensures FibonacciRow(r, i) == [NatElem(r, Fib(i)), NatElem(r, Fib(i + 1))]
  {
    if i == 0 {
      AddZero(r, r.one);
    } else {
      FibonacciNumbers(r, i - 1);
      NatElemAdd(r, Fib(i - 1), Fib(i));
    }
  }

  // ---------- the register machine ----------

  /** What register j becomes: its product with the next, plus the one after that, cyclically; for the last, the inner
      product of the two halves. */
  function NextRegister<T>(r: Ring<T>, cur: seq<T>, j: nat): T
    requires |cur| == 8 && j < 8
  {
    if j < 7 then r.Add(r.Mul(cur[j], cur[j + 1]), cur[(j + 2) % 8])
    else
      r.Add(r.Add(r.Add(r.Mul(cur[0], cur[4]), r.Mul(cur[1], cur[5])), r.Mul(cur[2], cur[6])), r.Mul(cur[3], cur[7]))
  }

  ghost predicate RegistersStep<T>(r: Ring<T>, t: seq<seq<T>>, n: nat, i: nat)
    requires IsTable(t, 8, n) && i + 1 < n
  {
    forall j :: 0 <= j < 8 ==> t[j][i + 1] == NextRegister(r, RowOf(t, 8, n, i), j)
  }

  lemma RegistersStepIff<T(!new)>(k: Field<T>, t: seq<seq<T>>, n: nat, i: nat)
    requires IsRing(k.ring) && IsTable(t, 8, n) && i + 1 < n
    ensures RowHolds(k, RegisterMachine, t, n, i) <==> RegistersStep(k.ring, t, n, i)
  {
    var (cur, nxt) := (RowOf(t, 8, n, i), RowOf(t, 8, n, i + 1));
    RegisterRowIff(k.ring, cur, nxt);
    assert forall j :: 0 <= j < 8 ==> cur[j] == t[j][i] && nxt[j] == t[j][i + 1];
    assert nxt == [nxt[0], nxt[1], nxt[2], nxt[3], nxt[4], nxt[5], nxt[6], nxt[7]];
  }

  /** The register constraints hold exactly of the tables that step this way. */
  lemma RegisterTableIff<T(!new)>(k: Field<T>, t: seq<seq<T>>, n: nat)
    requires IsRing(k.ring) && IsTable(t, 8, n)
    ensures Satisfies(k, RegisterMachine, t, n) <==> forall i :: 0 <= i < n - 1 ==> RegistersStep(k.ring, t, n, i)
  {
    forall i: nat | i < n - 1
      ensures RowHolds(k, RegisterMachine, t, n, i) <==> RegistersStep(k.ring, t, n, i)
    {
      RegistersStepIff(k, t, n, i);
    }
  }

  /** The builder's table starts from 1 to 8. */
  lemma RegistersStart<T>(r: Ring<T>, t: seq<seq<T>>, n: nat)
    requires n > 0 && IsRegisterTrace(r, t, n)
    ensures forall j :: 0 <= j < 8 ==> t[j][0] == NatElem(r, j + 1)
  {
    forall j: nat | j < 8
      ensures t[j][0] == NatElem(r, j + 1)
    {
      assert RowOf(t, 8, n, 0)[j] == RegisterRow(r, 0)[j];
    }
  }

  // ---------- Poseidon: constants ----------

  /** The matrix is that of the reciprocals 1 / (i + j + 6). */
  lemma MdsIsReciprocal<T(!new)>(k: Field<T>, i: nat, j: nat)
    requires IsField(k) && NatElem(k.ring, i + j + 6) != k.ring.zero
    ensures k.ring.Mul(Mds(k, i, j), NatElem(k.ring, i + j + 6)) == k.ring.one
  {
    var r, denom := k.ring, NatElem(k.ring, i + j + 6);
    NatElemAdd(r, i + 1, j + 5);
    assert (i + 1) + (j + 5) == i + j + 6;
    InvertDefined(k, denom);
    assert InvertSound(k, denom);
    MulCommutes(r, denom, Mds(k, i, j));
  }

  /** Wrapping at every step is wrapping once. */
  lemma RoundConstantIs<T>(r: Ring<T>, row: nat, col: nat)
    ensures RoundConstant(r, row, col)
         == NatElem(r, (row * 0x9E37_79B9_7F4A_7C15 + col) * 0x6C62_272E_07BB_0142 % 0x1_0000_0000_0000_0000)
  {
    var (a, b) := (row * 0x9E37_79B9_7F4A_7C15, 0x6C62_272E_07BB_0142);
    WrapSum(a, col, U64);
    WrapProduct(a + col, b, U64);
  }

  lemma WrapSum(a: nat, c: nat, n: nat)
    requires n > 0
    ensures (a % n + c) % n == (a + c) % n
  {
    var q := a / n;
    assert a + c == (a % n + c) + q * n;
    WrapShift(a % n + c, q, n);
  }

  lemma WrapProduct(a: nat, b: nat, n: nat)
    requires n > 0
    ensures (a % n) * b % n == a * b % n
  {
    var (q, m) := (a / n, a % n);
    SplitProduct(a, m, q, n, b);
    WrapShift(m * b, q * b, n);
  }

  lemma SplitProduct(a: nat, m: nat, q: nat, n: nat, b: nat)
    requires a == q * n + m
    ensures a * b == m * b + (q * b) * n
  {
    assert a * b == (q * n) * b + m * b;
    assert (q * n) * b == (q * b) * n;
  }

  lemma WrapShift(x: nat, q: nat, n: nat)
    requires n > 0
    ensures (x + q * n) % n == x % n
  {
    assert x + q * n == (x / n + q) * n + x % n;
    Arith.DivModUnique(x + q * n, n, x / n + q, x % n);
  }

  // ---------- Poseidon: the chain ----------

  /** What lane j of a row raises to powers. */
  function Keyed<T>(r: Ring<T>, t: seq<seq<T>>, n: nat, i: nat, j: nat): T
    requires IsTable(t, 16, n) && i < n && j < 4
  {
    r.Add(t[j][i], RoundConstant(r, i, j))
  }

  /** The auxiliary columns of row i are second, third and fourth powers. */
  ghost predicate PowersAt<T>(r: Ring<T>, t: seq<seq<T>>, n: nat, i: nat)
    requires IsTable(t, 16, n) && i < n
  {
    forall j :: 0 <= j < 4 ==>
      && t[4 + j][i] == Pow(r, Keyed(r, t, n, i, j), 2) && t[8 + j][i] == Pow(r, Keyed(r, t, n, i, j), 3)
      && t[12 + j][i] == Pow(r, Keyed(r, t, n, i, j), 4)
  }

  /** The m-th seventh power divided by j + m + 6. */
  function MixTerm<T>(k: Field<T>, t: seq<seq<T>>, n: nat, i: nat, j: nat, m: nat): T
    requires IsTable(t, 16, n) && i < n && j < 4 && m < 4
  {
    k.ring.Mul(InverseOr(k, NatElem(k.ring, j + m + 6)), Pow(k.ring, Keyed(k.ring, t, n, i, m), 7))
  }

  /** Entry j of the next state is the sum over m of the seventh powers divided by j + m + 6. */
  ghost predicate ChainsAt<T>(k: Field<T>, t: seq<seq<T>>, n: nat, i: nat)
    requires IsTable(t, 16, n) && i + 1 < n
  {
    forall j :: 0 <= j < 4 ==>
      t[j][i + 1] == k.ring.Add(k.ring.Add(k.ring.Add(MixTerm(k, t, n, i, j, 0), MixTerm(k, t, n, i, j, 1)),
                                           MixTerm(k, t, n, i, j, 2)), MixTerm(k, t, n, i, j, 3))
  }

  lemma SmallPowers<T(!new)>(r: Ring<T>, x: T)
    requires IsRing(r)
    ensures r.Mul(x, x) == Pow(r, x, 2) && r.Mul(r.Mul(x, x), x) == Pow(r, x, 3)
    ensures r.Mul(r.Mul(x, x), r.Mul(x, x)) == Pow(r, x, 4)
    ensures r.Mul(Pow(r, x, 4), Pow(r, x, 3)) == Pow(r, x, 7)
  {
    MulOne(r, x);
    assert Pow(r, x, 1) == x;
    PowAdd(r, x, 1, 1);
    PowAdd(r, x, 2, 1);
    PowAdd(r, x, 2, 2);
    PowAdd(r, x, 4, 3);
  }

  lemma LanePowersAre<T(!new)>(k: Field<T>, t: seq<seq<T>>, n: nat, i: nat, j: nat)
    requires IsRing(k.ring) && IsTable(t, 16, n) && i < n && j < 4
    ensures
      var (r, cur) := (k.ring, RowOf(t, 16, n, i));
      LaneAuxiliary(r, StandardParams(k), cur, i, j) <==>
      && t[4 + j][i] == Pow(r, Keyed(r, t, n, i, j), 2) && t[8 + j][i] == Pow(r, Keyed(r, t, n, i, j), 3)
      && t[12 + j][i] == Pow(r, Keyed(r, t, n, i, j), 4)
  {
    var (r, pp, cur) := (k.ring, StandardParams(k), RowOf(t, 16, n, i));
    var s := Keyed(r, t, n, i, j);
    SmallPowers(r, s);
    assert cur[..4][j] == t[j][i];
    assert cur[4 + 4 * 0 + j] == t[4 + j][i] && cur[4 + 4 * 1 + j] == t[8 + j][i];
    assert cur[4 + 4 * 2 + j] == t[12 + j][i];
    assert PowerColumn(r, pp, cur[..4], i, 0, j) == Pow(r, s, 2);
    assert PowerColumn(r, pp, cur[..4], i, 1, j) == Pow(r, s, 3);
    assert PowerColumn(r, pp, cur[..4], i, 2, j) == Pow(r, s, 4);
    if LaneAuxiliary(r, pp, cur, i, j) {
      assert cur[4 + 4 * 0 + j] == PowerColumn(r, pp, cur[..4], i, 0, j);
      assert cur[4 + 4 * 1 + j] == PowerColumn(r, pp, cur[..4], i, 1, j);
      assert cur[4 + 4 * 2 + j] == PowerColumn(r, pp, cur[..4], i, 2, j);
    }
  }

  lemma PowersAtIff<T(!new)>(k: Field<T>, t: seq<seq<T>>, n: nat, i: nat)
    requires IsRing(k.ring) && IsTable(t, 16, n) && i < n
    ensures AuxiliaryIs(k.ring, StandardParams(k), RowOf(t, 16, n, i), i) <==> PowersAt(k.ring, t, n, i)
  {
    AuxiliaryByLane(k.ring, StandardParams(k), RowOf(t, 16, n, i), i);
    forall j: nat | j < 4
      ensures
        LaneAuxiliary(k.ring, StandardParams(k), RowOf(t, 16, n, i), i, j) <==>
        && t[4 + j][i] == Pow(k.ring, Keyed(k.ring, t, n, i, j), 2)
        && t[8 + j][i] == Pow(k.ring, Keyed(k.ring, t, n, i, j), 3)
        && t[12 + j][i] == Pow(k.ring, Keyed(k.ring, t, n, i, j), 4)
    {
      LanePowersAre(k, t, n, i, j);
    }
  }

  /** Fourth power times cube, divided. */
  lemma MixTermIs<T(!new)>(k: Field<T>, t: seq<seq<T>>, n: nat, i: nat, j: nat, m: nat)
    requires IsRing(k.ring) && IsTable(t, 16, n) && i < n && j < 4 && m < 4 && PowersAt(k.ring, t, n, i)
    ensures k.ring.Mul(Mds(k, j, m), k.ring.Mul(t[12 + m][i], t[8 + m][i])) == MixTerm(k, t, n, i, j, m)
  {
    SmallPowers(k.ring, Keyed(k.ring, t, n, i, m));
    NatElemAdd(k.ring, j + 1, m + 5);
    assert (j + 1) + (m + 5) == j + m + 6;
  }

  lemma MixStep<T(!new)>(k: Field<T>, t: seq<seq<T>>, n: nat, i: nat, j: nat, m: nat)
    requires IsRing(k.ring) && IsTable(t, 16, n) && i < n && j < 4 && m < 4 && PowersAt(k.ring, t, n, i)
    ensures
      var (r, cur) := (k.ring, RowOf(t, 16, n, i));
      SboxMixed(r, StandardParams(k), cur, j, m + 1)
      == r.Add(SboxMixed(r, StandardParams(k), cur, j, m), MixTerm(k, t, n, i, j, m))
  {
    MixTermIs(k, t, n, i, j, m);
    MixUnfolds(k.ring, StandardParams(k), RowOf(t, 16, n, i), j, m);
  }

  lemma MixUnfolds<T>(r: Ring<T>, pp: PoseidonParams<T>, c: seq<T>, j: nat, m: nat)
    requires |c| == 16 && m < 4
    ensures SboxMixed(r, pp, c, j, m + 1)
         == r.Add(SboxMixed(r, pp, c, j, m), r.Mul(pp.mds(j, m), r.Mul(c[12 + m], c[8 + m])))
  {
  }

  lemma MixIs<T(!new)>(k: Field<T>, t: seq<seq<T>>, n: nat, i: nat, j: nat)
    requires IsRing(k.ring) && IsTable(t, 16, n) && i < n && j < 4 && PowersAt(k.ring, t, n, i)
    ensures
      var (r, cur) := (k.ring, RowOf(t, 16, n, i));
      SboxMixed(r, StandardParams(k), cur, j, 4)
      == r.Add(r.Add(r.Add(MixTerm(k, t, n, i, j, 0), MixTerm(k, t, n, i, j, 1)), MixTerm(k, t, n, i, j, 2)),
               MixTerm(k, t, n, i, j, 3))
  {
    MixStep(k, t, n, i, j, 0);
    MixStep(k, t, n, i, j, 1);
    MixStep(k, t, n, i, j, 2);
    MixStep(k, t, n, i, j, 3);
    AddZero(k.ring, MixTerm(k, t, n, i, j, 0));
  }

  lemma ChainRowIff<T(!new)>(k: Field<T>, t: seq<seq<T>>, n: nat, i: nat)
    requires IsRing(k.ring) && IsTable(t, 16, n) && i + 1 < n
    ensures RowHolds(k, PoseidonChain, t, n, i) <==> PowersAt(k.ring, t, n, i) && ChainsAt(k, t, n, i)
  {
    var (r, pp) := (k.ring, StandardParams(k));
    var (cur, nxt) := (RowOf(t, 16, n, i), RowOf(t, 16, n, i + 1));
    PoseidonRowIff(r, pp, cur, nxt, i);
    PowersAtIff(k, t, n, i);
    if PowersAt(r, t, n, i) {
      forall j: nat | j < 4
        ensures nxt[j] == t[j][i + 1]
        ensures SboxMixed(r, pp, cur, j, 4)
             == r.Add(r.Add(r.Add(MixTerm(k, t, n, i, j, 0), MixTerm(k, t, n, i, j, 1)), MixTerm(k, t, n, i, j, 2)),
                      MixTerm(k, t, n, i, j, 3))
      {
        MixIs(k, t, n, i, j);
      }
    }
  }

  /** The Poseidon constraints hold exactly of the tables whose auxiliary columns are the powers of the keyed state and
      whose next state sums the seventh powers divided by j + m + 6. */
  lemma PoseidonTableIff<T(!new)>(k: Field<T>, t: seq<seq<T>>, n: nat)
    requires IsRing(k.ring) && IsTable(t, 16, n)
    ensures Satisfies(k, PoseidonChain, t, n) <==>
      forall i :: 0 <= i < n - 1 ==> PowersAt(k.ring, t, n, i) && ChainsAt(k, t, n, i)
  {
    forall i: nat | i < n - 1
      ensures RowHolds(k, PoseidonChain, t, n, i) <==> PowersAt(k.ring, t, n, i) && ChainsAt(k, t, n, i)
    {
      ChainRowIff(k, t, n, i);
    }
  }

  /** The builder's table starts from 1, 2, 3, 4, and has the powers in its last row as well. */
  lemma PoseidonEnds<T(!new)>(k: Field<T>, t: seq<seq<T>>, n: nat)
    requires IsRing(k.ring) && IsTable(t, 16, n) && n > 0
    requires forall i :: 0 <= i < n ==>
      RowOf(t, 16, n, i) == PoseidonColumns(k.ring, StandardParams(k), PoseidonState(k.ring, StandardParams(k), i), i)
    ensures forall j :: 0 <= j < 4 ==> t[j][0] == NatElem(k.ring, j + 1)
    ensures PowersAt(k.ring, t, n, n - 1)
  {
    var pp := StandardParams(k);
    forall j: nat | j < 4
      ensures t[j][0] == NatElem(k.ring, j + 1)
    {
      assert RowOf(t, 16, n, 0)[j] == PoseidonState(k.ring, pp, 0)[j];
    }
    var last := RowOf(t, 16, n, n - 1);
    assert last[..4] == PoseidonState(k.ring, pp, n - 1);
    PowersAtIff(k, t, n, n - 1);
  }

  // ---------- the constraints' values off the trace ----------

  /** Adding to each constraint value what the row predicts gives what stands in the table. */
  lemma FibonacciValue<T(!new)>(k: Field<T>, cur: seq<T>, nxt: seq<T>, row: nat)
    requires IsRing(k.ring) && |cur| == |nxt| == 2
    ensures
      var c := EvaluateConstraints(k, Fibonacci, cur, nxt, row);
      k.ring.Add(k.ring.Add(c[0], cur[1]), cur[0]) == nxt[1]
  {
    SubAdd(k.ring, k.ring.Sub(nxt[1], cur[0]), cur[1]);
    SubAdd(k.ring, nxt[1], cur[0]);
  }

  lemma RegisterConstraintIs<T>(r: Ring<T>, cur: seq<T>, nxt: seq<T>, j: nat)
    requires |cur| == |nxt| == 8 && j < 8
    ensures RegisterConstraints(r, cur, nxt)[j] == r.Sub(nxt[j], NextRegister(r, cur, j))
  {
  }

  lemma RegisterValue<T(!new)>(k: Field<T>, cur: seq<T>, nxt: seq<T>, row: nat, j: nat)
    requires IsRing(k.ring) && |cur| == |nxt| == 8 && j < 8
    ensures
      k.ring.Add(EvaluateConstraints(k, RegisterMachine, cur, nxt, row)[j], NextRegister(k.ring, cur, j)) == nxt[j]
  {
    RegisterConstraintIs(k.ring, cur, nxt, j);
    SubAdd(k.ring, nxt[j], NextRegister(k.ring, cur, j));
  }

  lemma CairoValues<T(!new)>(k: Field<T>, cur: seq<T>, nxt: seq<T>, row: nat)
    requires IsRing(k.ring) && |cur| == |nxt| == 8
    ensures
      var (r, c) := (k.ring, EvaluateConstraints(k, CairoSimple, cur, nxt, row));
      && r.Add(r.Add(c[0], r.one), cur[0]) == nxt[0] && r.Add(r.Add(c[1], r.one), cur[1]) == nxt[1]
      && r.Add(c[2], cur[2]) == nxt[2] && r.Add(c[3], r.Mul(cur[3], cur[4])) == cur[6]
  {
    var r := k.ring;
    SubAdd(r, r.Sub(nxt[0], cur[0]), r.one);
    SubAdd(r, nxt[0], cur[0]);
    SubAdd(r, r.Sub(nxt[1], cur[1]), r.one);
    SubAdd(r, nxt[1], cur[1]);
    SubAdd(r, nxt[2], cur[2]);
    SubAdd(r, cur[6], r.Mul(cur[3], cur[4]));
  }

  lemma RollupValues<T(!new)>(k: Field<T>, cur: seq<T>, nxt: seq<T>, row: nat)
    requires IsRing(k.ring) && |cur| == |nxt| == 4
    ensures
      var (r, c) := (k.ring, EvaluateConstraints(k, HashRollup, cur, nxt, row));
      && r.Add(r.Add(c[0], r.one), cur[0]) == nxt[0] && r.Add(c[1], r.Mul(cur[2], cur[2])) == cur[3]
      && r.Add(r.Add(c[2], cur[1]), cur[3]) == nxt[2]
  {
    var r := k.ring;
    SubAdd(r, r.Sub(nxt[0], cur[0]), r.one);
    SubAdd(r, nxt[0], cur[0]);
    SubAdd(r, cur[3], r.Mul(cur[2], cur[2]));
    SubAdd(r, r.Sub(nxt[2], cur[3]), cur[1]);
    SubAdd(r, nxt[2], cur[3]);
  }

  /** A term of the prediction for the next state, off the trace. */
  function RowTerm<T>(k: Field<T>, cur: seq<T>, j: nat, m: nat): T
    requires |cur| == 16 && m < 4
  {
    k.ring.Mul(InverseOr(k, NatElem(k.ring, j + m + 6)), k.ring.Mul(cur[12 + m], cur[8 + m]))
  }

  lemma RowMixStep<T(!new)>(k: Field<T>, cur: seq<T>, j: nat, m: nat)
    requires IsRing(k.ring) && |cur| == 16 && m < 4
    ensures
      var (r, pp) := (k.ring, StandardParams(k));
      SboxMixed(r, pp, cur, j, m + 1) == r.Add(SboxMixed(r, pp, cur, j, m), RowTerm(k, cur, j, m))
  {
    NatElemAdd(k.ring, j + 1, m + 5);
    assert (j + 1) + (m + 5) == j + m + 6;
    MixUnfolds(k.ring, StandardParams(k), cur, j, m);
  }

  lemma RowMix<T(!new)>(k: Field<T>, cur: seq<T>, j: nat)
    requires IsRing(k.ring) && |cur| == 16
    ensures
      var r := k.ring;
      MixedTo(r, StandardParams(k), cur, j, 4)
      == r.Add(r.Add(r.Add(RowTerm(k, cur, j, 0), RowTerm(k, cur, j, 1)), RowTerm(k, cur, j, 2)),
               RowTerm(k, cur, j, 3))
  {
    SameMix(k.ring, StandardParams(k), cur, j, 4);
    RowMixStep(k, cur, j, 0);
    RowMixStep(k, cur, j, 1);
    RowMixStep(k, cur, j, 2);
    RowMixStep(k, cur, j, 3);
    AddZero(k.ring, RowTerm(k, cur, j, 0));
  }

  /** Lane j: the state, then square, cube and fourth power of the keyed state. */
  lemma PoseidonValues<T(!new)>(k: Field<T>, cur: seq<T>, nxt: seq<T>, row: nat, j: nat)
    requires IsRing(k.ring) && |cur| == |nxt| == 16 && j < 4
    ensures
      var (r, c) := (k.ring, EvaluateConstraints(k, PoseidonChain, cur, nxt, row));
      var s := r.Add(cur[j], RoundConstant(r, row, j));
      && r.Add(c[j], r.Add(r.Add(r.Add(RowTerm(k, cur, j, 0), RowTerm(k, cur, j, 1)), RowTerm(k, cur, j, 2)),
                           RowTerm(k, cur, j, 3))) == nxt[j]
      && r.Add(c[4 + j], r.Mul(s, s)) == cur[4 + j] && r.Add(c[8 + j], r.Mul(cur[4 + j], s)) == cur[8 + j]
      && r.Add(c[12 + j], r.Mul(cur[4 + j], cur[4 + j])) == cur[12 + j]
  {
    var (r, pp) := (k.ring, StandardParams(k));
    var (c, s) := (PoseidonConstraints(r, pp, cur, nxt, row), r.Add(cur[j], RoundConstant(r, row, j)));
    RowMix(k, cur, j);
    assert c[j] == StateConstraint(r, pp, cur, nxt, j) && c[4 + j] == PowerConstraint(r, pp, cur, row, 0, j);
    assert c[8 + j] == PowerConstraint(r, pp, cur, row, 1, j) && c[12 + j] == PowerConstraint(r, pp, cur, row, 2, j);
    SubAdd(r, nxt[j], MixedTo(r, pp, cur, j, 4));
    SubAdd(r, cur[4 + j], r.Mul(s, s));
    SubAdd(r, cur[8 + j], r.Mul(cur[4 + j], s));
    SubAdd(r, cur[12 + j], r.Mul(cur[4 + j], cur[4 + j]));
  }

  // ---------- Cairo and the rollup: the builders' columns ----------

  /** Counter from 0, pointer from 100, constant 100, operands i + 1 and i + 2, their product twice, zero. */
  lemma CairoNumbers<T(!new)>(r: Ring<T>, i: nat)
    requires IsRing(r)
    ensures CairoRow(r, CAIRO_SIMPLE_INITIAL_PC, CAIRO_SIMPLE_INITIAL_AP, i)
         == [NatElem(r, i), NatElem(r, 100 + i), NatElem(r, 100), NatElem(r, i + 1), NatElem(r, i + 2),
             NatElem(r, (i + 1) * (i + 2)), NatElem(r, (i + 1) * (i + 2)), NatElem(r, 0)]
  {
    AddZero(r, NatElem(r, i));
    NatElemAdd(r, 100, i);
    NatElemMul(r, i + 1, i + 2);
  }

  /** The leaves as numbers, with zeros after the last. */
  function PaddedLeaf(leaves: seq<nat>, i: nat): nat { if i < |leaves| then leaves[i] else 0 }

  /** The state over the integers. */
  function RollupNumber(leaves: seq<nat>, i: nat): nat {
    if i == 0 then 0 else RollupNumber(leaves, i - 1) * RollupNumber(leaves, i - 1) + PaddedLeaf(leaves, i - 1)
  }

  lemma {:induction false} RollupStates<T(!new)>(r: Ring<T>, leaves: seq<nat>, i: nat)
    requires IsRing(r)
    ensures Absorb(r, LeafColumn(r, leaves), i) == NatElem(r, RollupNumber(leaves, i))
  {
    if i > 0 {
      var (before, x) := (RollupNumber(leaves, i - 1), PaddedLeaf(leaves, i - 1));
      RollupStates(r, leaves, i - 1);
      NatElemMul(r, before, before);
      NatElemAdd(r, before * before, x);
      assert LeafColumn(r, leaves)(i - 1) == NatElem(r, x);
    }
  }

  /** The rollup's row i: the counter, the leaf, and the state with its square, computed over the integers and
      reduced. */
  lemma RollupNumbers<T(!new)>(r: Ring<T>, leaves: seq<nat>, i: nat)
    requires IsRing(r)
    ensures
      var s := RollupNumber(leaves, i);
      RollupRow(r, LeafColumn(r, leaves), i)
      == [NatElem(r, i), NatElem(r, PaddedLeaf(leaves, i)), NatElem(r, s), NatElem(r, s * s)]
  {
    RollupStates(r, leaves, i);
    NatElemMul(r, RollupNumber(leaves, i), RollupNumber(leaves, i));
    assert LeafColumn(r, leaves)(i) == NatElem(r, PaddedLeaf(leaves, i));
  }
}
