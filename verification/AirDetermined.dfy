/** What the constraints of each AIR determine: for every workload exactly which tables satisfy them. */
module AirDetermined {
  import opened Rings
  import opened Air

  /** x - y - z = 0 means x = y + z. */
  lemma SubTwoIff<T(!new)>(r: Ring<T>, x: T, y: T, z: T)
    requires IsRing(r)
    ensures r.Sub(r.Sub(x, y), z) == r.zero <==> x == r.Add(y, z)
  {
    SubTwo(r, y, z);
    if r.Sub(r.Sub(x, y), z) == r.zero {
      SubTwoZero(r, x, y, z);
    }
  }

  // ---------- Fibonacci: the first column is free ----------

  /** What the second column has to be at row i: it starts at v and adds up the first. */
  function RunningSum<T>(r: Ring<T>, column: seq<T>, v: T, i: nat): T
    requires i <= |column|
  {
    if i == 0 then v else r.Add(column[i - 1], RunningSum(r, column, v, i - 1))
  }

  ghost predicate SumsTo<T>(r: Ring<T>, t: seq<seq<T>>, n: nat, i: nat)
    requires IsTable(t, 2, n) && i < n
  {
    t[1][i] == RunningSum(r, t[0], t[1][0], i)
  }

  lemma FibonacciRowIff<T(!new)>(k: Field<T>, t: seq<seq<T>>, n: nat, i: nat)
    requires IsRing(k.ring) && IsTable(t, 2, n) && i + 1 < n
    ensures RowHolds(k, Fibonacci, t, n, i) <==> t[1][i + 1] == k.ring.Add(t[0][i], t[1][i])
  {
    var c := FibonacciConstraints(k.ring, RowOf(t, 2, n, i), RowOf(t, 2, n, i + 1));
    SubTwoIff(k.ring, t[1][i + 1], t[0][i], t[1][i]);
    assert c == EvaluateConstraints(k, Fibonacci, RowOf(t, 2, n, i), RowOf(t, 2, n, i + 1), i);
    assert AllZero(k.ring.zero, c) <==> c[0] == k.ring.zero;
  }

  lemma {:induction false} SumsUpTo<T(!new)>(k: Field<T>, t: seq<seq<T>>, n: nat, i: nat)
    requires IsRing(k.ring) && Satisfies(k, Fibonacci, t, n) && i < n
    ensures SumsTo(k.ring, t, n, i)
  {
    if i > 0 {
      SumsUpTo(k, t, n, i - 1);
      assert RowHolds(k, Fibonacci, t, n, i - 1);
      FibonacciRowIff(k, t, n, i - 1);
    }
  }

  /** The single constraint holds exactly of the tables whose second column adds up the first. */
  lemma FibonacciIff<T(!new)>(k: Field<T>, t: seq<seq<T>>, n: nat)
    requires IsRing(k.ring) && IsTable(t, 2, n)
    ensures Satisfies(k, Fibonacci, t, n) <==> forall i :: 0 <= i < n ==> SumsTo(k.ring, t, n, i)
  {
    if Satisfies(k, Fibonacci, t, n) {
      forall i | 0 <= i < n
        ensures SumsTo(k.ring, t, n, i)
      {
        SumsUpTo(k, t, n, i);
      }
    }
    if forall i :: 0 <= i < n ==> SumsTo(k.ring, t, n, i) {
      forall i | 0 <= i < n - 1
        ensures RowHolds(k, Fibonacci, t, n, i)
      {
        assert SumsTo(k.ring, t, n, i) && SumsTo(k.ring, t, n, i + 1);
        FibonacciRowIff(k, t, n, i);
      }
    }
  }

  /** Any first column with any start of the second extends to a satisfying table. */
  lemma FibonacciFree<T(!new)>(k: Field<T>, column: seq<T>, v: T) returns (t: seq<seq<T>>)
    requires IsRing(k.ring) && column != []
    ensures IsTable(t, 2, |column|) && t[0] == column && t[1][0] == v && Satisfies(k, Fibonacci, t, |column|)
  {
    var n := |column|;
    var sums := seq(n, i requires 0 <= i < n => RunningSum(k.ring, column, v, i));
    t := [column, sums];
    forall i | 0 <= i < n
      ensures SumsTo(k.ring, t, n, i)
    {
      assert t[1][i] == sums[i];
    }
    FibonacciIff(k, t, n);
  }

  ghost predicate IsFibonacciTrace<T>(r: Ring<T>, t: seq<seq<T>>, n: nat) {
    IsTable(t, 2, n) && forall i :: 0 <= i < n ==> RowOf(t, 2, n, i) == FibonacciRow(r, i)
  }

  /** The unconstrained transition: the first column repeats the second one row later. */
  ghost predicate Shifts<T>(t: seq<seq<T>>, n: nat)
    requires IsTable(t, 2, n)
  {
    forall i :: 0 <= i < n - 1 ==> t[0][i + 1] == t[1][i]
  }

  lemma {:induction false} ShiftedRow<T(!new)>(k: Field<T>, t: seq<seq<T>>, n: nat, i: nat)
    requires IsRing(k.ring) && Satisfies(k, Fibonacci, t, n) && i < n
    requires t[0][0] == t[1][0] == k.ring.one && Shifts(t, n)
    ensures RowOf(t, 2, n, i) == FibonacciRow(k.ring, i)
  {
    if i > 0 {
      ShiftedRow(k, t, n, i - 1);
      assert RowHolds(k, Fibonacci, t, n, i - 1);
      FibonacciRowIff(k, t, n, i - 1);
      assert RowOf(t, 2, n, i - 1) == [t[0][i - 1], t[1][i - 1]];
    }
    assert RowOf(t, 2, n, i) == [t[0][i], t[1][i]];
  }

  /** A satisfying table that starts at 1, 1 is the builder's exactly when it meets the transition nothing
      constrains. */
  lemma FibonacciDetermined<T(!new)>(k: Field<T>, t: seq<seq<T>>, n: nat)
    requires IsRing(k.ring) && Satisfies(k, Fibonacci, t, n) && n > 0 && t[0][0] == t[1][0] == k.ring.one
    ensures IsFibonacciTrace(k.ring, t, n) <==> Shifts(t, n)
  {
    if Shifts(t, n) {
      forall i | 0 <= i < n
        ensures RowOf(t, 2, n, i) == FibonacciRow(k.ring, i)
      {
        ShiftedRow(k, t, n, i);
      }
    }
    if IsFibonacciTrace(k.ring, t, n) {
      forall i | 0 <= i < n - 1
        ensures t[0][i + 1] == t[1][i]
      {
        assert RowOf(t, 2, n, i) == FibonacciRow(k.ring, i) && RowOf(t, 2, n, i + 1) == FibonacciRow(k.ring, i + 1);
        assert RowOf(t, 2, n, i)[1] == t[1][i] && RowOf(t, 2, n, i + 1)[0] == t[0][i + 1];
      }
    }
  }

  // ---------- the register machine: nothing is free ----------

  lemma RegisterRowIff<T(!new)>(r: Ring<T>, cur: seq<T>, nxt: seq<T>)
    requires IsRing(r) && |cur| == |nxt| == 8
    ensures AllZero(r.zero, RegisterConstraints(r, cur, nxt)) <==> nxt == NextRegisters(r, cur)
  {
    var c, q := RegisterConstraints(r, cur, nxt), NextRegisters(r, cur);
    forall j | 0 <= j < 8
      ensures c[j] == r.zero <==> nxt[j] == q[j]
    {
      assert c[j] == r.Sub(nxt[j], q[j]);
      SubSelf(r, nxt[j], q[j]);
    }
    if AllZero(r.zero, c) {
      assert forall j :: 0 <= j < 8 ==> c[j] == r.zero;
    }
  }

  ghost predicate IsRegisterTrace<T>(r: Ring<T>, t: seq<seq<T>>, n: nat) {
    IsTable(t, 8, n) && forall i :: 0 <= i < n ==> RowOf(t, 8, n, i) == RegisterRow(r, i)
  }

  lemma {:induction false} RegisterRowFixed<T(!new)>(k: Field<T>, t: seq<seq<T>>, n: nat, i: nat)
    requires IsRing(k.ring) && Satisfies(k, RegisterMachine, t, n) && i < n
    requires RowOf(t, 8, n, 0) == RegisterRow(k.ring, 0)
    ensures RowOf(t, 8, n, i) == RegisterRow(k.ring, i)
  {
    if i > 0 {
      RegisterRowFixed(k, t, n, i - 1);
      assert RowHolds(k, RegisterMachine, t, n, i - 1);
      RegisterRowIff(k.ring, RowOf(t, 8, n, i - 1), RowOf(t, 8, n, i));
    }
  }

  /** The constraints and the first row together hold exactly of the builder's table. */
  lemma RegisterIff<T(!new)>(k: Field<T>, t: seq<seq<T>>, n: nat)
    requires IsRing(k.ring) && IsTable(t, 8, n) && n > 0
    ensures
      Satisfies(k, RegisterMachine, t, n) && RowOf(t, 8, n, 0) == RegisterRow(k.ring, 0)
      <==> IsRegisterTrace(k.ring, t, n)
  {
    if Satisfies(k, RegisterMachine, t, n) && RowOf(t, 8, n, 0) == RegisterRow(k.ring, 0) {
      forall i | 0 <= i < n
        ensures RowOf(t, 8, n, i) == RegisterRow(k.ring, i)
      {
        RegisterRowFixed(k, t, n, i);
      }
    }
    if IsRegisterTrace(k.ring, t, n) {
      ghost var spec := (i: nat) => RegisterRow(k.ring, i);
      assert forall i :: RegisterStep(k.ring, spec, i);
      RegisterSatisfies(k, t, n, spec);
    }
  }

  // ---------- the Poseidon chain: the last row's auxiliary columns are free ----------

  ghost predicate LanePowers<T>(r: Ring<T>, pp: PoseidonParams<T>, cur: seq<T>, row: nat, j: nat)
    requires |cur| == 16 && j < 4
  {
    forall group :: 0 <= group < 3 ==> PowerConstraint(r, pp, cur, row, group, j) == r.zero
  }

  /** The power columns of one lane as its state determines them. */
  ghost predicate LaneAuxiliary<T>(r: Ring<T>, pp: PoseidonParams<T>, cur: seq<T>, row: nat, j: nat)
    requires |cur| == 16 && j < 4
  {
    forall group :: 0 <= group < 3 ==> cur[4 + 4 * group + j] == PowerColumn(r, pp, cur[..4], row, group, j)
  }

  lemma PowerIff<T(!new)>(r: Ring<T>, pp: PoseidonParams<T>, cur: seq<T>, row: nat, j: nat)
    requires IsRing(r) && |cur| == 16 && j < 4
    ensures LanePowers(r, pp, cur, row, j) <==> LaneAuxiliary(r, pp, cur, row, j)
  {
    var s := r.Add(cur[j], pp.constant(row, j));
    SubSelf(r, cur[4 + j], r.Mul(s, s));
    SubSelf(r, cur[8 + j], r.Mul(cur[4 + j], s));
    SubSelf(r, cur[12 + j], r.Mul(cur[4 + j], cur[4 + j]));
    assert cur[4 + 4 * 0 + j] == cur[4 + j] && cur[4 + 4 * 1 + j] == cur[8 + j] && cur[4 + 4 * 2 + j] == cur[12 + j];
    assert cur[..4][j] == cur[j];
    if LanePowers(r, pp, cur, row, j) {
      assert PowerConstraint(r, pp, cur, row, 0, j) == r.zero && PowerConstraint(r, pp, cur, row, 1, j) == r.zero
             && PowerConstraint(r, pp, cur, row, 2, j) == r.zero;
    }
    if LaneAuxiliary(r, pp, cur, row, j) {
      assert cur[4 + 4 * 0 + j] == PowerColumn(r, pp, cur[..4], row, 0, j);
      assert cur[4 + 4 * 1 + j] == PowerColumn(r, pp, cur[..4], row, 1, j);
      assert cur[4 + 4 * 2 + j] == PowerColumn(r, pp, cur[..4], row, 2, j);
    }
  }

  /** One row's auxiliary columns as its state determines them. */
  ghost predicate AuxiliaryIs<T>(r: Ring<T>, pp: PoseidonParams<T>, cur: seq<T>, row: nat)
    requires |cur| == 16
  {
    cur == PoseidonColumns(r, pp, cur[..4], row)
  }

  ghost predicate NextStateIs<T>(r: Ring<T>, pp: PoseidonParams<T>, cur: seq<T>, nxt: seq<T>)
    requires |cur| == |nxt| == 16
  {
    forall j :: 0 <= j < 4 ==> nxt[j] == SboxMixed(r, pp, cur, j, 4)
  }

  lemma AuxiliaryByLane<T>(r: Ring<T>, pp: PoseidonParams<T>, cur: seq<T>, row: nat)
    requires |cur| == 16
    ensures AuxiliaryIs(r, pp, cur, row) <==> forall j :: 0 <= j < 4 ==> LaneAuxiliary(r, pp, cur, row, j)
  {
    var c := PoseidonColumns(r, pp, cur[..4], row);
    if forall j :: 0 <= j < 4 ==> LaneAuxiliary(r, pp, cur, row, j) {
      forall i | 0 <= i < 16
        ensures cur[i] == c[i]
      {
        if i >= 4 {
          var group, j := (i - 4) / 4, (i - 4) % 4;
          assert LaneAuxiliary(r, pp, cur, row, j) && i == 4 + 4 * group + j;
          assert c[i] == PowerColumn(r, pp, cur[..4], row, group, j);
        }
      }
    }
    if AuxiliaryIs(r, pp, cur, row) {
      forall j, group | 0 <= j < 4 && 0 <= group < 3
        ensures cur[4 + 4 * group + j] == PowerColumn(r, pp, cur[..4], row, group, j)
      {
        assert c[4 + 4 * group + j] == PowerColumn(r, pp, cur[..4], row, group, j);
      }
    }
  }

  lemma StateIff<T(!new)>(r: Ring<T>, pp: PoseidonParams<T>, cur: seq<T>, nxt: seq<T>, j: nat)
    requires IsRing(r) && |cur| == |nxt| == 16 && j < 4
    ensures StateConstraint(r, pp, cur, nxt, j) == r.zero <==> nxt[j] == SboxMixed(r, pp, cur, j, 4)
  {
    SameMix(r, pp, cur, j, 4);
    SubSelf(r, nxt[j], MixedTo(r, pp, cur, j, 4));
  }

  /** The sixteen constraint values, four by four. */
  lemma PoseidonZeroIff<T>(r: Ring<T>, pp: PoseidonParams<T>, cur: seq<T>, nxt: seq<T>, row: nat)
    requires |cur| == |nxt| == 16
    ensures
      AllZero(r.zero, PoseidonConstraints(r, pp, cur, nxt, row)) <==>
      && (forall j :: 0 <= j < 4 ==> StateConstraint(r, pp, cur, nxt, j) == r.zero)
      && (forall j :: 0 <= j < 4 ==> LanePowers(r, pp, cur, row, j))
  {
    var c := PoseidonConstraints(r, pp, cur, nxt, row);
    assert forall j :: 0 <= j < 4 ==> c[j] == StateConstraint(r, pp, cur, nxt, j);
    assert forall j :: 0 <= j < 4 ==> c[4 + j] == PowerConstraint(r, pp, cur, row, 0, j);
    assert forall j :: 0 <= j < 4 ==> c[8 + j] == PowerConstraint(r, pp, cur, row, 1, j);
    assert forall j :: 0 <= j < 4 ==> c[12 + j] == PowerConstraint(r, pp, cur, row, 2, j);
    if AllZero(r.zero, c) {
      forall j, group | 0 <= j < 4 && 0 <= group < 3
        ensures PowerConstraint(r, pp, cur, row, group, j) == r.zero
      {
        assert c[4 + 4 * group + j] == r.zero;
      }
    } else {
      var i :| 0 <= i < 16 && c[i] != r.zero;
      if i >= 4 {
        assert PowerConstraint(r, pp, cur, row, (i - 4) / 4, (i - 4) % 4) != r.zero;
        assert !LanePowers(r, pp, cur, row, (i - 4) % 4);
      }
    }
  }

  lemma PoseidonRowIff<T(!new)>(r: Ring<T>, pp: PoseidonParams<T>, cur: seq<T>, nxt: seq<T>, row: nat)
    requires IsRing(r) && |cur| == |nxt| == 16
    ensures AllZero(r.zero, PoseidonConstraints(r, pp, cur, nxt, row))
       <==> AuxiliaryIs(r, pp, cur, row) && NextStateIs(r, pp, cur, nxt)
  {
    PoseidonZeroIff(r, pp, cur, nxt, row);
    AuxiliaryByLane(r, pp, cur, row);
    forall j | 0 <= j < 4
      ensures StateConstraint(r, pp, cur, nxt, j) == r.zero <==> nxt[j] == SboxMixed(r, pp, cur, j, 4)
      ensures LanePowers(r, pp, cur, row, j) <==> LaneAuxiliary(r, pp, cur, row, j)
    {
      StateIff(r, pp, cur, nxt, j);
      PowerIff(r, pp, cur, row, j);
    }
  }

  /** Row i of the builder's table, or on the last row just its state. */
  ghost predicate PoseidonRowIs<T>(r: Ring<T>, pp: PoseidonParams<T>, t: seq<seq<T>>, n: nat, i: nat)
    requires IsTable(t, 16, n) && i < n
  {
    var row := RowOf(t, 16, n, i);
    row[..4] == PoseidonState(r, pp, i) && (i + 1 < n ==> AuxiliaryIs(r, pp, row, i))
  }

  /** The constraints between two rows of a table. */
  lemma PoseidonRowGives<T(!new)>(k: Field<T>, pp: PoseidonParams<T>, t: seq<seq<T>>, n: nat, i: nat, next: nat)
    requires IsRing(k.ring) && Satisfies(k, PoseidonChain, t, n) && i + 1 == next < n && pp == StandardParams(k)
    ensures AuxiliaryIs(k.ring, pp, RowOf(t, 16, n, i), i)
    ensures NextStateIs(k.ring, pp, RowOf(t, 16, n, i), RowOf(t, 16, n, next))
  {
    var cur, nxt := RowOf(t, 16, n, i), RowOf(t, 16, n, next);
    assert AllZero(k.ring.zero, PoseidonConstraints(k.ring, pp, cur, nxt, i)) by {
      PoseidonRowHolds(k, pp, t, n, i, next);
    }
    PoseidonRowIff(k.ring, pp, cur, nxt, i);
  }

  lemma PoseidonRowHolds<T(!new)>(k: Field<T>, pp: PoseidonParams<T>, t: seq<seq<T>>, n: nat, i: nat, next: nat)
    requires Satisfies(k, PoseidonChain, t, n) && i + 1 == next < n && pp == StandardParams(k)
    ensures AllZero(k.ring.zero, PoseidonConstraints(k.ring, pp, RowOf(t, 16, n, i), RowOf(t, 16, n, next), i))
  {
    assert RowHolds(k, PoseidonChain, t, n, i);
  }

  lemma StateAfter<T>(r: Ring<T>, pp: PoseidonParams<T>, cur: seq<T>, nxt: seq<T>, i: nat, next: nat)
    requires |cur| == |nxt| == 16 && i + 1 == next && AuxiliaryIs(r, pp, cur, i) && NextStateIs(r, pp, cur, nxt)
    requires cur[..4] == PoseidonState(r, pp, i)
    ensures nxt[..4] == PoseidonState(r, pp, next)
  {
  }

  lemma {:induction false} PoseidonStates<T(!new)>(k: Field<T>, pp: PoseidonParams<T>, t: seq<seq<T>>, n: nat, i: nat)
    requires IsRing(k.ring) && Satisfies(k, PoseidonChain, t, n) && i < n && pp == StandardParams(k)
    requires RowOf(t, 16, n, 0)[..4] == PoseidonState(k.ring, pp, 0)
    ensures RowOf(t, 16, n, i)[..4] == PoseidonState(k.ring, pp, i)
  {
    if i > 0 {
      var last := i - 1;
      PoseidonStates(k, pp, t, n, last);
      PoseidonRowGives(k, pp, t, n, last, i);
      StateAfter(k.ring, pp, RowOf(t, 16, n, last), RowOf(t, 16, n, i), last, i);
    }
  }

  /** The constraints and the first state hold exactly of the tables with the builder's states everywhere and its
      powers on every row but the last, whose twelve power columns nothing constrains. */
  lemma PoseidonIff<T(!new)>(k: Field<T>, t: seq<seq<T>>, n: nat)
    requires IsRing(k.ring) && IsTable(t, 16, n) && n > 0
    ensures
      Satisfies(k, PoseidonChain, t, n)
      && RowOf(t, 16, n, 0)[..4] == PoseidonState(k.ring, StandardParams(k), 0)
      <==> forall i :: 0 <= i < n ==> PoseidonRowIs(k.ring, StandardParams(k), t, n, i)
  {
    var r, pp := k.ring, StandardParams(k);
    if Satisfies(k, PoseidonChain, t, n) && RowOf(t, 16, n, 0)[..4] == PoseidonState(r, pp, 0) {
      forall i | 0 <= i < n
        ensures PoseidonRowIs(r, pp, t, n, i)
      {
        PoseidonStates(k, pp, t, n, i);
        if i + 1 < n {
          PoseidonRowGives(k, pp, t, n, i, i + 1);
        }
      }
    }
    if forall i :: 0 <= i < n ==> PoseidonRowIs(r, pp, t, n, i) {
      assert PoseidonRowIs(r, pp, t, n, 0);
      forall i | 0 <= i < n - 1
        ensures RowHolds(k, PoseidonChain, t, n, i)
      {
        assert PoseidonRowIs(r, pp, t, n, i) && PoseidonRowIs(r, pp, t, n, i + 1);
        NextFromState(r, pp, RowOf(t, 16, n, i), RowOf(t, 16, n, i + 1), i);
        PoseidonRowIff(r, pp, RowOf(t, 16, n, i), RowOf(t, 16, n, i + 1), i);
      }
    }
  }

  lemma NextFromState<T>(r: Ring<T>, pp: PoseidonParams<T>, cur: seq<T>, nxt: seq<T>, i: nat)
    requires |cur| == |nxt| == 16 && AuxiliaryIs(r, pp, cur, i)
    requires cur[..4] == PoseidonState(r, pp, i) && nxt[..4] == PoseidonState(r, pp, i + 1)
    ensures NextStateIs(r, pp, cur, nxt)
  {
    forall j | 0 <= j < 4
      ensures nxt[j] == SboxMixed(r, pp, cur, j, 4)
    {
      assert nxt[j] == nxt[..4][j];
    }
  }

  // ---------- the simplified Cairo machine: operands and two columns are free ----------

  /** The counters and the frame pointer. */
  ghost predicate Counts<T>(r: Ring<T>, t: seq<seq<T>>, n: nat, i: nat)
    requires IsTable(t, 8, n) && i < n
  {
    t[0][i] == r.Add(t[0][0], FromInt(r, i)) && t[1][i] == r.Add(t[1][0], FromInt(r, i)) && t[2][i] == t[2][0]
  }

  ghost predicate CairoRowIs<T>(r: Ring<T>, t: seq<seq<T>>, n: nat, i: nat)
    requires IsTable(t, 8, n) && i < n
  {
    Counts(r, t, n, i) && (i + 1 < n ==> t[6][i] == r.Mul(t[3][i], t[4][i]))
  }

  lemma CairoZeroIff<T(!new)>(r: Ring<T>, cur: seq<T>, nxt: seq<T>)
    requires IsRing(r) && |cur| == |nxt| == 8
    ensures
      AllZero(r.zero, CairoConstraints(r, cur, nxt)) <==>
      && nxt[0] == r.Add(cur[0], r.one) && nxt[1] == r.Add(cur[1], r.one) && nxt[2] == cur[2]
      && cur[6] == r.Mul(cur[3], cur[4])
  {
    var c := CairoConstraints(r, cur, nxt);
    SubTwoIff(r, nxt[0], cur[0], r.one);
    SubTwoIff(r, nxt[1], cur[1], r.one);
    SubSelf(r, nxt[2], cur[2]);
    SubSelf(r, cur[6], r.Mul(cur[3], cur[4]));
    assert AllZero(r.zero, c) <==> c[0] == r.zero && c[1] == r.zero && c[2] == r.zero && c[3] == r.zero;
  }

  /** x + (i + 1) = (x + i) + 1 */
  lemma CountOn<T(!new)>(r: Ring<T>, x: T, i: nat)
    requires IsRing(r)
    ensures r.Add(x, FromInt(r, i + 1)) == r.Add(r.Add(x, FromInt(r, i)), r.one)
  {
    AddCommutes(r, r.one, FromInt(r, i));
    AddAssociates(r, x, FromInt(r, i), r.one);
  }

  lemma CairoRowIff<T(!new)>(k: Field<T>, t: seq<seq<T>>, n: nat, i: nat, next: nat)
    requires IsRing(k.ring) && IsTable(t, 8, n) && i + 1 == next < n
    ensures
      RowHolds(k, CairoSimple, t, n, i) <==>
      && t[0][next] == k.ring.Add(t[0][i], k.ring.one) && t[1][next] == k.ring.Add(t[1][i], k.ring.one)
      && t[2][next] == t[2][i] && t[6][i] == k.ring.Mul(t[3][i], t[4][i])
  {
    CairoZeroIff(k.ring, RowOf(t, 8, n, i), RowOf(t, 8, n, next));
  }

  lemma {:induction false} CountsUpTo<T(!new)>(k: Field<T>, t: seq<seq<T>>, n: nat, i: nat)
    requires IsRing(k.ring) && Satisfies(k, CairoSimple, t, n) && i < n
    ensures Counts(k.ring, t, n, i)
  {
    if i == 0 {
      AddZero(k.ring, t[0][0]);
      AddZero(k.ring, t[1][0]);
    } else {
      var last := i - 1;
      CountsUpTo(k, t, n, last);
      assert RowHolds(k, CairoSimple, t, n, last);
      CairoRowIff(k, t, n, last, i);
      CountOn(k.ring, t[0][0], last);
      CountOn(k.ring, t[1][0], last);
    }
  }

  /** The constraints hold exactly of the tables that count up two registers, keep a third, and on every row but the
      last multiply the operands; the operands and the two remaining columns are free. */
  lemma CairoIff<T(!new)>(k: Field<T>, t: seq<seq<T>>, n: nat)
    requires IsRing(k.ring) && IsTable(t, 8, n)
    ensures Satisfies(k, CairoSimple, t, n) <==> forall i :: 0 <= i < n ==> CairoRowIs(k.ring, t, n, i)
  {
    if Satisfies(k, CairoSimple, t, n) {
      forall i | 0 <= i < n
        ensures CairoRowIs(k.ring, t, n, i)
      {
        CountsUpTo(k, t, n, i);
        if i + 1 < n {
          assert RowHolds(k, CairoSimple, t, n, i);
          CairoRowIff(k, t, n, i, i + 1);
        }
      }
    }
    if forall i :: 0 <= i < n ==> CairoRowIs(k.ring, t, n, i) {
      forall i | 0 <= i < n - 1
        ensures RowHolds(k, CairoSimple, t, n, i)
      {
        assert CairoRowIs(k.ring, t, n, i) && CairoRowIs(k.ring, t, n, i + 1);
        CountOn(k.ring, t[0][0], i);
        CountOn(k.ring, t[1][0], i);
        CairoRowIff(k, t, n, i, i + 1);
      }
    }
  }

  // ---------- the hash rollup: the leaf column is free ----------

  /** A column as a function of the row. */
  ghost function ColumnOf<T>(r: Ring<T>, column: seq<T>): nat -> T {
    (i: nat) => if i < |column| then column[i] else r.zero
  }

  ghost predicate RollupRowIs<T>(r: Ring<T>, t: seq<seq<T>>, n: nat, i: nat)
    requires IsTable(t, 4, n) && i < n
  {
    && t[0][i] == FromInt(r, i) && t[2][i] == Absorb(r, ColumnOf(r, t[1]), i)
    && (i + 1 < n ==> t[3][i] == r.Mul(t[2][i], t[2][i]))
  }

  lemma RollupZeroIff<T(!new)>(r: Ring<T>, cur: seq<T>, nxt: seq<T>)
    requires IsRing(r) && |cur| == |nxt| == 4
    ensures
      AllZero(r.zero, RollupConstraints(r, cur, nxt)) <==>
      && nxt[0] == r.Add(cur[0], r.one) && cur[3] == r.Mul(cur[2], cur[2]) && nxt[2] == r.Add(cur[3], cur[1])
  {
    var c := RollupConstraints(r, cur, nxt);
    SubTwoIff(r, nxt[0], cur[0], r.one);
    SubSelf(r, cur[3], r.Mul(cur[2], cur[2]));
    SubTwoIff(r, nxt[2], cur[3], cur[1]);
    assert AllZero(r.zero, c) <==> c[0] == r.zero && c[1] == r.zero && c[2] == r.zero;
  }

  /** The constraints with zero starts hold exactly of the tables with the builder's counter and the states its leaf
      column leads to, squared on every row but the last; the leaf column is free. */
  lemma RollupIff<T(!new)>(k: Field<T>, t: seq<seq<T>>, n: nat)
    requires IsRing(k.ring) && IsTable(t, 4, n) && n > 0
    ensures
      Satisfies(k, HashRollup, t, n) && t[0][0] == k.ring.zero && t[2][0] == k.ring.zero
      <==> forall i :: 0 <= i < n ==> RollupRowIs(k.ring, t, n, i)
  {
    var r, leaf := k.ring, ColumnOf(k.ring, t[1]);
    if Satisfies(k, HashRollup, t, n) && t[0][0] == r.zero && t[2][0] == r.zero {
      forall i | 0 <= i < n
        ensures RollupRowIs(r, t, n, i)
      {
        RollupDetermined(k, t, n, leaf, i);
        if i + 1 < n {
          assert RowHolds(k, HashRollup, t, n, i);
          RollupZeroIff(r, RowOf(t, 4, n, i), RowOf(t, 4, n, i + 1));
        }
      }
    }
    if forall i :: 0 <= i < n ==> RollupRowIs(r, t, n, i) {
      assert RollupRowIs(r, t, n, 0);
      forall i | 0 <= i < n - 1
        ensures RowHolds(k, HashRollup, t, n, i)
      {
        assert RollupRowIs(r, t, n, i) && RollupRowIs(r, t, n, i + 1);
        AddCommutes(r, r.one, FromInt(r, i));
        assert leaf(i) == t[1][i];
        RollupZeroIff(r, RowOf(t, 4, n, i), RowOf(t, 4, n, i + 1));
      }
    }
  }
}
