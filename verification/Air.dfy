/** The five AIR workloads: trace builders, constraint evaluators, and why they match. */
module Air {
  import opened Rings
  import opened FriLayers

  datatype AirType = Fibonacci | PoseidonChain | RegisterMachine | CairoSimple | HashRollup {
    function Width(): nat {
      match this
      case Fibonacci => 2
      case PoseidonChain => 16
      case RegisterMachine => 8
      case CairoSimple => 8
      case HashRollup => 4
    }

    function NumConstraints(): nat {
      match this
      case Fibonacci => 1
      case PoseidonChain => 16
      case RegisterMachine => 8
      case CairoSimple => 4
      case HashRollup => 3
    }
  }

  /** A table is its columns. */
  predicate IsTable<T>(t: seq<seq<T>>, w: nat, n: nat) {
    |t| == w && forall j :: 0 <= j < w ==> |t[j]| == n
  }

  function RowOf<T>(t: seq<seq<T>>, w: nat, n: nat, i: nat): (row: seq<T>)
    requires IsTable(t, w, n) && i < n
    ensures |row| == w
  {
    seq(w, j requires 0 <= j < w => t[j][i])
  }

  /** `F::from` on an unsigned integer. */
  function FromInt<T>(r: Ring<T>, x: nat): T { NatElem(r, x) }

  // ---------- constraint evaluators ----------

  function FibonacciConstraints<T>(r: Ring<T>, cur: seq<T>, nxt: seq<T>): seq<T>
    requires |cur| == |nxt| == 2
  {
    [r.Sub(r.Sub(nxt[1], cur[0]), cur[1])]
  }

  function RegisterConstraints<T>(r: Ring<T>, cur: seq<T>, nxt: seq<T>): seq<T>
    requires |cur| == |nxt| == 8
  {
    var c := cur;
    [r.Sub(nxt[0], r.Add(r.Mul(c[0], c[1]), c[2])),
     r.Sub(nxt[1], r.Add(r.Mul(c[1], c[2]), c[3])),
     r.Sub(nxt[2], r.Add(r.Mul(c[2], c[3]), c[4])),
     r.Sub(nxt[3], r.Add(r.Mul(c[3], c[4]), c[5])),
     r.Sub(nxt[4], r.Add(r.Mul(c[4], c[5]), c[6])),
     r.Sub(nxt[5], r.Add(r.Mul(c[5], c[6]), c[7])),
     r.Sub(nxt[6], r.Add(r.Mul(c[6], c[7]), c[0])),
     r.Sub(nxt[7], r.Add(r.Add(r.Add(r.Mul(c[0], c[4]), r.Mul(c[1], c[5])), r.Mul(c[2], c[6])), r.Mul(c[3], c[7])))]
  }

  function CairoConstraints<T>(r: Ring<T>, cur: seq<T>, nxt: seq<T>): seq<T>
    requires |cur| == |nxt| == 8
  {
    [r.Sub(r.Sub(nxt[0], cur[0]), r.one),
     r.Sub(r.Sub(nxt[1], cur[1]), r.one),
     r.Sub(nxt[2], cur[2]),
     r.Sub(cur[6], r.Mul(cur[3], cur[4]))]
  }

  function RollupConstraints<T>(r: Ring<T>, cur: seq<T>, nxt: seq<T>): seq<T>
    requires |cur| == |nxt| == 4
  {
    [r.Sub(r.Sub(nxt[0], cur[0]), r.one),
     r.Sub(cur[3], r.Mul(cur[2], cur[2])),
     r.Sub(r.Sub(nxt[2], cur[3]), cur[1])]
  }

  const U64: nat := 0x1_0000_0000_0000_0000

  /** Wrapping 64-bit arithmetic, then `F::from`. */
  function RoundConstant<T>(r: Ring<T>, row: nat, col: nat): T {
    FromInt(r, ((row * 0x9E37_79B9_7F4A_7C15 % U64 + col) % U64) * 0x6C62_272E_07BB_0142 % U64)
  }

  /** The Cauchy matrix 1 / (x_i + y_j) with x_i = i + 1, y_j = j + 5. */
  function Mds<T>(k: Field<T>, i: nat, j: nat): T {
    InverseOr(k, k.ring.Add(FromInt(k.ring, i + 1), FromInt(k.ring, j + 5)))
  }

  /** What a Poseidon round reads: `constant` by row and lane, `mds` by row and column. */
  datatype PoseidonParams<!T> = PoseidonParams(constant: (nat, nat) -> T, mds: (nat, nat) -> T)

  function StandardParams<T>(k: Field<T>): PoseidonParams<T> {
    PoseidonParams((row: nat, col: nat) => RoundConstant(k.ring, row, col), (i: nat, j: nat) => Mds(k, i, j))
  }

  /** The first m terms of row j of the matrix against the seventh powers fo cu. */
  function MixedTo<T>(r: Ring<T>, pp: PoseidonParams<T>, row: seq<T>, j: nat, m: nat): T
    requires |row| == 16 && m <= 4
  {
    if m == 0 then r.zero
    else r.Add(MixedTo(r, pp, row, j, m - 1), r.Mul(r.Mul(pp.mds(j, m - 1), row[11 + m]), row[7 + m]))
  }

  function StateConstraint<T>(r: Ring<T>, pp: PoseidonParams<T>, cur: seq<T>, nxt: seq<T>, j: nat): T
    requires |cur| == |nxt| == 16 && j < 4
  {
    r.Sub(nxt[j], MixedTo(r, pp, cur, j, 4))
  }

  /** The constraints on the square, cube and fourth-power columns of lane j; `group` counts them. */
  function PowerConstraint<T>(r: Ring<T>, pp: PoseidonParams<T>, cur: seq<T>, row: nat, group: nat, j: nat): T
    requires |cur| == 16 && group < 3 && j < 4
  {
    var s := r.Add(cur[j], pp.constant(row, j));
    if group == 0 then r.Sub(cur[4 + j], r.Mul(s, s))
    else if group == 1 then r.Sub(cur[8 + j], r.Mul(cur[4 + j], s))
    else r.Sub(cur[12 + j], r.Mul(cur[4 + j], cur[4 + j]))
  }

  function PoseidonConstraints<T>(r: Ring<T>, pp: PoseidonParams<T>, cur: seq<T>, nxt: seq<T>, row: nat): (c: seq<T>)
    requires |cur| == |nxt| == 16
    ensures |c| == 16
  {
    seq(4, j requires 0 <= j < 4 => StateConstraint(r, pp, cur, nxt, j)) + PowerConstraints(r, pp, cur, row)
  }

  /** `eval_poseidon_constraints` */
  method EvalPoseidonConstraints<T>(r: Ring<T>, pp: PoseidonParams<T>, cur: seq<T>, nxt: seq<T>, row: nat)
    returns (c: seq<T>)
    requires |cur| == |nxt| == 16
    ensures c == PoseidonConstraints(r, pp, cur, nxt, row)
  {
    var out := new T[16](_ => r.zero);
    FillPowerConstraints(r, pp, cur, row, out, PowerConstraints(r, pp, cur, row));
    ghost var powers := out[4..];
    for j := 0 to 4
      invariant out[4..] == powers
      invariant forall m :: 0 <= m < j ==> out[m] == StateConstraint(r, pp, cur, nxt, m)
    {
      var expected := MixRow(r, pp, cur, j);
      out[j] := r.Sub(nxt[j], expected);
    }
    c := out[..];
    assert out[..4] == seq(4, j requires 0 <= j < 4 => StateConstraint(r, pp, cur, nxt, j));
    assert c == out[..4] + out[4..];
  }

  function PowerConstraints<T>(r: Ring<T>, pp: PoseidonParams<T>, cur: seq<T>, row: nat): (c: seq<T>)
    requires |cur| == 16
    ensures |c| == 12
  {
    seq(4, j requires 0 <= j < 4 => PowerConstraint(r, pp, cur, row, 0, j))
    + seq(4, j requires 0 <= j < 4 => PowerConstraint(r, pp, cur, row, 1, j))
    + seq(4, j requires 0 <= j < 4 => PowerConstraint(r, pp, cur, row, 2, j))
  }

  method LaneConstraints<T>(r: Ring<T>, pp: PoseidonParams<T>, cur: seq<T>, row: nat, j: nat)
    returns (square: T, cube: T, fourth: T)
    requires |cur| == 16 && j < 4
    ensures square == PowerConstraint(r, pp, cur, row, 0, j)
    ensures cube == PowerConstraint(r, pp, cur, row, 1, j)
    ensures fourth == PowerConstraint(r, pp, cur, row, 2, j)
  {
    var s := r.Add(cur[j], pp.constant(row, j));
    var sq, cu, fo := cur[4 + j], cur[8 + j], cur[12 + j];
    square, cube, fourth := r.Sub(sq, r.Mul(s, s)), r.Sub(cu, r.Mul(sq, s)), r.Sub(fo, r.Mul(sq, sq));
  }

  /** The three entries lane j is due. */
  ghost predicate LaneIs<T>(r: Ring<T>, pp: PoseidonParams<T>, cur: seq<T>, row: nat, want: seq<T>, j: nat)
    requires |cur| == 16 && |want| == 12 && j < 4
  {
    && want[j] == PowerConstraint(r, pp, cur, row, 0, j)
    && want[4 + j] == PowerConstraint(r, pp, cur, row, 1, j)
    && want[8 + j] == PowerConstraint(r, pp, cur, row, 2, j)
  }

  /** The first loop, over the auxiliary columns. */
  method FillPowerConstraints<T>(r: Ring<T>, pp: PoseidonParams<T>, cur: seq<T>, row: nat, out: array<T>,
                                 ghost want: seq<T>)
    requires |cur| == 16 == out.Length && |want| == 12
    requires forall j :: 0 <= j < 4 ==> LaneIs(r, pp, cur, row, want, j)
    modifies out
    ensures out[4..] == want
  {
    for j := 0 to 4
      invariant forall m :: 4 <= m < 4 + j || 8 <= m < 8 + j || 12 <= m < 12 + j ==> out[m] == want[m - 4]
    {
      var square, cube, fourth := LaneConstraints(r, pp, cur, row, j);
      assert LaneIs(r, pp, cur, row, want, j);
      out[4 + j], out[8 + j], out[12 + j] := square, cube, fourth;
    }
  }

  method MixRow<T>(r: Ring<T>, pp: PoseidonParams<T>, cur: seq<T>, j: nat) returns (expected: T)
    requires |cur| == 16
    ensures expected == MixedTo(r, pp, cur, j, 4)
  {
    expected := r.zero;
    for m := 0 to 4
      invariant expected == MixedTo(r, pp, cur, j, m)
    {
      var fo, cu := cur[12 + m], cur[8 + m];
      expected := r.Add(expected, r.Mul(r.Mul(pp.mds(j, m), fo), cu));
    }
  }

  /** `evaluate_constraints` */
  function EvaluateConstraints<T>(k: Field<T>, air: AirType, cur: seq<T>, nxt: seq<T>, row: nat): (c: seq<T>)
    requires |cur| == |nxt| == air.Width()
    ensures |c| == air.NumConstraints()
  {
    match air
    case Fibonacci => FibonacciConstraints(k.ring, cur, nxt)
    case PoseidonChain => PoseidonConstraints(k.ring, StandardParams(k), cur, nxt, row)
    case RegisterMachine => RegisterConstraints(k.ring, cur, nxt)
    case CairoSimple => CairoConstraints(k.ring, cur, nxt)
    case HashRollup => RollupConstraints(k.ring, cur, nxt)
  }

  ghost predicate AllZero<T>(zero: T, c: seq<T>) {
    forall j :: 0 <= j < |c| ==> c[j] == zero
  }

  ghost predicate RowHolds<T>(k: Field<T>, air: AirType, t: seq<seq<T>>, n: nat, i: nat)
    requires IsTable(t, air.Width(), n) && i + 1 < n
  {
    AllZero(k.ring.zero, EvaluateConstraints(k, air, RowOf(t, air.Width(), n, i), RowOf(t, air.Width(), n, i + 1), i))
  }

  /** Every row but the last satisfies all constraints of its AIR. */
  ghost predicate Satisfies<T>(k: Field<T>, air: AirType, t: seq<seq<T>>, n: nat) {
    IsTable(t, air.Width(), n) && forall i :: 0 <= i < n - 1 ==> RowHolds(k, air, t, n, i)
  }

  // ---------- Fibonacci ----------

  /** Row i of the trace. */
  function FibonacciRow<T>(r: Ring<T>, i: nat): (row: seq<T>)
    ensures |row| == 2
  {
    if i == 0 then [r.one, r.one]
    else
      var p := FibonacciRow(r, i - 1);
      [p[1], r.Add(p[0], p[1])]
  }

  lemma FibonacciHolds<T(!new)>(r: Ring<T>, i: nat)
    requires IsRing(r)
    ensures AllZero(r.zero, FibonacciConstraints(r, FibonacciRow(r, i), FibonacciRow(r, i + 1)))
  {
    var p := FibonacciRow(r, i);
    SubTwo(r, p[0], p[1]);
  }

  /** ((x + y) - x) - y = 0 */
  lemma SubTwo<T(!new)>(r: Ring<T>, x: T, y: T)
    requires IsRing(r)
    ensures r.Sub(r.Sub(r.Add(x, y), x), y) == r.zero
  {
    AddCommutes(r, x, y);
    SubAdd(r, y, x);
    SubSelf(r, y, y);
  }

  lemma FibonacciSatisfies<T(!new)>(k: Field<T>, t: seq<seq<T>>, n: nat)
    requires IsRing(k.ring) && IsTable(t, 2, n)
    requires forall i :: 0 <= i < n ==> RowOf(t, 2, n, i) == FibonacciRow(k.ring, i)
    ensures Satisfies(k, Fibonacci, t, n)
  {
    forall i | 0 <= i < n - 1
      ensures RowHolds(k, Fibonacci, t, n, i)
    {
      FibonacciHolds(k.ring, i);
      assert RowOf(t, 2, n, i + 1) == FibonacciRow(k.ring, i + 1);
    }
  }

  method BuildFibonacciTrace<T(!new)>(k: Field<T>, n: nat) returns (t: seq<seq<T>>)
    requires IsRing(k.ring) && n >= 1
    ensures IsTable(t, 2, n) && forall i :: 0 <= i < n ==> RowOf(t, 2, n, i) == FibonacciRow(k.ring, i)
    ensures Satisfies(k, Fibonacci, t, n)
  {
    ghost var spec := (i: nat) => FibonacciRow(k.ring, i);
    assert forall i :: FibonacciStep(k.ring, spec, i);
    t := FillFibonacci(k.ring, n, spec);
    FibonacciSatisfies(k, t, n);
  }

  ghost predicate FibonacciStep<T>(r: Ring<T>, spec: nat -> seq<T>, i: nat) {
    |spec(i)| == 2 && spec(i + 1) == [spec(i)[1], r.Add(spec(i)[0], spec(i)[1])]
  }

  method FillFibonacci<T>(r: Ring<T>, n: nat, ghost spec: nat -> seq<T>) returns (t: seq<seq<T>>)
    requires n >= 1 && spec(0) == [r.one, r.one] && forall i :: FibonacciStep(r, spec, i)
    ensures IsTable(t, 2, n) && forall i :: 0 <= i < n ==> RowOf(t, 2, n, i) == spec(i)
  {
    var c0, c1 := new T[n](_ => r.zero), new T[n](_ => r.zero);
    c0[0], c1[0] := r.one, r.one;
    for i := 0 to n - 1
      invariant forall p :: 0 <= p <= i ==> spec(p) == [c0[p], c1[p]]
    {
      var nextC0, nextC1 := c1[i], r.Add(c0[i], c1[i]);
      assert FibonacciStep(r, spec, i);
      c0[i + 1], c1[i + 1] := nextC0, nextC1;
    }
    t := [c0[..], c1[..]];
    forall i | 0 <= i < n
      ensures RowOf(t, 2, n, i) == spec(i)
    {
      assert RowOf(t, 2, n, i) == [c0[i], c1[i]];
    }
  }

  // ---------- the register machine ----------

  function NextRegisters<T>(r: Ring<T>, p: seq<T>): (q: seq<T>)
    requires |p| == 8
    ensures |q| == 8
  {
    [r.Add(r.Mul(p[0], p[1]), p[2]), r.Add(r.Mul(p[1], p[2]), p[3]), r.Add(r.Mul(p[2], p[3]), p[4]),
     r.Add(r.Mul(p[3], p[4]), p[5]),
     r.Add(r.Mul(p[4], p[5]), p[6]), r.Add(r.Mul(p[5], p[6]), p[7]), r.Add(r.Mul(p[6], p[7]), p[0]),
     r.Add(r.Add(r.Add(r.Mul(p[0], p[4]), r.Mul(p[1], p[5])), r.Mul(p[2], p[6])), r.Mul(p[3], p[7]))]
  }

  function RegisterRow<T>(r: Ring<T>, i: nat): (row: seq<T>)
    ensures |row| == 8
  {
    if i == 0 then seq(8, j requires 0 <= j < 8 => FromInt(r, j + 1)) else NextRegisters(r, RegisterRow(r, i - 1))
  }

  lemma RegisterHolds<T(!new)>(r: Ring<T>, p: seq<T>)
    requires IsRing(r) && |p| == 8
    ensures AllZero(r.zero, RegisterConstraints(r, p, NextRegisters(r, p)))
  {
    var q := NextRegisters(r, p);
    forall j | 0 <= j < 8
      ensures RegisterConstraints(r, p, q)[j] == r.zero
    {
      SubSelf(r, q[j], q[j]);
      assert RegisterConstraints(r, p, q)[j] == r.Sub(q[j], q[j]);
    }
  }

  lemma RegisterSatisfies<T(!new)>(k: Field<T>, t: seq<seq<T>>, n: nat, spec: nat -> seq<T>)
    requires IsRing(k.ring) && IsTable(t, 8, n) && forall i :: RegisterStep(k.ring, spec, i)
    requires forall i :: 0 <= i < n ==> RowOf(t, 8, n, i) == spec(i)
    ensures Satisfies(k, RegisterMachine, t, n)
  {
    forall i | 0 <= i < n - 1
      ensures RowHolds(k, RegisterMachine, t, n, i)
    {
      assert RegisterStep(k.ring, spec, i);
      RegisterHolds(k.ring, spec(i));
      assert RowOf(t, 8, n, i + 1) == spec(i + 1);
    }
  }

  method BuildRegisterMachineTrace<T(!new)>(k: Field<T>, n: nat) returns (t: seq<seq<T>>)
    requires IsRing(k.ring)
    ensures IsTable(t, 8, n) && forall i :: 0 <= i < n ==> RowOf(t, 8, n, i) == RegisterRow(k.ring, i)
    ensures Satisfies(k, RegisterMachine, t, n)
  {
    ghost var spec := (i: nat) => RegisterRow(k.ring, i);
    assert forall i :: RegisterStep(k.ring, spec, i);
    t := FillRegisters(k.ring, n, spec);
    RegisterSatisfies(k, t, n, spec);
  }

  ghost predicate RegisterStep<T>(r: Ring<T>, spec: nat -> seq<T>, i: nat) {
    |spec(i)| == 8 && spec(i + 1) == NextRegisters(r, spec(i))
  }

  method FillRegisters<T>(r: Ring<T>, n: nat, ghost spec: nat -> seq<T>) returns (t: seq<seq<T>>)
    requires spec(0) == RegisterRow(r, 0) && forall i :: RegisterStep(r, spec, i)
    ensures IsTable(t, 8, n) && forall i :: 0 <= i < n ==> RowOf(t, 8, n, i) == spec(i)
  {
    var trace := new T[8, n]((_, _) => r.zero);
    var regs := RegisterRow(r, 0);
    for row := 0 to n
      invariant row < n ==> regs == spec(row)
      invariant RowsWritten(trace, spec, row)
    {
      assert RegisterStep(r, spec, row);
      WriteRow(trace, row, regs, spec);
      if row + 1 < n {
        var p := regs;
        regs := NextRegisters(r, p);
      }
    }
    t := Columns(trace);
    forall i | 0 <= i < n
      ensures RowOf(t, 8, n, i) == spec(i)
    {
      assert RowWritten(trace, spec, i);
    }
  }

  ghost predicate RowWritten<T>(trace: array2<T>, spec: nat -> seq<T>, i: nat)
    requires i < trace.Length1
    reads trace
  {
    |spec(i)| == trace.Length0 && forall j :: 0 <= j < trace.Length0 ==> trace[j, i] == spec(i)[j]
  }

  ghost predicate RowsWritten<T>(trace: array2<T>, spec: nat -> seq<T>, rows: nat)
    requires rows <= trace.Length1
    reads trace
  {
    forall i :: 0 <= i < rows ==> RowWritten(trace, spec, i)
  }

  /** Write one row, column by column. */
  method WriteRow<T>(trace: array2<T>, row: nat, values: seq<T>, ghost spec: nat -> seq<T>)
    requires row < trace.Length1 && |values| == trace.Length0
    requires RowsWritten(trace, spec, row) && spec(row) == values
    modifies trace
    ensures RowsWritten(trace, spec, row + 1)
  {
    for m := 0 to |values|
      invariant RowsWritten(trace, spec, row)
      invariant forall j :: 0 <= j < m ==> trace[j, row] == values[j]
    {
      label before:
      trace[m, row] := values[m];
      forall i | 0 <= i < row
        ensures RowWritten(trace, spec, i)
      {
        assert old@before(RowWritten(trace, spec, i));
      }
    }
    assert RowWritten(trace, spec, row);
  }

  /** The columns of a two-dimensional array. */
  method Columns<T>(trace: array2<T>) returns (t: seq<seq<T>>)
    ensures IsTable(t, trace.Length0, trace.Length1)
    ensures forall j, i :: 0 <= j < trace.Length0 && 0 <= i < trace.Length1 ==> t[j][i] == trace[j, i]
  {
    t := [];
    for j := 0 to trace.Length0
      invariant IsTable(t, j, trace.Length1)
      invariant forall p, i :: 0 <= p < j && 0 <= i < trace.Length1 ==> t[p][i] == trace[p, i]
    {
      var column := [];
      for i := 0 to trace.Length1
        invariant |column| == i && forall q :: 0 <= q < i ==> column[q] == trace[j, q]
      {
        column := column + [trace[j, i]];
      }
      t := t + [column];
    }
  }

  // ---------- the simplified Cairo machine ----------

  const CAIRO_SIMPLE_INITIAL_PC: nat := 0

  const CAIRO_SIMPLE_INITIAL_AP: nat := 100

  function CairoRow<T>(r: Ring<T>, pc0: nat, ap0: nat, i: nat): (row: seq<T>)
    ensures |row| == 8
  {
    var res := r.Mul(FromInt(r, i + 1), FromInt(r, i + 2));
    [r.Add(FromInt(r, pc0), FromInt(r, i)), r.Add(FromInt(r, ap0), FromInt(r, i)), FromInt(r, ap0),
     FromInt(r, i + 1), FromInt(r, i + 2), res, res, r.zero]
  }

  /** (x + (1 + y)) - (x + y) - 1 = 0 */
  lemma CounterStep<T(!new)>(r: Ring<T>, x: T, i: nat)
    requires IsRing(r)
    ensures r.Sub(r.Sub(r.Add(x, FromInt(r, i + 1)), r.Add(x, FromInt(r, i))), r.one) == r.zero
  {
    var y := FromInt(r, i);
    assert FromInt(r, i + 1) == r.Add(r.one, y);
    AddCommutes(r, r.one, y);
    AddAssociates(r, x, y, r.one);
    SubTwo(r, r.Add(x, y), r.one);
  }

  lemma CairoHolds<T(!new)>(r: Ring<T>, pc0: nat, ap0: nat, i: nat)
    requires IsRing(r)
    ensures AllZero(r.zero, CairoConstraints(r, CairoRow(r, pc0, ap0, i), CairoRow(r, pc0, ap0, i + 1)))
  {
    CounterStep(r, FromInt(r, pc0), i);
    CounterStep(r, FromInt(r, ap0), i);
    SubSelf(r, FromInt(r, ap0), FromInt(r, ap0));
    var res := CairoRow(r, pc0, ap0, i)[6];
    SubSelf(r, res, res);
  }

  lemma CairoSatisfies<T(!new)>(k: Field<T>, t: seq<seq<T>>, n: nat, pc0: nat, ap0: nat, spec: nat -> seq<T>)
    requires IsRing(k.ring) && IsTable(t, 8, n) && forall i :: CairoSpec(k.ring, pc0, ap0, spec, i)
    requires forall i :: 0 <= i < n ==> RowOf(t, 8, n, i) == spec(i)
    ensures Satisfies(k, CairoSimple, t, n)
  {
    forall i | 0 <= i < n - 1
      ensures RowHolds(k, CairoSimple, t, n, i)
    {
      assert CairoSpec(k.ring, pc0, ap0, spec, i) && CairoSpec(k.ring, pc0, ap0, spec, i + 1);
      CairoHolds(k.ring, pc0, ap0, i);
      assert RowOf(t, 8, n, i + 1) == spec(i + 1);
    }
  }

  /** The builder, with its two initial constants as parameters. */
  method BuildCairoTraceFrom<T(!new)>(k: Field<T>, n: nat, pc0: nat, ap0: nat) returns (t: seq<seq<T>>)
    requires IsRing(k.ring)
    ensures IsTable(t, 8, n) && forall i :: 0 <= i < n ==> RowOf(t, 8, n, i) == CairoRow(k.ring, pc0, ap0, i)
    ensures Satisfies(k, CairoSimple, t, n)
  {
    ghost var spec := (i: nat) => CairoRow(k.ring, pc0, ap0, i);
    assert forall i :: CairoSpec(k.ring, pc0, ap0, spec, i);
    t := FillCairo(k.ring, n, pc0, ap0, spec);
    CairoSatisfies(k, t, n, pc0, ap0, spec);
  }

  method BuildCairoSimpleTrace<T(!new)>(k: Field<T>, n: nat) returns (t: seq<seq<T>>)
    requires IsRing(k.ring)
    ensures IsTable(t, 8, n)
    ensures forall i :: 0 <= i < n ==>
      RowOf(t, 8, n, i) == CairoRow(k.ring, CAIRO_SIMPLE_INITIAL_PC, CAIRO_SIMPLE_INITIAL_AP, i)
    ensures Satisfies(k, CairoSimple, t, n)
  {
    t := BuildCairoTraceFrom(k, n, CAIRO_SIMPLE_INITIAL_PC, CAIRO_SIMPLE_INITIAL_AP);
  }

  method FillCairo<T>(r: Ring<T>, n: nat, pc0: nat, ap0: nat, ghost spec: nat -> seq<T>) returns (t: seq<seq<T>>)
    requires forall i :: CairoSpec(r, pc0, ap0, spec, i)
    ensures IsTable(t, 8, n) && forall i :: 0 <= i < n ==> RowOf(t, 8, n, i) == spec(i)
  {
    var cols := new T[8, n]((_, _) => r.zero);
    var initPc, initAp := FromInt(r, pc0), FromInt(r, ap0);
    for i := 0 to n
      invariant RowsWritten(cols, spec, i)
    {
      assert CairoSpec(r, pc0, ap0, spec, i);
      var op0, op1 := FromInt(r, i + 1), FromInt(r, i + 2);
      var res := r.Mul(op0, op1);
      WriteRow(cols, i, [r.Add(initPc, FromInt(r, i)), r.Add(initAp, FromInt(r, i)), initAp, op0, op1, res, res,
                         r.zero], spec);
    }
    t := Columns(cols);
    forall i | 0 <= i < n
      ensures RowOf(t, 8, n, i) == spec(i)
    {
      assert RowWritten(cols, spec, i);
    }
  }

  ghost predicate CairoSpec<T>(r: Ring<T>, pc0: nat, ap0: nat, spec: nat -> seq<T>, i: nat) {
    spec(i) == CairoRow(r, pc0, ap0, i)
  }

  // ---------- the Poseidon chain ----------

  /** The columns of one row computed from its state: state, squares, cubes, fourth powers. */
  function PoseidonColumns<T>(r: Ring<T>, pp: PoseidonParams<T>, state: seq<T>, row: nat): (c: seq<T>)
    requires |state| == 4
    ensures |c| == 16
  {
    state + seq(4, j requires 0 <= j < 4 => PowerColumn(r, pp, state, row, 0, j))
          + seq(4, j requires 0 <= j < 4 => PowerColumn(r, pp, state, row, 1, j))
          + seq(4, j requires 0 <= j < 4 => PowerColumn(r, pp, state, row, 2, j))
  }

  function PowerColumn<T>(r: Ring<T>, pp: PoseidonParams<T>, state: seq<T>, row: nat, group: nat, j: nat): T
    requires |state| == 4 && group < 3 && j < 4
  {
    var s := r.Add(state[j], pp.constant(row, j));
    var sq := r.Mul(s, s);
    if group == 0 then sq else if group == 1 then r.Mul(sq, s) else r.Mul(sq, sq)
  }

  /** The next state: the matrix applied to the seventh powers. */
  function SboxMixed<T>(r: Ring<T>, pp: PoseidonParams<T>, c: seq<T>, j: nat, m: nat): T
    requires |c| == 16 && m <= 4
  {
    if m == 0 then r.zero
    else r.Add(SboxMixed(r, pp, c, j, m - 1), r.Mul(pp.mds(j, m - 1), r.Mul(c[11 + m], c[7 + m])))
  }

  function PoseidonState<T>(r: Ring<T>, pp: PoseidonParams<T>, row: nat): (state: seq<T>)
    ensures |state| == 4
  {
    if row == 0 then seq(4, j requires 0 <= j < 4 => FromInt(r, j + 1))
    else
      var c := PoseidonColumns(r, pp, PoseidonState(r, pp, row - 1), row - 1);
      seq(4, j requires 0 <= j < 4 => SboxMixed(r, pp, c, j, 4))
  }

  /** The builder multiplies the matrix with the product, the evaluator factor by factor. */
  lemma {:induction false} SameMix<T(!new)>(r: Ring<T>, pp: PoseidonParams<T>, c: seq<T>, j: nat, m: nat)
    requires IsRing(r) && |c| == 16 && m <= 4
    ensures SboxMixed(r, pp, c, j, m) == MixedTo(r, pp, c, j, m)
  {
    if m > 0 {
      SameMix(r, pp, c, j, m - 1);
      MulAssociates(r, pp.mds(j, m - 1), c[11 + m], c[7 + m]);
    }
  }

  lemma PoseidonHolds<T(!new)>(r: Ring<T>, pp: PoseidonParams<T>, row: nat, state: seq<T>, next: seq<T>, nxt: seq<T>)
    requires IsRing(r) && |state| == 4 && |next| == 4 && |nxt| == 16 && nxt[..4] == next
    requires forall j :: 0 <= j < 4 ==> next[j] == SboxMixed(r, pp, PoseidonColumns(r, pp, state, row), j, 4)
    ensures AllZero(r.zero, PoseidonConstraints(r, pp, PoseidonColumns(r, pp, state, row), nxt, row))
  {
    var c := PoseidonColumns(r, pp, state, row);
    forall j | 0 <= j < 4
      ensures StateConstraint(r, pp, c, nxt, j) == r.zero
    {
      SameMix(r, pp, c, j, 4);
      assert nxt[j] == nxt[..4][j];
      SubSelf(r, nxt[j], nxt[j]);
    }
    forall j, group | 0 <= j < 4 && 0 <= group < 3
      ensures PowerConstraint(r, pp, c, row, group, j) == r.zero
    {
      PowerHolds(r, pp, state, row, group, j);
    }
  }

  lemma PowerHolds<T(!new)>(r: Ring<T>, pp: PoseidonParams<T>, state: seq<T>, row: nat, group: nat, j: nat)
    requires IsRing(r) && |state| == 4 && group < 3 && j < 4
    ensures PowerConstraint(r, pp, PoseidonColumns(r, pp, state, row), row, group, j) == r.zero
  {
    var c, x := PoseidonColumns(r, pp, state, row), PowerColumn(r, pp, state, row, group, j);
    assert c[j] == state[j] && c[4 + j] == PowerColumn(r, pp, state, row, 0, j);
    assert c[8 + j] == PowerColumn(r, pp, state, row, 1, j) && c[12 + j] == PowerColumn(r, pp, state, row, 2, j);
    SubSelf(r, x, x);
  }

  ghost predicate PoseidonStep<T>(r: Ring<T>, pp: PoseidonParams<T>, states: nat -> seq<T>, spec: nat -> seq<T>,
                                  i: nat) {
    && |states(i)| == 4 && spec(i) == PoseidonColumns(r, pp, states(i), i)
    && states(i + 1) == seq(4, j requires 0 <= j < 4 => SboxMixed(r, pp, spec(i), j, 4))
  }

  lemma PoseidonSatisfies<T(!new)>(k: Field<T>, pp: PoseidonParams<T>, t: seq<seq<T>>, n: nat, states: nat -> seq<T>,
                                   spec: nat -> seq<T>)
    requires IsRing(k.ring) && IsTable(t, 16, n) && pp == StandardParams(k)
    requires forall i :: PoseidonStep(k.ring, pp, states, spec, i)
    requires forall i :: 0 <= i < n ==> RowOf(t, 16, n, i) == spec(i)
    ensures Satisfies(k, PoseidonChain, t, n)
  {
    forall i | 0 <= i < n - 1
      ensures RowHolds(k, PoseidonChain, t, n, i)
    {
      assert PoseidonStep(k.ring, pp, states, spec, i) && PoseidonStep(k.ring, pp, states, spec, i + 1);
      var nxt := RowOf(t, 16, n, i + 1);
      assert nxt == spec(i + 1) && nxt[..4] == states(i + 1);
      PoseidonHolds(k.ring, pp, i, states(i), states(i + 1), nxt);
    }
  }

  method BuildPoseidonChainTrace<T(!new)>(k: Field<T>, n: nat) returns (t: seq<seq<T>>)
    requires IsRing(k.ring)
    ensures IsTable(t, 16, n)
    ensures forall i :: 0 <= i < n ==>
      RowOf(t, 16, n, i) == PoseidonColumns(k.ring, StandardParams(k),
                                            PoseidonState(k.ring, StandardParams(k), i), i)
    ensures Satisfies(k, PoseidonChain, t, n)
  {
    var r, pp := k.ring, StandardParams(k);
    ghost var states := (i: nat) => PoseidonState(r, pp, i);
    ghost var spec := (i: nat) => PoseidonColumns(r, pp, PoseidonState(r, pp, i), i);
    assert forall i :: PoseidonStep(r, pp, states, spec, i);
    t := FillPoseidon(r, pp, n, states, spec);
    PoseidonSatisfies(k, pp, t, n, states, spec);
  }

  method FillPoseidon<T>(r: Ring<T>, pp: PoseidonParams<T>, n: nat, ghost states: nat -> seq<T>,
                         ghost spec: nat -> seq<T>)
    returns (t: seq<seq<T>>)
    requires states(0) == PoseidonState(r, pp, 0) && forall i :: PoseidonStep(r, pp, states, spec, i)
    ensures IsTable(t, 16, n) && forall i :: 0 <= i < n ==> RowOf(t, 16, n, i) == spec(i)
  {
    var trace := new T[16, n]((_, _) => r.zero);
    var state := PoseidonState(r, pp, 0);
    for row := 0 to n
      invariant row < n ==> state == states(row)
      invariant RowsWritten(trace, spec, row)
    {
      assert PoseidonStep(r, pp, states, spec, row);
      var columns := SboxRow(r, pp, state, row);
      WriteRow(trace, row, columns, spec);
      if row + 1 < n {
        state := NextState(r, pp, columns);
      }
    }
    t := Columns(trace);
    forall i | 0 <= i < n
      ensures RowOf(t, 16, n, i) == spec(i)
    {
      assert RowWritten(trace, spec, i);
    }
  }

  /** The S-box of one row, lane by lane. */
  method SboxRow<T>(r: Ring<T>, pp: PoseidonParams<T>, state: seq<T>, row: nat) returns (columns: seq<T>)
    requires |state| == 4
    ensures columns == PoseidonColumns(r, pp, state, row)
  {
    var sqs, cus, fos := [], [], [];
    for j := 0 to 4
      invariant sqs == seq(j, m requires 0 <= m < j => PowerColumn(r, pp, state, row, 0, m))
      invariant cus == seq(j, m requires 0 <= m < j => PowerColumn(r, pp, state, row, 1, m))
      invariant fos == seq(j, m requires 0 <= m < j => PowerColumn(r, pp, state, row, 2, m))
    {
      var s := r.Add(state[j], pp.constant(row, j));
      var sq := r.Mul(s, s);
      sqs, cus, fos := sqs + [sq], cus + [r.Mul(sq, s)], fos + [r.Mul(sq, sq)];
    }
    columns := state + sqs + cus + fos;
  }

  method NextState<T>(r: Ring<T>, pp: PoseidonParams<T>, c: seq<T>) returns (state: seq<T>)
    requires |c| == 16
    ensures state == seq(4, j requires 0 <= j < 4 => SboxMixed(r, pp, c, j, 4))
  {
    state := [];
    for j := 0 to 4
      invariant state == seq(j, p requires 0 <= p < j => SboxMixed(r, pp, c, p, 4))
    {
      var acc := r.zero;
      for m := 0 to 4
        invariant acc == SboxMixed(r, pp, c, j, m)
      {
        var sboxOut := r.Mul(c[12 + m], c[8 + m]);
        acc := r.Add(acc, r.Mul(pp.mds(j, m), sboxOut));
      }
      state := state + [acc];
    }
  }

  // ---------- the hash rollup ----------

  /** The leaf absorbed at row i; missing leaves are zero. */
  function LeafAt<T>(r: Ring<T>, leaves: seq<nat>, i: nat): T {
    if i < |leaves| then FromInt(r, leaves[i]) else r.zero
  }

  function LeafColumn<T>(r: Ring<T>, leaves: seq<nat>): nat -> T { (i: nat) => LeafAt(r, leaves, i) }

  /** The accumulator after the first i entries of a leaf column. */
  function Absorb<T>(r: Ring<T>, leaf: nat -> T, i: nat): T {
    if i == 0 then r.zero
    else
      var s := Absorb(r, leaf, i - 1);
      r.Add(r.Mul(s, s), leaf(i - 1))
  }

  /** `compute_hash_rollup_final_state` */
  method ComputeHashRollupFinalState<T>(r: Ring<T>, nTrace: nat, leaves: seq<nat>) returns (s: T)
    ensures s == Absorb(r, LeafColumn(r, leaves), nTrace)
  {
    s := r.zero;
    ghost var leaf := LeafColumn(r, leaves);
    for i := 0 to nTrace
      invariant s == Absorb(r, leaf, i)
    {
      var x := if i < |leaves| then FromInt(r, leaves[i]) else r.zero;
      s := r.Add(r.Mul(s, s), x);
    }
  }

  function RollupRow<T>(r: Ring<T>, leaf: nat -> T, i: nat): (row: seq<T>)
    ensures |row| == 4
  {
    var s := Absorb(r, leaf, i);
    [FromInt(r, i), leaf(i), s, r.Mul(s, s)]
  }

  /** x + 1 - x - 1 = 0 in the order the evaluator subtracts. */
  lemma RollupHolds<T(!new)>(r: Ring<T>, leaf: nat -> T, i: nat)
    requires IsRing(r)
    ensures AllZero(r.zero, RollupConstraints(r, RollupRow(r, leaf, i), RollupRow(r, leaf, i + 1)))
  {
    var s := Absorb(r, leaf, i);
    AddCommutes(r, r.one, FromInt(r, i));
    SubTwo(r, FromInt(r, i), r.one);
    SubSelf(r, r.Mul(s, s), r.Mul(s, s));
    SubTwo(r, r.Mul(s, s), leaf(i));
  }

  lemma RollupSatisfies<T(!new)>(k: Field<T>, t: seq<seq<T>>, n: nat, leaf: nat -> T)
    requires IsRing(k.ring) && IsTable(t, 4, n)
    requires forall i :: 0 <= i < n ==> RowOf(t, 4, n, i) == RollupRow(k.ring, leaf, i)
    ensures Satisfies(k, HashRollup, t, n)
  {
    forall i | 0 <= i < n - 1
      ensures RowHolds(k, HashRollup, t, n, i)
    {
      RollupHolds(k.ring, leaf, i);
      assert RowOf(t, 4, n, i + 1) == RollupRow(k.ring, leaf, i + 1);
    }
  }

  method BuildHashRollupTrace<T(!new)>(k: Field<T>, n: nat, leaves: seq<nat>) returns (t: seq<seq<T>>)
    requires IsRing(k.ring)
    ensures IsTable(t, 4, n) && forall i :: 0 <= i < n ==>
      RowOf(t, 4, n, i) == RollupRow(k.ring, LeafColumn(k.ring, leaves), i)
    ensures Satisfies(k, HashRollup, t, n)
  {
    ghost var leaf := LeafColumn(k.ring, leaves);
    t := FillRollup(k.ring, n, leaves, leaf, AbsorbedStates(k.ring, leaf));
    RollupSatisfies(k, t, n, leaf);
  }

  ghost function AbsorbedStates<T>(r: Ring<T>, leaf: nat -> T): (states: nat -> T)
    ensures states(0) == r.zero && forall i :: AbsorbStep(r, leaf, states, i)
    ensures forall i :: states(i) == Absorb(r, leaf, i)
  {
    (i: nat) => Absorb(r, leaf, i)
  }

  ghost predicate AbsorbStep<T>(r: Ring<T>, leaf: nat -> T, states: nat -> T, i: nat) {
    states(i + 1) == r.Add(r.Mul(states(i), states(i)), leaf(i))
  }

  method FillRollup<T>(r: Ring<T>, n: nat, leaves: seq<nat>, ghost leaf: nat -> T, ghost states: nat -> T)
    returns (t: seq<seq<T>>)
    requires forall i :: leaf(i) == LeafAt(r, leaves, i)
    requires states(0) == r.zero && forall i :: AbsorbStep(r, leaf, states, i)
    ensures IsTable(t, 4, n)
    ensures forall i :: 0 <= i < n ==>
      RowOf(t, 4, n, i) == [FromInt(r, i), leaf(i), states(i), r.Mul(states(i), states(i))]
  {
    var trace := new T[4, n]((_, _) => r.zero);
    ghost var spec := (i: nat) => [FromInt(r, i), leaf(i), states(i), r.Mul(states(i), states(i))];
    var s := r.zero;
    for i := 0 to n
      invariant s == states(i)
      invariant RowsWritten(trace, spec, i)
    {
      var x := if i < |leaves| then FromInt(r, leaves[i]) else r.zero;
      var sq := r.Mul(s, s);
      WriteRow(trace, i, [FromInt(r, i), x, s, sq], spec);
      assert AbsorbStep(r, leaf, states, i);
      s := r.Add(sq, x);
    }
    t := Columns(trace);
    forall i | 0 <= i < n
      ensures RowOf(t, 4, n, i) == spec(i)
    {
      assert RowWritten(trace, spec, i);
    }
  }

  // ---------- what the rollup constraints determine ----------

  /** x - y - z = 0 means x = y + z. */
  lemma SubTwoZero<T(!new)>(r: Ring<T>, x: T, y: T, z: T)
    requires IsRing(r) && r.Sub(r.Sub(x, y), z) == r.zero
    ensures x == r.Add(y, z)
  {
    SubSelf(r, r.Sub(x, y), z);
    SubAdd(r, x, y);
    AddCommutes(r, z, y);
  }

  /** A table that satisfies the rollup constraints and starts at zero has the builder's counter and state:
      the last state is what `compute_hash_rollup_final_state` returns for one row fewer. */
  lemma {:induction false} RollupDetermined<T(!new)>(k: Field<T>, t: seq<seq<T>>, n: nat, leaf: nat -> T, i: nat)
    requires IsRing(k.ring) && Satisfies(k, HashRollup, t, n) && i < n
    requires t[0][0] == k.ring.zero && t[2][0] == k.ring.zero
    requires forall p :: 0 <= p < i ==> t[1][p] == leaf(p)
    ensures t[0][i] == FromInt(k.ring, i) && t[2][i] == Absorb(k.ring, leaf, i)
  {
    if i > 0 {
      var r := k.ring;
      RollupDetermined(k, t, n, leaf, i - 1);
      assert RowHolds(k, HashRollup, t, n, i - 1);
      var cur, nxt := RowOf(t, 4, n, i - 1), RowOf(t, 4, n, i);
      var c := RollupConstraints(r, cur, nxt);
      assert c[0] == r.zero && c[1] == r.zero && c[2] == r.zero;
      SubTwoZero(r, nxt[0], cur[0], r.one);
      AddCommutes(r, cur[0], r.one);
      SubSelf(r, cur[3], r.Mul(cur[2], cur[2]));
      SubTwoZero(r, nxt[2], cur[3], cur[1]);
    }
  }

  /** The last state of any such table over given leaves. */
  lemma RollupFinalState<T(!new)>(k: Field<T>, t: seq<seq<T>>, n: nat, leaves: seq<nat>)
    requires IsRing(k.ring) && Satisfies(k, HashRollup, t, n) && n > 0
    requires t[0][0] == k.ring.zero && t[2][0] == k.ring.zero
    requires forall i :: 0 <= i < n - 1 ==> t[1][i] == LeafAt(k.ring, leaves, i)
    ensures t[2][n - 1] == Absorb(k.ring, LeafColumn(k.ring, leaves), n - 1)
  {
    RollupDetermined(k, t, n, LeafColumn(k.ring, leaves), n - 1);
  }

  /** A table of the rollup builder. */
  ghost predicate IsRollupTrace<T>(r: Ring<T>, t: seq<seq<T>>, n: nat, leaves: seq<nat>) {
    IsTable(t, 4, n) && forall i :: 0 <= i < n ==> RowOf(t, 4, n, i) == RollupRow(r, LeafColumn(r, leaves), i)
  }

  /** s s + x = s means x = s - s s. */
  lemma FixedUnderAbsorption<T(!new)>(r: Ring<T>, s: T, x: T)
    requires IsRing(r)
    ensures r.Add(r.Mul(s, s), x) == s <==> x == r.Sub(s, r.Mul(s, s))
  {
    var sq := r.Mul(s, s);
    SubAdd(r, s, sq);
    AddCommutes(r, sq, r.Sub(s, sq));
    if r.Add(sq, x) == s {
      AddCancels(r, sq, x, r.Sub(s, sq));
    }
  }

  /** s s = s means s is 0 or 1 in a field. */
  lemma OnlyIdempotents<T(!new)>(k: Field<T>, s: T)
    requires IsField(k)
    ensures k.ring.Sub(s, k.ring.Mul(s, s)) == k.ring.zero <==> s == k.ring.zero || s == k.ring.one
  {
    var r := k.ring;
    SubSelf(r, s, r.Mul(s, s));
    MulZero(r, r.zero);
    MulOne(r, r.one);
    if s == r.Mul(s, s) {
      MulOne(r, s);
      MulSub(r, s, s, r.one);
      SubSelf(r, r.Mul(s, s), s);
      SubSelf(r, s, r.one);
      NoZeroDivisors(k, s, r.Sub(s, r.one));
    }
  }

  /** What the function returns for n agrees with the last state of the builder's n rows exactly for one value of
      the leaf read last: with s the state after the leaves before it, that leaf is s - s s. */
  lemma FinalStateIff<T(!new)>(r: Ring<T>, t: seq<seq<T>>, n: nat, leaves: seq<nat>, result: T)
    requires IsRing(r) && n > 0 && IsRollupTrace(r, t, n, leaves)
    requires result == Absorb(r, LeafColumn(r, leaves), n)
    ensures t[2][n - 1] == Absorb(r, LeafColumn(r, leaves), n - 1)
    ensures result == t[2][n - 1] <==> LeafAt(r, leaves, n - 1) == r.Sub(t[2][n - 1], r.Mul(t[2][n - 1], t[2][n - 1]))
  {
    assert RowOf(t, 4, n, n - 1) == RollupRow(r, LeafColumn(r, leaves), n - 1);
    assert RowOf(t, 4, n, n - 1)[2] == t[2][n - 1];
    FixedUnderAbsorption(r, t[2][n - 1], LeafAt(r, leaves, n - 1));
  }

  /** The state the condition speaks of does not depend on the leaf read last. */
  lemma {:induction false} StateIgnoresLater<T>(r: Ring<T>, leaves: seq<nat>, other: seq<nat>, n: nat)
    requires forall i :: 0 <= i < n ==> LeafAt(r, leaves, i) == LeafAt(r, other, i)
    ensures Absorb(r, LeafColumn(r, leaves), n) == Absorb(r, LeafColumn(r, other), n)
  {
    if n > 0 {
      StateIgnoresLater(r, leaves, other, n - 1);
      assert LeafAt(r, leaves, n - 1) == LeafAt(r, other, n - 1);
    }
  }

  /** Build the trace, compute the final state, compare: they agree exactly when the last leaf is s - s s, so
      past the end of the leaf list exactly when the state is 0 or 1. */
  method CompareFinalStates<T(!new, ==)>(k: Field<T>, n: nat, leaves: seq<nat>) returns (agree: bool, state: T)
    requires IsField(k) && n > 0
    ensures state == Absorb(k.ring, LeafColumn(k.ring, leaves), n - 1)
    ensures agree <==> LeafAt(k.ring, leaves, n - 1) == k.ring.Sub(state, k.ring.Mul(state, state))
    ensures n > |leaves| ==> (agree <==> state == k.ring.zero || state == k.ring.one)
  {
    var t := BuildHashRollupTrace(k, n, leaves);
    var result := ComputeHashRollupFinalState(k.ring, n, leaves);
    FinalStateIff(k.ring, t, n, leaves, result);
    state := t[2][n - 1];
    agree := result == state;
    OnlyIdempotents(k, state);
  }

  /** Two rows with leaves 0 and 1: the builder's table ends in state 0, the function returns 1. */
  lemma FinalStateDiffers<T(!new)>(r: Ring<T>, t: seq<seq<T>>, result: T)
    requires IsRing(r) && r.one != r.zero && IsRollupTrace(r, t, 2, [0, 1])
    requires result == Absorb(r, LeafColumn(r, [0, 1]), 2)
    ensures t[2][1] == r.zero && result == r.one && result != t[2][1]
  {
    var leaf := LeafColumn(r, [0, 1]);
    FinalStateIff(r, t, 2, [0, 1], result);
    MulZero(r, r.zero);
    AddZero(r, r.zero);
    AddZero(r, r.one);
    assert leaf(0) == FromInt(r, 0) == r.zero;
    assert leaf(1) == FromInt(r, 1) == r.one;
    assert Absorb(r, leaf, 1) == r.Add(r.Mul(r.zero, r.zero), r.zero);
    AddCommutes(r, r.zero, r.one);
  }
}
