/** Multilinear extensions stored as tables, evaluated and folded in place (the mle crate). */
module Mle {
  import opened Arith
  import opened Rings

  // ---------- tables ----------

  /** (1 - c) x + c y */
  function Mix<T>(r: Ring<T>, c: T, x: T, y: T): T { r.Add(r.Mul(r.Sub(r.one, c), x), r.Mul(c, y)) }

  /** Combine neighbours: fixes variable 0, the low bit of the index. */
  function FoldPairs<T>(r: Ring<T>, v: seq<T>, c: T): (w: seq<T>)
    ensures |w| == |v| / 2
  {
    if |v| < 2 then [] else [Mix(r, c, v[0], v[1])] + FoldPairs(r, v[2..], c)
  }

  lemma {:induction false} FoldPairsAt<T>(r: Ring<T>, v: seq<T>, c: T, j: nat)
    requires 2 * j + 1 < |v|
    ensures FoldPairs(r, v, c)[j] == Mix(r, c, v[2 * j], v[2 * j + 1])
    decreases j
  {
    if j > 0 {
      FoldPairsAt(r, v[2..], c, j - 1);
    }
  }

  /** Fold the variables one after the other. */
  function EvalTable<T>(r: Ring<T>, v: seq<T>, point: seq<T>): T
    requires |v| == Pow2(|point|)
    decreases |point|
  {
    if point == [] then v[0] else EvalTable(r, FoldPairs(r, v, point[0]), point[1..])
  }

  /** A table of the coordinates from i on, with value y at the point. */
  ghost predicate TableOf<T>(r: Ring<T>, v: seq<T>, point: seq<T>, i: nat, y: T)
    requires i <= |point|
  {
    |v| == Pow2(|point| - i) && EvalTable(r, v, point[i..]) == y
  }

  /** Folding away coordinate i leaves the table of the remaining ones. */
  lemma EvalTableStep<T>(r: Ring<T>, v: seq<T>, point: seq<T>, i: nat, y: T)
    requires i < |point| && TableOf(r, v, point, i, y)
    ensures |v| % 2 == 0 && TableOf(r, FoldPairs(r, v, point[i]), point, i + 1, y)
  {
    assert point[i..][0] == point[i] && point[i..][1..] == point[i + 1..];
  }

  /** j with bit b inserted at position i. */
  function InsertBit(j: nat, i: nat, b: nat): (k: nat)
    requires b < 2
  {
    if i == 0 then 2 * j + b else 2 * InsertBit(j / 2, i - 1, b) + j % 2
  }

  lemma {:induction false} InsertBitInRange(j: nat, i: nat, b: nat, n: nat)
    requires b < 2 && i < n && j < Pow2(n - 1)
    ensures InsertBit(j, i, b) < Pow2(n)
  {
    if i > 0 {
      InsertBitInRange(j / 2, i - 1, b, n - 1);
    }
  }

  /** In block-and-offset form: the bit moves the block's start by 2^i. */
  lemma {:induction false} InsertBitAt(block: nat, o: nat, i: nat, b: nat)
    requires b < 2 && o < Pow2(i)
    ensures InsertBit(Shl(block, i) + o, i, b) == Shl(block, i + 1) + (if b == 1 then Pow2(i) else 0) + o
  {
    if i > 0 {
      InsertBitAt(block, o / 2, i - 1, b);
      assert (Shl(block, i) + o) / 2 == Shl(block, i - 1) + o / 2;
    }
  }

  /** The table with variable i fixed to c. */
  function FoldVar<T>(r: Ring<T>, v: seq<T>, n: nat, i: nat, c: T): (w: seq<T>)
    requires i < n && |v| == Pow2(n)
    ensures |w| == Pow2(n - 1)
  {
    FoldPrefix(r, v, n, i, c, Pow2(n - 1))
  }

  /** Its first k entries. */
  function FoldPrefix<T>(r: Ring<T>, v: seq<T>, n: nat, i: nat, c: T, k: nat): (w: seq<T>)
    requires i < n && |v| == Pow2(n) && k <= Pow2(n - 1)
    ensures |w| == k
  {
    if k == 0 then [] else FoldPrefix(r, v, n, i, c, k - 1) + [FoldedAt(r, v, n, i, c, k - 1)]
  }

  function FoldedAt<T>(r: Ring<T>, v: seq<T>, n: nat, i: nat, c: T, j: nat): T
    requires i < n && |v| == Pow2(n) && j < Pow2(n - 1)
  {
    InsertBitInRange(j, i, 0, n);
    InsertBitInRange(j, i, 1, n);
    Mix(r, c, v[InsertBit(j, i, 0)], v[InsertBit(j, i, 1)])
  }

  lemma {:induction false} FoldPrefixAt<T>(r: Ring<T>, v: seq<T>, n: nat, i: nat, c: T, k: nat, j: nat)
    requires i < n && |v| == Pow2(n) && j < k <= Pow2(n - 1)
    ensures FoldPrefix(r, v, n, i, c, k)[j] == FoldedAt(r, v, n, i, c, j)
  {
    if j < k - 1 {
      FoldPrefixAt(r, v, n, i, c, k - 1, j);
    }
  }

  /** The half of the table in which bit i is b. */
  function FixVar<T>(v: seq<T>, n: nat, i: nat, b: nat): (w: seq<T>)
    requires i < n && |v| == Pow2(n) && b < 2
    ensures |w| == Pow2(n - 1)
  {
    FixPrefix(v, n, i, b, Pow2(n - 1))
  }

  function FixPrefix<T>(v: seq<T>, n: nat, i: nat, b: nat, k: nat): (w: seq<T>)
    requires i < n && |v| == Pow2(n) && b < 2 && k <= Pow2(n - 1)
    ensures |w| == k
  {
    if k == 0 then []
    else
      InsertBitInRange(k - 1, i, b, n);
      FixPrefix(v, n, i, b, k - 1) + [v[InsertBit(k - 1, i, b)]]
  }

  // ---------- evaluation is the multilinear sum ----------

  /** Product over the variables of r_i or 1 - r_i, by the bits of idx. */
  function Weight<T>(r: Ring<T>, idx: nat, point: seq<T>): T {
    if point == [] then r.one
    else r.Mul(if idx % 2 == 1 then point[0] else r.Sub(r.one, point[0]), Weight(r, idx / 2, point[1..]))
  }

  /** The sum over the indices below k of value times weight. */
  function WeightedSum<T>(r: Ring<T>, v: seq<T>, point: seq<T>, k: nat): T
    requires k <= |v|
  {
    if k == 0 then r.zero else r.Add(WeightedSum(r, v, point, k - 1), r.Mul(v[k - 1], Weight(r, k - 1, point)))
  }

  lemma WeightOfPair<T>(r: Ring<T>, m: nat, point: seq<T>)
    requires point != []
    ensures Weight(r, 2 * m, point) == r.Mul(r.Sub(r.one, point[0]), Weight(r, m, point[1..]))
    ensures Weight(r, 2 * m + 1, point) == r.Mul(point[0], Weight(r, m, point[1..]))
  {
    assert (2 * m) / 2 == m && (2 * m + 1) / 2 == m && (2 * m) % 2 == 0 && (2 * m + 1) % 2 == 1;
  }

  lemma SumTwo<T(!new)>(r: Ring<T>, v: seq<T>, point: seq<T>, m: nat)
    requires IsRing(r) && 2 * m + 1 < |v|
    ensures WeightedSum(r, v, point, 2 * m + 2)
         == r.Add(WeightedSum(r, v, point, 2 * m),
                  r.Add(r.Mul(v[2 * m], Weight(r, 2 * m, point)), r.Mul(v[2 * m + 1], Weight(r, 2 * m + 1, point))))
  {
    var s, x, y := WeightedSum(r, v, point, 2 * m), r.Mul(v[2 * m], Weight(r, 2 * m, point)),
        r.Mul(v[2 * m + 1], Weight(r, 2 * m + 1, point));
    assert WeightedSum(r, v, point, 2 * m + 1) == r.Add(s, x);
    AddAssociates(r, s, x, y);
  }

  /** Two neighbouring terms make one term of the folded table. */
  lemma PairOfTerms<T(!new)>(r: Ring<T>, v: seq<T>, point: seq<T>, m: nat, w: seq<T>, rest: seq<T>)
    requires IsRing(r) && point != [] && 2 * m + 2 <= |v| && m < |w|
    requires w == FoldPairs(r, v, point[0]) && rest == point[1..]
    ensures r.Add(r.Mul(v[2 * m], Weight(r, 2 * m, point)), r.Mul(v[2 * m + 1], Weight(r, 2 * m + 1, point)))
         == r.Mul(w[m], Weight(r, m, rest))
  {
    WeightOfPair(r, m, point);
    FoldPairsAt(r, v, point[0], m);
    PairWeights(r, v[2 * m], v[2 * m + 1], point[0], Weight(r, m, rest));
  }

  lemma {:induction false} SumOfPairs<T(!new)>(r: Ring<T>, v: seq<T>, point: seq<T>, k: nat)
    requires IsRing(r) && point != [] && 2 * k <= |v|
    ensures WeightedSum(r, v, point, 2 * k) == WeightedSum(r, FoldPairs(r, v, point[0]), point[1..], k)
  {
    if k > 0 {
      var m := k - 1;
      SumOfPairs(r, v, point, m);
      SumTwo(r, v, point, m);
      PairOfTerms(r, v, point, m, FoldPairs(r, v, point[0]), point[1..]);
    }
  }

  /** x ((1 - c) w) + y (c w) = ((1 - c) x + c y) w */
  lemma PairWeights<T(!new)>(r: Ring<T>, x: T, y: T, c: T, w: T)
    requires IsRing(r)
    ensures r.Add(r.Mul(x, r.Mul(r.Sub(r.one, c), w)), r.Mul(y, r.Mul(c, w))) == r.Mul(Mix(r, c, x, y), w)
  {
    var d := r.Sub(r.one, c);
    MulLeftSwap(r, x, d, w);
    MulLeftSwap(r, y, c, w);
    MulAssociates(r, d, x, w);
    MulAssociates(r, c, y, w);
    Distributes(r, w, r.Mul(d, x), r.Mul(c, y));
  }

  /** Folding pair by pair evaluates the multilinear sum over the whole table. */
  lemma {:induction false} EvalIsSum<T(!new)>(r: Ring<T>, v: seq<T>, point: seq<T>)
    requires IsRing(r) && |v| == Pow2(|point|)
    ensures EvalTable(r, v, point) == WeightedSum(r, v, point, |v|)
    decreases |point|
  {
    if point == [] {
      assert WeightedSum(r, v, point, 1) == r.Add(WeightedSum(r, v, point, 0), r.Mul(v[0], r.one));
      MulOne(r, v[0]);
      AddZero(r, v[0]);
    } else {
      EvalIsSum(r, FoldPairs(r, v, point[0]), point[1..]);
      SumOfPairs(r, v, point, |v| / 2);
    }
  }

  /** The Boolean point with the bits of idx. */
  function BitPoint<T>(r: Ring<T>, idx: nat, n: nat): (p: seq<T>)
    ensures |p| == n
  {
    if n == 0 then [] else [if idx % 2 == 1 then r.one else r.zero] + BitPoint(r, idx / 2, n - 1)
  }

  /** Mixing at a bit selects. */
  lemma MixSelects<T(!new)>(r: Ring<T>, x: T, y: T)
    requires IsRing(r)
    ensures Mix(r, r.zero, x, y) == x && Mix(r, r.one, x, y) == y
  {
    NegZero(r);
    AddZero(r, r.one);
    MulOne(r, x);
    MulZero(r, y);
    AddZero(r, x);
    SubSelf(r, r.one, r.one);
    MulZero(r, x);
    MulOne(r, y);
    AddZero(r, y);
  }

  /** At Boolean points evaluation reads the table. */
  lemma {:induction false} EvalAtBits<T(!new)>(r: Ring<T>, v: seq<T>, n: nat, idx: nat)
    requires IsRing(r) && |v| == Pow2(n) && idx < |v|
    ensures EvalTable(r, v, BitPoint(r, idx, n)) == v[idx]
    decreases n
  {
    if n > 0 {
      var p, m, bit := BitPoint(r, idx, n), idx / 2, if idx % 2 == 1 then r.one else r.zero;
      assert p[0] == bit && p[1..] == BitPoint(r, m, n - 1);
      EvalAtBits(r, FoldPairs(r, v, bit), n - 1, m);
      FoldPairsAt(r, v, bit, m);
      MixSelects(r, v[2 * m], v[2 * m + 1]);
    }
  }

  // ---------- fixing a variable is partial evaluation ----------

  /** The point with c inserted as coordinate i. */
  function InsertAt<T>(point: seq<T>, i: nat, c: T): (p: seq<T>)
    requires i <= |point|
    ensures |p| == |point| + 1
  {
    point[..i] + [c] + point[i..]
  }

  /** Mixing by d after mixing by c, in either order. */
  lemma MixSwap<T(!new)>(r: Ring<T>, c: T, d: T, x: T, y: T, z: T, t: T)
    requires IsRing(r)
    ensures Mix(r, d, Mix(r, c, x, y), Mix(r, c, z, t)) == Mix(r, c, Mix(r, d, x, z), Mix(r, d, y, t))
  {
    var (c', d') := (r.Sub(r.one, c), r.Sub(r.one, d));
    MixExpand(r, d, c', c, x, y, z, t);
    MixExpand(r, c, d', d, x, z, y, t);
    MulLeftSwap(r, d', c', x);
    MulLeftSwap(r, d', c, y);
    MulLeftSwap(r, d, c', z);
    MulLeftSwap(r, d, c, t);
    AddSwap(r, r.Mul(d', r.Mul(c', x)), r.Mul(d', r.Mul(c, y)), r.Mul(d, r.Mul(c', z)), r.Mul(d, r.Mul(c, t)));
  }

  lemma MixExpand<T(!new)>(r: Ring<T>, d: T, c': T, c: T, x: T, y: T, z: T, t: T)
    requires IsRing(r)
    ensures Mix(r, d, r.Add(r.Mul(c', x), r.Mul(c, y)), r.Add(r.Mul(c', z), r.Mul(c, t)))
         == r.Add(r.Add(r.Mul(r.Sub(r.one, d), r.Mul(c', x)), r.Mul(r.Sub(r.one, d), r.Mul(c, y))),
                  r.Add(r.Mul(d, r.Mul(c', z)), r.Mul(d, r.Mul(c, t))))
  {
    Distributes(r, r.Sub(r.one, d), r.Mul(c', x), r.Mul(c, y));
    Distributes(r, d, r.Mul(c', z), r.Mul(c, t));
  }

  lemma InsertBitDouble(j: nat, i: nat, b: nat, p: nat)
    requires b < 2 && p < 2 && i > 0
    ensures InsertBit(2 * j + p, i, b) == 2 * InsertBit(j, i - 1, b) + p
  {
    assert (2 * j + p) / 2 == j && (2 * j + p) % 2 == p;
  }

  lemma FoldedAtDouble<T>(r: Ring<T>, v: seq<T>, n: nat, i: nat, c: T, j: nat, p: nat, lo: nat, hi: nat)
    requires 0 < i < n && |v| == Pow2(n) && j < Pow2(n - 2) && p < 2
    requires lo == InsertBit(j, i - 1, 0) && hi == InsertBit(j, i - 1, 1)
    ensures 2 * j + p < Pow2(n - 1) && 2 * lo + p < |v| && 2 * hi + p < |v|
    ensures FoldedAt(r, v, n, i, c, 2 * j + p) == Mix(r, c, v[2 * lo + p], v[2 * hi + p])
  {
    InsertBitInRange(j, i - 1, 0, n - 1);
    InsertBitInRange(j, i - 1, 1, n - 1);
    InsertBitDouble(j, i, 0, p);
    InsertBitDouble(j, i, 1, p);
  }

  /** The value of the four entries under 2 lo, 2 lo + 1, 2 hi and 2 hi + 1, folded by d and fixed at c. */
  function MixFour<T>(r: Ring<T>, v: seq<T>, c: T, d: T, lo: nat, hi: nat): T
    requires 2 * lo + 1 < |v| && 2 * hi + 1 < |v|
  {
    Mix(r, c, Mix(r, d, v[2 * lo], v[2 * lo + 1]), Mix(r, d, v[2 * hi], v[2 * hi + 1]))
  }

  lemma FixedThenFolded<T(!new)>(r: Ring<T>, v: seq<T>, c: T, d: T, j: nat, w: seq<T>, lo: nat, hi: nat)
    requires IsRing(r) && 2 * lo + 1 < |v| && 2 * hi + 1 < |v| && 2 * j + 1 < |w|
    requires w[2 * j] == Mix(r, c, v[2 * lo], v[2 * hi]) && w[2 * j + 1] == Mix(r, c, v[2 * lo + 1], v[2 * hi + 1])
    ensures FoldPairs(r, w, d)[j] == MixFour(r, v, c, d, lo, hi)
  {
    FoldPairsAt(r, w, d, j);
    MixSwap(r, c, d, v[2 * lo], v[2 * hi], v[2 * lo + 1], v[2 * hi + 1]);
  }

  lemma FoldedThenFixed<T>(r: Ring<T>, v: seq<T>, m: nat, i: nat, c: T, d: T, j: nat, u: seq<T>, lo: nat, hi: nat)
    requires i < m && |u| == Pow2(m) && j < Pow2(m - 1) && u == FoldPairs(r, v, d)
    requires lo == InsertBit(j, i, 0) && hi == InsertBit(j, i, 1) && 2 * lo + 1 < |v| && 2 * hi + 1 < |v|
    ensures FoldedAt(r, u, m, i, c, j) == MixFour(r, v, c, d, lo, hi)
  {
    FoldPairsAt(r, v, d, lo);
    FoldPairsAt(r, v, d, hi);
  }

  /** Entries 2j and 2j + 1 of the folded table. */
  lemma FoldVarEntry<T>(r: Ring<T>, v: seq<T>, n: nat, i: nat, c: T, j: nat, p: nat, lo: nat, hi: nat)
    requires 0 < i < n && |v| == Pow2(n) && j < Pow2(n - 2) && p < 2
    requires lo == InsertBit(j, i - 1, 0) && hi == InsertBit(j, i - 1, 1)
    ensures 2 * j + p < Pow2(n - 1) && 2 * lo + p < |v| && 2 * hi + p < |v|
    ensures FoldVar(r, v, n, i, c)[2 * j + p] == Mix(r, c, v[2 * lo + p], v[2 * hi + p])
  {
    FoldedAtDouble(r, v, n, i, c, j, p, lo, hi);
    FoldPrefixAt(r, v, n, i, c, Pow2(n - 1), 2 * j + p);
  }

  lemma FoldVarPair<T>(r: Ring<T>, v: seq<T>, n: nat, i: nat, c: T, j: nat, w: seq<T>, lo: nat, hi: nat)
    requires 0 < i < n && |v| == Pow2(n) && j < Pow2(n - 2) && w == FoldVar(r, v, n, i, c)
    requires lo == InsertBit(j, i - 1, 0) && hi == InsertBit(j, i - 1, 1)
    ensures 2 * j + 1 < |w| && 2 * lo + 1 < |v| && 2 * hi + 1 < |v|
    ensures w[2 * j] == Mix(r, c, v[2 * lo], v[2 * hi]) && w[2 * j + 1] == Mix(r, c, v[2 * lo + 1], v[2 * hi + 1])
  {
    FoldVarEntry(r, v, n, i, c, j, 0, lo, hi);
    FoldVarEntry(r, v, n, i, c, j, 1, lo, hi);
  }

  /** A table, the same with variable i fixed to c, and the same with variable 0 folded by d. */
  ghost predicate Folds<T>(r: Ring<T>, v: seq<T>, n: nat, i: nat, c: T, d: T, w: seq<T>, u: seq<T>) {
    && 0 < i < n && |v| == Pow2(n) && |w| == |u| == Pow2(n - 1)
    && w == FoldVar(r, v, n, i, c) && u == FoldPairs(r, v, d)
  }

  lemma FoldCommutesAt<T(!new)>(r: Ring<T>, v: seq<T>, n: nat, i: nat, c: T, d: T, j: nat, w: seq<T>, u: seq<T>)
    requires IsRing(r) && Folds(r, v, n, i, c, d, w, u) && j < Pow2(n - 2)
    ensures FoldPairs(r, w, d)[j] == FoldedAt(r, u, n - 1, i - 1, c, j)
  {
    var m, e := n - 1, i - 1;
    var lo, hi := InsertBit(j, e, 0), InsertBit(j, e, 1);
    assert 2 * lo + 1 < |v| && 2 * hi + 1 < |v| && FoldPairs(r, w, d)[j] == MixFour(r, v, c, d, lo, hi) by {
      FoldVarPair(r, v, n, i, c, j, w, lo, hi);
      FixedThenFolded(r, v, c, d, j, w, lo, hi);
    }
    FoldedThenFixed(r, v, m, e, c, d, j, u, lo, hi);
  }

  lemma {:induction false} FoldCommutesUpTo<T(!new)>(r: Ring<T>, v: seq<T>, n: nat, i: nat, c: T, d: T, k: nat,
                                                     w: seq<T>, u: seq<T>)
    requires IsRing(r) && Folds(r, v, n, i, c, d, w, u) && k <= Pow2(n - 2)
    ensures FoldPairs(r, w, d)[..k] == FoldPrefix(r, u, n - 1, i - 1, c, k)
  {
    if k > 0 {
      FoldCommutesUpTo(r, v, n, i, c, d, k - 1, w, u);
      FoldCommutesAt(r, v, n, i, c, d, k - 1, w, u);
    }
  }

  /** Fixing variable i, then folding variable 0, is folding variable 0, then fixing variable i - 1. */
  lemma FoldCommutes<T(!new)>(r: Ring<T>, v: seq<T>, n: nat, i: nat, c: T, d: T)
    requires IsRing(r) && 0 < i < n && |v| == Pow2(n)
    ensures FoldPairs(r, FoldVar(r, v, n, i, c), d) == FoldVar(r, FoldPairs(r, v, d), n - 1, i - 1, c)
  {
    var w := FoldVar(r, v, n, i, c);
    FoldCommutesUpTo(r, v, n, i, c, d, Pow2(n - 2), w, FoldPairs(r, v, d));
    assert FoldPairs(r, w, d)[..Pow2(n - 2)] == FoldPairs(r, w, d);
  }

  lemma {:induction false} FoldFirst<T>(r: Ring<T>, v: seq<T>, n: nat, c: T, k: nat)
    requires n > 0 && |v| == Pow2(n) && k <= Pow2(n - 1)
    ensures FoldPrefix(r, v, n, 0, c, k) == FoldPairs(r, v, c)[..k]
  {
    if k > 0 {
      FoldFirst(r, v, n, c, k - 1);
      FoldPairsAt(r, v, c, k - 1);
    }
  }

  lemma FoldPairsFixesFirst<T>(r: Ring<T>, v: seq<T>, n: nat, c: T)
    requires n > 0 && |v| == Pow2(n)
    ensures FoldVar(r, v, n, 0, c) == FoldPairs(r, v, c)
  {
    FoldFirst(r, v, n, c, Pow2(n - 1));
    assert FoldPairs(r, v, c)[..Pow2(n - 1)] == FoldPairs(r, v, c);
  }

  /** Evaluation folds both tables once. */
  lemma EvalStep<T>(r: Ring<T>, w: seq<T>, v: seq<T>, point: seq<T>, full: seq<T>)
    requires point != [] && full != [] && |w| == Pow2(|point|) && |v| == Pow2(|full|)
    requires EvalTable(r, FoldPairs(r, w, point[0]), point[1..]) == EvalTable(r, FoldPairs(r, v, full[0]), full[1..])
    ensures EvalTable(r, w, point) == EvalTable(r, v, full)
  {
  }

  lemma InsertFirst<T>(point: seq<T>, i: nat, c: T)
    requires i <= |point|
    ensures InsertAt(point, i, c)[0] == if i == 0 then c else point[0]
    ensures InsertAt(point, i, c)[1..] == if i == 0 then point else InsertAt(point[1..], i - 1, c)
  {
  }

  /** The step from the remaining coordinates to all of them. */
  lemma PartialFromRest<T(!new)>(r: Ring<T>, v: seq<T>, n: nat, i: nat, c: T, point: seq<T>, u: seq<T>, rest: seq<T>,
                                 m: nat, e: nat)
    requires IsRing(r) && i < n && |v| == Pow2(n) && m == n - 1 == |point| && e == i - 1
    requires u == FoldPairs(r, v, point[0]) && |u| == Pow2(m) && rest == point[1..] && |rest| == m - 1
    requires EvalTable(r, FoldVar(r, u, m, e, c), rest) == EvalTable(r, u, InsertAt(rest, e, c))
    ensures EvalTable(r, FoldVar(r, v, n, i, c), point) == EvalTable(r, v, InsertAt(point, i, c))
  {
    var w, full := FoldVar(r, v, n, i, c), InsertAt(point, i, c);
    FoldCommutes(r, v, n, i, c, point[0]);
    InsertFirst(point, i, c);
    EvalStep(r, w, v, point, full);
  }

  /** The table with variable i fixed agrees with evaluation at the point with coordinate i inserted. */
  lemma {:induction false} FoldVarIsPartial<T(!new)>(r: Ring<T>, v: seq<T>, n: nat, i: nat, c: T, point: seq<T>)
    requires IsRing(r) && i < n && |v| == Pow2(n) && |point| == n - 1
    ensures EvalTable(r, FoldVar(r, v, n, i, c), point) == EvalTable(r, v, InsertAt(point, i, c))
    decreases i
  {
    if i == 0 {
      InsertFirst(point, i, c);
      FoldPairsFixesFirst(r, v, n, c);
    } else {
      var u, rest, m, e := FoldPairs(r, v, point[0]), point[1..], n - 1, i - 1;
      FoldVarIsPartial(r, u, m, e, c, rest);
      PartialFromRest(r, v, n, i, c, point, u, rest, m, e);
    }
  }

  /** Selecting a half is fixing the variable to the bit. */
  lemma {:induction false} FixIsFold<T(!new)>(r: Ring<T>, v: seq<T>, n: nat, i: nat, b: nat, k: nat)
    requires IsRing(r) && i < n && |v| == Pow2(n) && b < 2 && k <= Pow2(n - 1)
    ensures FixPrefix(v, n, i, b, k) == FoldPrefix(r, v, n, i, if b == 1 then r.one else r.zero, k)
  {
    if k > 0 {
      FixIsFold(r, v, n, i, b, k - 1);
      FixedAtIsFolded(r, v, n, i, b, k - 1);
    }
  }

  lemma FixedAtIsFolded<T(!new)>(r: Ring<T>, v: seq<T>, n: nat, i: nat, b: nat, j: nat)
    requires IsRing(r) && i < n && |v| == Pow2(n) && b < 2 && j < Pow2(n - 1)
    ensures InsertBit(j, i, b) < |v| && FoldedAt(r, v, n, i, if b == 1 then r.one else r.zero, j)
        == v[InsertBit(j, i, b)]
  {
    InsertBitInRange(j, i, 0, n);
    InsertBitInRange(j, i, 1, n);
    MixSelects(r, v[InsertBit(j, i, 0)], v[InsertBit(j, i, 1)]);
  }

  /** `fix` agrees with evaluation at the bit. */
  lemma FixIsPartial<T(!new)>(r: Ring<T>, v: seq<T>, n: nat, i: nat, b: nat, point: seq<T>)
    requires IsRing(r) && i < n && |v| == Pow2(n) && b < 2 && |point| == n - 1
    ensures EvalTable(r, FixVar(v, n, i, b), point)
        == EvalTable(r, v, InsertAt(point, i, if b == 1 then r.one else r.zero))
  {
    FixIsFold(r, v, n, i, b, Pow2(n - 1));
    FoldVarIsPartial(r, v, n, i, if b == 1 then r.one else r.zero, point);
  }

  // ---------- which variable `fold` fixes ----------

  /** `fold` at the last variable delegates to `fold_last`, which combines neighbours. */
  function FoldedVariable(n: nat, i: nat): (k: nat)
    requires i < n
    ensures k < n
  {
    if i == n - 1 then 0 else i
  }

  /** Fold at variable i is partial evaluation in variable i, for every table and every point. */
  ghost predicate FoldFixes<T(!new)>(r: Ring<T>, n: nat, i: nat)
    requires i < n
  {
    forall v: seq<T>, c: T, point: seq<T> :: |v| == Pow2(n) && |point| == n - 1 ==>
      EvalTable(r, FoldVar(r, v, n, FoldedVariable(n, i), c), point) == EvalTable(r, v, InsertAt(point, i, c))
  }

  /** Entry idx is bit 0 of idx: the table of the polynomial x_0. */
  function LowBitTable<T>(r: Ring<T>, n: nat): (v: seq<T>)
    ensures |v| == Pow2(n)
  {
    seq(Pow2(n), idx requires 0 <= idx < Pow2(n) => if idx % 2 == 1 then r.one else r.zero)
  }

  lemma LowBitFolded<T(!new)>(r: Ring<T>, n: nat)
    requires IsRing(r) && n >= 2
    ensures EvalTable(r, FoldVar(r, LowBitTable(r, n), n, 0, r.zero), BitPoint(r, 1, n - 1)) == r.zero
  {
    var v := LowBitTable(r, n);
    FoldFirst(r, v, n, r.zero, Pow2(n - 1));
    FoldPairsAt(r, v, r.zero, 1);
    MixSelects(r, v[2], v[3]);
    EvalAtBits(r, FoldVar(r, v, n, 0, r.zero), n - 1, 1);
  }

  lemma LowBitDirect<T(!new)>(r: Ring<T>, n: nat)
    requires IsRing(r) && n >= 2
    ensures EvalTable(r, LowBitTable(r, n), InsertAt(BitPoint(r, 1, n - 1), n - 1, r.zero)) == r.one
  {
    var point := BitPoint(r, 1, n - 1);
    BitPointAppend(r, 1, n - 1);
    assert InsertAt(point, n - 1, r.zero) == point + [r.zero];
    EvalAtBits(r, LowBitTable(r, n), n, 1);
  }

  /** The polynomial x_0 in two or more variables shows that `fold` at the last one fixes variable 0. */
  lemma FoldLastMisses<T(!new)>(r: Ring<T>, n: nat)
    requires IsRing(r) && n >= 2 && r.one != r.zero
    ensures !FoldFixes(r, n, n - 1)
  {
    LowBitFolded(r, n);
    LowBitDirect(r, n);
    var v, point := LowBitTable(r, n), BitPoint(r, 1, n - 1);
    assert EvalTable(r, FoldVar(r, v, n, FoldedVariable(n, n - 1), r.zero), point) != EvalTable(r, v,
        InsertAt(point, n - 1, r.zero));
  }

  lemma {:induction false} BitPointAppend<T>(r: Ring<T>, idx: nat, n: nat)
    requires idx < Pow2(n)
    ensures BitPoint(r, idx, n) + [r.zero] == BitPoint(r, idx, n + 1)
  {
    if n > 0 {
      BitPointAppend(r, idx / 2, n - 1);
    }
  }

  /** `fold` fixes the variable it is given if and only if that is not the last of several. */
  lemma FoldFixesIff<T(!new)>(r: Ring<T>, n: nat, i: nat)
    requires IsRing(r) && i < n && r.one != r.zero
    ensures FoldFixes(r, n, i) <==> i < n - 1 || n == 1
  {
    if i < n - 1 || n == 1 {
      forall v: seq<T>, c: T, point: seq<T> | |v| == Pow2(n) && |point| == n - 1
        ensures EvalTable(r, FoldVar(r, v, n, FoldedVariable(n, i), c), point) == EvalTable(r, v, InsertAt(point, i, c))
      {
        FoldVarIsPartial(r, v, n, i, c, point);
      }
    } else {
      FoldLastMisses(r, n);
    }
  }

  // ---------- the in-place loops ----------

  /** Combine neighbours to the front of the buffer, reading ahead of the write position. */
  method FoldBuffer<T>(r: Ring<T>, buf: array<T>, size: nat, c: T) returns (half: nat)
    requires size <= buf.Length && size % 2 == 0
    modifies buf
    ensures half == size / 2 && buf[..half] == FoldPairs(r, old(buf[..size]), c)
  {
    ghost var was := buf[..size];
    ghost var target := FoldPairs(r, was, c);
    half := size / 2;
    for j := 0 to half
      invariant forall p :: 0 <= p < j ==> buf[p] == target[p]
      invariant forall p :: j <= p < size ==> buf[p] == was[p]
    {
      FoldPairsAt(r, was, c, j);
      buf[j] := Mix(r, c, buf[2 * j], buf[2 * j + 1]);
    }
  }

  /** A block that starts inside the table ends inside it, and half of it inside the folded table. */
  lemma BlockFits(block: nat, i: nat, n: nat)
    requires i < n && Shl(block, i + 1) < Pow2(n)
    ensures Shl(block, i + 1) + Pow2(i + 1) <= Pow2(n)
    ensures Shl(block, i) + Pow2(i) <= Pow2(n - 1)
  {
    ShlBelow(block, n - i - 1, i + 1);
    ShlBlockFits(block, n - i - 1, i + 1);
    ShlBlockFits(block, n - i - 1, i);
  }

  lemma {:induction false} ShlBelow(c: nat, k: nat, e: nat)
    requires Shl(c, e) < Pow2(k + e)
    ensures c < Pow2(k)
  {
    if e > 0 {
      ShlBelow(c, k, e - 1);
    }
  }

  /** Entry o of the block's half: what both inner loops write. */
  lemma FoldedEntry<T>(r: Ring<T>, v: seq<T>, n: nat, i: nat, c: T, block: nat, o: nat, j: nat, k: nat)
    requires i < n && |v| == Pow2(n) && o < Pow2(i) && j < Pow2(n - 1)
    requires j == Shl(block, i) + o && k == Shl(block, i + 1) + o && k + Pow2(i) < |v|
    ensures FoldVar(r, v, n, i, c)[j] == Mix(r, c, v[k], v[k + Pow2(i)])
  {
    assert FoldVar(r, v, n, i, c)[j] == FoldedAt(r, v, n, i, c, j) by {
      FoldPrefixAt(r, v, n, i, c, Pow2(n - 1), j);
    }
    assert InsertBit(j, i, 0) == k && InsertBit(j, i, 1) == k + Pow2(i) by {
      InsertBitAt(block, o, i, 0);
      InsertBitAt(block, o, i, 1);
    }
  }

  lemma {:induction false} FixPrefixAt<T>(v: seq<T>, n: nat, i: nat, b: nat, k: nat, j: nat)
    requires i < n && |v| == Pow2(n) && b < 2 && j < k <= Pow2(n - 1)
    ensures InsertBit(j, i, b) < |v| && FixPrefix(v, n, i, b, k)[j] == v[InsertBit(j, i, b)]
  {
    if j < k - 1 {
      FixPrefixAt(v, n, i, b, k - 1, j);
    } else {
      InsertBitInRange(j, i, b, n);
    }
  }

  lemma FixedEntry<T>(v: seq<T>, n: nat, i: nat, b: nat, block: nat, o: nat, j: nat, k: nat)
    requires i < n && |v| == Pow2(n) && b < 2 && o < Pow2(i) && j < Pow2(n - 1)
    requires j == Shl(block, i) + o && k == Shl(block, i + 1) + (if b == 1 then Pow2(i) else 0) + o
    ensures k < |v| && FixVar(v, n, i, b)[j] == v[k]
  {
    FixPrefixAt(v, n, i, b, Pow2(n - 1), j);
    InsertBitAt(block, o, i, b);
  }

  ghost predicate AgreesTo<T>(buf: array<T>, target: seq<T>, k: nat)
    requires k <= buf.Length && k <= |target|
    reads buf
  {
    forall p :: 0 <= p < k ==> buf[p] == target[p]
  }

  ghost predicate UntouchedFrom<T>(buf: array<T>, was: seq<T>, k: nat)
    requires |was| <= buf.Length
    reads buf
  {
    forall p :: k <= p < |was| ==> buf[p] == was[p]
  }

  /** The strided pairwise combination of `fold`. */
  method FoldStrided<T>(r: Ring<T>, buf: array<T>, n: nat, i: nat, c: T) returns (write: nat)
    requires i < n && Pow2(n) <= buf.Length
    modifies buf
    ensures write == Pow2(n - 1) && buf[..write] == FoldVar(r, old(buf[..Pow2(n)]), n, i, c)
  {
    var size, stride := Pow2(n), Pow2(i);
    ghost var was, block := buf[..size], 0;
    ghost var target := FoldVar(r, was, n, i, c);
    var base := 0;
    write := 0;
    ShlZero(i);
    while base < size
      invariant base == Shl(block, i + 1) && write == Shl(block, i) && base == 2 * write && base <= size
      invariant AgreesTo(buf, target, write) && UntouchedFrom(buf, was, base)
      decreases size - base
    {
      BlockFits(block, i, n);
      BlockFolded(r, was, n, i, c, block, target, write, base, stride);
      write := FoldBlock(r, buf, was, target, stride, c, base, write);
      base := base + 2 * stride;
      ShlNext(block, i);
      block := block + 1;
    }
  }

  lemma {:induction false} ShlZero(e: nat)
    ensures Shl(0, e) == 0
  {
    if e > 0 {
      ShlZero(e - 1);
    }
  }

  lemma BlockFolded<T>(r: Ring<T>, was: seq<T>, n: nat, i: nat, c: T, block: nat, target: seq<T>, start: nat, base: nat,
                       stride: nat)
    requires i < n && |was| == Pow2(n) && target == FoldVar(r, was, n, i, c)
    requires start == Shl(block, i) && base == Shl(block, i + 1) && stride == Pow2(i)
    requires base + 2 * stride <= Pow2(n) && start + stride <= Pow2(n - 1)
    ensures forall o :: 0 <= o < stride ==> EntryFolded(r, was, target, c, start, base, stride, o)
  {
    forall o | 0 <= o < stride
      ensures EntryFolded(r, was, target, c, start, base, stride, o)
    {
      FoldedEntry(r, was, n, i, c, block, o, start + o, base + o);
    }
  }

  ghost predicate EntryFolded<T>(r: Ring<T>, was: seq<T>, target: seq<T>, c: T, start: nat, base: nat, stride: nat,
                                 o: nat) {
    && start + o < |target| && base + o + stride < |was|
    && target[start + o] == Mix(r, c, was[base + o], was[base + o + stride])
  }

  /** One block of `fold`. */
  method FoldBlock<T>(r: Ring<T>, buf: array<T>, ghost was: seq<T>, ghost target: seq<T>, stride: nat, c: T, base: nat,
                      start: nat)
    returns (write: nat)
    requires start <= base && base + 2 * stride <= |was| <= buf.Length && start + stride <= |target| <= |was|
    requires forall o :: 0 <= o < stride ==> EntryFolded(r, was, target, c, start, base, stride, o)
    requires AgreesTo(buf, target, start) && UntouchedFrom(buf, was, base)
    modifies buf
    ensures write == start + stride && AgreesTo(buf, target, write) && UntouchedFrom(buf, was, base + 2 * stride)
  {
    write := start;
    for o := 0 to stride
      invariant write == start + o
      invariant AgreesTo(buf, target, write) && UntouchedFrom(buf, was, base + o)
    {
      assert EntryFolded(r, was, target, c, start, base, stride, o);
      var v0 := buf[base + o];
      var v1 := buf[base + o + stride];
      buf[write] := Mix(r, c, v0, v1);
      write := write + 1;
    }
  }

  /** The compaction of `fix`. */
  method FixStrided<T>(buf: array<T>, n: nat, i: nat, want: nat) returns (write: nat)
    requires i < n && Pow2(n) <= buf.Length && want < 2
    modifies buf
    ensures write == Pow2(n - 1) && buf[..write] == FixVar(old(buf[..Pow2(n)]), n, i, want)
  {
    var size, stride := Pow2(n), Pow2(i);
    ghost var was, block := buf[..size], 0;
    ghost var target := FixVar(was, n, i, want);
    var base := 0;
    write := 0;
    ShlZero(i);
    while base < size
      invariant base == Shl(block, i + 1) && write == Shl(block, i) && base == 2 * write && base <= size
      invariant AgreesTo(buf, target, write) && UntouchedFrom(buf, was, base)
      decreases size - base
    {
      BlockFits(block, i, n);
      write := FixBlock(buf, was, target, n, i, want, block, base, write);
      base := base + 2 * stride;
      ShlNext(block, i);
      block := block + 1;
    }
  }

  /** One block of `fix`. */
  method FixBlock<T>(buf: array<T>, ghost was: seq<T>, ghost target: seq<T>, n: nat, i: nat, want: nat,
                     ghost block: nat, base: nat, start: nat)
    returns (write: nat)
    requires i < n && want < 2 && |was| == Pow2(n) <= buf.Length && target == FixVar(was, n, i, want)
    requires base == Shl(block, i + 1) && start == Shl(block, i) && base == 2 * start
    requires base + Pow2(i + 1) <= Pow2(n) && start + Pow2(i) <= Pow2(n - 1)
    requires AgreesTo(buf, target, start) && UntouchedFrom(buf, was, base)
    modifies buf
    ensures write == start + Pow2(i) && AgreesTo(buf, target, write) && UntouchedFrom(buf, was, base + Pow2(i + 1))
  {
    var stride := Pow2(i);
    var first := base + if want == 1 then stride else 0;
    write := start;
    for o := 0 to stride
      invariant write == start + o
      invariant AgreesTo(buf, target, write) && UntouchedFrom(buf, was, base + o)
    {
      FixedEntry(was, n, i, want, block, o, write, first + o);
      buf[write] := buf[first + o];
      write := write + 1;
    }
  }

  // ---------- the class ----------

  /** A table in a buffer that only shrinks: `len` of its entries are in use. */
  class MLE<T> {
    var buf: array<T>
    var len: nat
    var n: nat

    ghost predicate Valid()
      reads this
    {
      len == Pow2(n) && len <= buf.Length
    }

    ghost function Values(): (v: seq<T>)
      requires Valid()
      reads this, buf
      ensures |v| == Pow2(n)
    {
      buf[..len]
    }

    constructor FromValues(values: seq<T>)
      requires IsPowerOfTwo(|values|)
      ensures Valid() && Values() == values && fresh(buf)
    {
      buf := new T[|values|](k requires 0 <= k < |values| => values[k]);
      len := |values|;
      n := Log2(|values|);
      new;
      assert buf[..len] == values;
    }

    /** Evaluate at a point on a copy of the table. */
    method Eval(r: Ring<T>, point: seq<T>) returns (y: T)
      requires Valid() && |point| == n
      ensures y == EvalTable(r, Values(), point)
    {
      var work := new T[len](k requires 0 <= k < len reads this, buf requires len <= buf.Length => buf[k]);
      assert work[..len] == Values();
      assert work[..len] == work[..];
      y := EvalInPlace(r, work, point);
    }

    /** The loop of `eval`: halve the working copy once per coordinate. */
    static method EvalInPlace(r: Ring<T>, work: array<T>, point: seq<T>) returns (y: T)
      requires work.Length == Pow2(|point|)
      modifies work
      ensures y == EvalTable(r, old(work[..]), point)
    {
      var size: nat := work.Length;
      ghost var target := EvalTable(r, work[..], point);
      assert work[..size] == work[..] && point[0..] == point;
      for i := 0 to |point|
        invariant size <= work.Length && TableOf(r, work[..size], point, i, target)
      {
        EvalTableStep(r, work[..size], point, i, target);
        size := FoldBuffer(r, work, size, point[i]);
      }
      y := work[0];
    }

    /** `fold_last`: despite its name it fixes variable 0. */
    method FoldLast(r: Ring<T>, c: T)
      requires Valid()
      modifies this, buf
      ensures Valid() && buf == old(buf)
      ensures old(n) == 0 ==> n == 0 && Values() == old(Values())
      ensures old(n) > 0 ==> n == old(n) - 1 && Values() == FoldPairs(r, old(Values()), c)
    {
      if n == 0 {
        return;
      }
      len := FoldBuffer(r, buf, len, c);
      n := n - 1;
    }

    method Fix(varIdx: nat, bit: bool)
      requires Valid() && varIdx < n
      modifies this, buf
      ensures Valid() && buf == old(buf) && n == old(n) - 1
      ensures Values() == FixVar(old(Values()), old(n), varIdx, if bit then 1 else 0)
    {
      len := FixStrided(buf, n, varIdx, if bit then 1 else 0);
      n := n - 1;
    }

    method Fold(r: Ring<T>, varIdx: nat, c: T)
      requires Valid() && varIdx < n
      modifies this, buf
      ensures Valid() && buf == old(buf) && n == old(n) - 1
      ensures Values() == FoldVar(r, old(Values()), old(n), FoldedVariable(old(n), varIdx), c)
    {
      if varIdx == n - 1 {
        FoldPairsFixesFirst(r, Values(), n, c);
        FoldLast(r, c);
        return;
      }
      len := FoldStrided(r, buf, n, varIdx, c);
      n := n - 1;
    }
  }
}
