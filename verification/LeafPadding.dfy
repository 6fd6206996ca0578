/** When pairing the last node of odd levels with itself, as the spine does, amounts to padding the leaves with
    copies of the last one up to a power of two: a matter of the leaf count alone. */
module LeafPadding {
  import opened Arith
  import opened Dns

  // ---------- padding ----------

  function Copies<T>(x: T, k: nat): seq<T> { seq(k, _ => x) }

  function PadTo<T>(nodes: seq<T>, x: T, size: nat): (padded: seq<T>)
    requires |nodes| <= size
    ensures |padded| == size
  {
    nodes + Copies(x, size - |nodes|)
  }

  /** The nodes, then copies of x up to the next power of two. */
  function PadWith<T>(nodes: seq<T>, x: T): (padded: seq<T>)
    ensures |padded| == NextPowerOfTwo(|nodes|)
  {
    PadTo(nodes, x, NextPowerOfTwo(|nodes|))
  }

  function PadLeaves<T>(leaves: seq<T>): (padded: seq<T>)
    requires leaves != []
    ensures |padded| == NextPowerOfTwo(|leaves|)
  {
    PadWith(leaves, leaves[|leaves| - 1])
  }

  /** A power of two, or odd with a benign next level. */
  predicate Benign(n: nat)
    requires n > 0
  {
    IsPowerOfTwo(n) || (n % 2 == 1 && Benign((n + 1) / 2))
  }

  /** n - 1 in binary is a block of a ones followed by b zeros. */
  predicate OnesThenZeros(n: nat, a: nat, b: nat) { n == Shl(Pow2(a) - 1, b) + 1 }

  /** Benign in closed form. */
  lemma {:induction false} BenignIff(n: nat)
    requires n > 0
    ensures Benign(n) <==> exists a: nat, b: nat :: OnesThenZeros(n, a, b)
  {
    if IsPowerOfTwo(n) {
      assert OnesThenZeros(n, Log2(n), 0);
    } else {
      var up := (n + 1) / 2;
      if n % 2 == 1 {
        BenignIff(up);
        if Benign(up) {
          var a: nat, b: nat :| OnesThenZeros(up, a, b);
          OneMoreZero(n, up, a, b, b + 1);
        }
      }
      if a: nat, b: nat :| OnesThenZeros(n, a, b) {
        if b == 0 {
          PowIsPower(a);
        } else {
          OneMoreZero(n, up, a, b - 1, b);
        }
      }
    }
  }

  /** Going up one level drops a zero. */
  lemma OneMoreZero(n: nat, up: nat, a: nat, b: nat, next: nat)
    requires up == (n + 1) / 2 && next == b + 1
    ensures OnesThenZeros(n, a, next) <==> n % 2 == 1 && OnesThenZeros(up, a, b)
  {
    var x := Shl(Pow2(a) - 1, b);
    assert Shl(Pow2(a) - 1, next) == 2 * x;
    OddSplits(n, up, x);
  }

  lemma OddSplits(n: nat, up: nat, x: nat)
    requires up == (n + 1) / 2
    ensures n == 2 * x + 1 <==> n % 2 == 1 && up == x + 1
  {
  }

  lemma FirstPair<T>(combine: (T, T) -> T, x: T, y: T, rest: seq<T>)
    ensures HashPairs(combine, [x, y] + rest) == [combine(x, y)] + HashPairs(combine, rest)
  {
    assert ([x, y] + rest)[2..] == rest;
  }

  /** Whole pairs in front hash on their own. */
  lemma {:induction false} PairsOfBoth<T>(combine: (T, T) -> T, x: seq<T>, y: seq<T>)
    requires |x| % 2 == 0
    ensures HashPairs(combine, x + y) == HashPairs(combine, x) + HashPairs(combine, y)
  {
    if x == [] {
      assert x + y == y;
    } else {
      var rest := x[2..];
      PairsOfBoth(combine, rest, y);
      FirstPair(combine, x[0], x[1], rest);
      FirstPair(combine, x[0], x[1], rest + y);
      assert x == [x[0], x[1]] + rest && x + y == [x[0], x[1]] + (rest + y);
    }
  }

  lemma {:induction false} PairsOfCopies<T>(combine: (T, T) -> T, x: T, k: nat)
    ensures HashPairs(combine, Copies(x, 2 * k)) == Copies(combine(x, x), k)
  {
    if k > 0 {
      PairsOfCopies(combine, x, k - 1);
      assert Copies(x, 2 * k)[2..] == Copies(x, 2 * (k - 1));
      assert Copies(combine(x, x), k) == [combine(x, x)] + Copies(combine(x, x), k - 1);
    }
  }

  /** An odd last node is paired with itself. */
  lemma {:induction false} PairsOfOdd<T>(combine: (T, T) -> T, nodes: seq<T>, x: T)
    requires |nodes| % 2 == 1 && nodes[|nodes| - 1] == x
    ensures HashPairs(combine, nodes + [x]) == HashPairs(combine, nodes)
    ensures HashPairs(combine, nodes)[(|nodes| - 1) / 2] == combine(x, x)
  {
    if |nodes| > 1 {
      PairsOfOdd(combine, nodes[2..], x);
      assert (nodes + [x])[2..] == nodes[2..] + [x];
    }
  }

  /** The next power of two halves with the level. */
  lemma PowerHalves(n: nat, half: nat)
    requires n > 1 && half == (n + 1) / 2
    ensures NextPowerOfTwo(n) == 2 * NextPowerOfTwo(half)
  {
  }

  /** Whole pairs, then k pairs of copies. */
  lemma {:induction false} PadPairs<T>(combine: (T, T) -> T, nodes: seq<T>, x: T, k: nat)
    requires |nodes| % 2 == 0
    ensures HashPairs(combine, nodes + Copies(x, 2 * k)) == HashPairs(combine, nodes) + Copies(combine(x, x), k)
  {
    PairsOfBoth(combine, nodes, Copies(x, 2 * k));
    PairsOfCopies(combine, x, k);
  }

  lemma PadToIs<T>(nodes: seq<T>, x: T, size: nat, k: nat)
    requires |nodes| + k == size
    ensures PadTo(nodes, x, size) == nodes + Copies(x, k)
  {
  }

  lemma PadOnce<T>(nodes: seq<T>, x: T, size: nat)
    requires |nodes| < size
    ensures PadTo(nodes + [x], x, size) == PadTo(nodes, x, size)
  {
  }

  lemma {:induction false} EvenTo<T>(combine: (T, T) -> T, nodes: seq<T>, x: T, half: nat)
    requires |nodes| % 2 == 0 && |nodes| <= 2 * half
    ensures HashPairs(combine, PadTo(nodes, x, 2 * half)) == PadTo(HashPairs(combine, nodes), combine(x, x), half)
  {
    var up, size := HashPairs(combine, nodes), 2 * half;
    var k := half - |up|;
    assert PadTo(nodes, x, size) == nodes + Copies(x, 2 * k) by { PadToIs(nodes, x, size, 2 * k); }
    assert PadTo(up, combine(x, x), half) == up + Copies(combine(x, x), k) by { PadToIs(up, combine(x, x), half, k); }
    PadPairs(combine, nodes, x, k);
  }

  lemma {:induction false} OddTo<T>(combine: (T, T) -> T, nodes: seq<T>, x: T, half: nat)
    requires |nodes| % 2 == 1 && |nodes| < 2 * half && x == nodes[|nodes| - 1]
    ensures HashPairs(combine, PadTo(nodes, x, 2 * half)) == PadTo(HashPairs(combine, nodes), combine(x, x), half)
  {
    PairsOfOdd(combine, nodes, x);
    EvenTo(combine, nodes + [x], x, half);
    PadOnce(nodes, x, 2 * half);
  }

  /** A padded even level: its parents, padded with the parent of two pads. */
  lemma {:induction false} EvenLevel<T>(combine: (T, T) -> T, nodes: seq<T>, x: T)
    requires |nodes| > 1 && |nodes| % 2 == 0
    ensures HashPairs(combine, PadWith(nodes, x)) == PadWith(HashPairs(combine, nodes), combine(x, x))
  {
    var half := |HashPairs(combine, nodes)|;
    PowerHalves(|nodes|, half);
    EvenTo(combine, nodes, x, NextPowerOfTwo(half));
  }

  /** A padded odd level, padded with its own last node. */
  lemma {:induction false} OddLevel<T>(combine: (T, T) -> T, nodes: seq<T>)
    requires |nodes| > 1 && |nodes| % 2 == 1
    ensures HashPairs(combine, PadLeaves(nodes)) == PadLeaves(HashPairs(combine, nodes))
  {
    var up, x := HashPairs(combine, nodes), nodes[|nodes| - 1];
    var half := NextPowerOfTwo(|up|);
    assert NextPowerOfTwo(|nodes|) == 2 * half by { PowerHalves(|nodes|, |up|); }
    assert HashPairs(combine, PadTo(nodes, x, 2 * half)) == PadTo(up, combine(x, x), half) by {
      OddTo(combine, nodes, x, half);
    }
    assert up[|up| - 1] == combine(x, x) by { PairsOfOdd(combine, nodes, x); }
  }

  /** On benign leaf counts the two trees have one root, for every combine function and all leaves. */
  lemma {:induction false} BenignPads<T>(combine: (T, T) -> T, leaves: seq<T>)
    requires leaves != [] && Benign(|leaves|)
    ensures Root(combine, PadLeaves(leaves)) == Root(combine, leaves)
    decreases |leaves|
  {
    if IsPowerOfTwo(|leaves|) {
      NextOfPower(|leaves|);
      assert PadLeaves(leaves) == leaves;
    } else {
      OddLevel(combine, leaves);
      BenignPads(combine, HashPairs(combine, leaves));
    }
  }

  /** Parents that agree come from pairs that agree. */
  lemma FirstPairsAlike(a: seq<Shape>, b: seq<Shape>, p: seq<Shape>, q: seq<Shape>)
    requires |a| >= 2 && |b| >= 2 && [Join(a[0], a[1])] + p <= [Join(b[0], b[1])] + q
    ensures a[..2] == b[..2] && p <= q
  {
    PrefixOfBoth(Join(a[0], a[1]), p, Join(b[0], b[1]), q);
    assert a[..2] == [a[0], a[1]] && b[..2] == [b[0], b[1]];
  }

  lemma PairUnfolds(a: seq<Shape>, rest: seq<Shape>)
    requires |a| >= 2 && rest == a[2..]
    ensures HashPairs(Joining(), a) == [Join(a[0], a[1])] + HashPairs(Joining(), rest)
  {
  }

  lemma PrefixOfBoth<T>(x: T, p: seq<T>, y: T, q: seq<T>)
    requires [x] + p <= [y] + q
    ensures x == y && p <= q
  {
    assert ([x] + p)[0] == ([y] + q)[0];
    assert p == ([x] + p)[1..] && q == ([y] + q)[1..];
  }

  // ---------- on other leaf counts the roots differ ----------

  ghost predicate Distinct(nodes: seq<Shape>) { forall i, j :: 0 <= i < j < |nodes| ==> nodes[i] != nodes[j] }

  /** Parents determine their children, an odd last child twice. */
  lemma {:induction false} PairsDetermine(a: seq<Shape>, b: seq<Shape>)
    requires |b| % 2 == 0 && |a| <= |b| && HashPairs(Joining(), a) <= HashPairs(Joining(), b)
    ensures a <= b && (|a| % 2 == 1 ==> |b| > |a| && b[|a|] == a[|a| - 1])
  {
    if |a| == 1 {
      assert HashPairs(Joining(), a)[0] == HashPairs(Joining(), b)[0];
    } else if |a| > 1 {
      var restA, restB := a[2..], b[2..];
      assert a[..2] == b[..2] && HashPairs(Joining(), restA) <= HashPairs(Joining(), restB) by {
        PairUnfolds(a, restA);
        PairUnfolds(b, restB);
        FirstPairsAlike(a, b, HashPairs(Joining(), restA), HashPairs(Joining(), restB));
      }
      PairsDetermine(restA, restB);
      assert a == a[..2] + restA && b == b[..2] + restB;
    }
  }

  /** One root over n nodes and over a power of two of them: the n nodes come first, and an odd last one twice. */
  lemma {:induction false} RootDetermines(a: seq<Shape>, b: seq<Shape>)
    requires a != [] && |b| == NextPowerOfTwo(|a|) && Root(Joining(), a) == Root(Joining(), b)
    ensures a <= b && (|a| > 1 && |a| % 2 == 1 ==> |b| > |a| && b[|a|] == a[|a| - 1])
    decreases |a|
  {
    if |a| == 1 {
      assert a == [a[0]] && b == [b[0]];
    } else {
      PowerHalves(|a|, |HashPairs(Joining(), a)|);
      RootDetermines(HashPairs(Joining(), a), HashPairs(Joining(), b));
      PairsDetermine(a, b);
    }
  }

  /** The last parent of an even level. */
  lemma {:induction false} LastPair(a: seq<Shape>)
    requires |a| > 0 && |a| % 2 == 0
    ensures HashPairs(Joining(), a)[|a| / 2 - 1] == Join(a[|a| - 2], a[|a| - 1])
  {
    if |a| > 2 {
      LastPair(a[2..]);
    }
  }

  /** Off the powers of two, padding with anything but the last node changes the root. */
  lemma {:induction false} PaddingShows(a: seq<Shape>, x: Shape)
    requires a != [] && !IsPowerOfTwo(|a|) && x != a[|a| - 1]
    ensures Root(Joining(), a) != Root(Joining(), PadWith(a, x))
    decreases |a|
  {
    var padded := PadWith(a, x);
    if |a| % 2 == 0 {
      EvenLevel(Joining(), a, x);
      LastPair(a);
      PaddingShows(HashPairs(Joining(), a), Join(x, x));
    } else {
      assert padded[|a|] == x;
      if Root(Joining(), a) == Root(Joining(), padded) {
        RootDetermines(a, padded);
      }
    }
  }

  lemma {:induction false} DistinctUp(a: seq<Shape>)
    requires Distinct(a)
    ensures Distinct(HashPairs(Joining(), a))
    ensures forall p :: p in HashPairs(Joining(), a) ==> p.Join? && p.left in a
  {
    if |a| >= 2 {
      var up := HashPairs(Joining(), a[2..]);
      assert Distinct(a[2..]);
      DistinctUp(a[2..]);
      assert a[0] !in a[2..];
      assert HashPairs(Joining(), a) == [Join(a[0], a[1])] + up;
    }
  }

  /** On any other leaf count, distinct leaves and a collision-free combine function give different roots. */
  lemma {:induction false} OthersDiffer(a: seq<Shape>)
    requires a != [] && Distinct(a) && !Benign(|a|)
    ensures Root(Joining(), a) != Root(Joining(), PadLeaves(a))
    decreases |a|
  {
    var n, up := |a|, HashPairs(Joining(), a);
    if n % 2 == 1 {
      OddLevel(Joining(), a);
      DistinctUp(a);
      OthersDiffer(up);
    } else {
      var x := a[n - 1];
      EvenLevel(Joining(), a, x);
      LastPair(a);
      assert a[n - 2] != x;
      PaddingShows(up, Join(x, x));
    }
  }

  // ---------- exactly when ----------

  ghost predicate PadsAlike<T>(combine: (T, T) -> T, leaves: seq<T>)
    requires leaves != []
  {
    Root(combine, PadLeaves(leaves)) == Root(combine, leaves)
  }

  /** The tree over n leaves is the tree over the leaves padded with the last one, for every combine function and
      all leaves, if and only if the leaf count is benign. */
  lemma LeafPaddingIff(n: nat)
    requires n > 0
    ensures Benign(n) <==> forall combine: (Shape, Shape) -> Shape, leaves: seq<Shape> :: |leaves| == n ==>
      PadsAlike(combine, leaves)
  {
    if Benign(n) {
      forall combine: (Shape, Shape) -> Shape, leaves: seq<Shape> | |leaves| == n
        ensures PadsAlike(combine, leaves)
      {
        BenignPads(combine, leaves);
      }
    } else {
      var labels := seq(n, i requires 0 <= i < n => Tip(i));
      OthersDiffer(labels);
      assert !PadsAlike(Joining(), labels);
    }
  }
}
