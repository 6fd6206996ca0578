/** The plain binary Merkle tree of the DNS rollup: a level of odd size pairs its last node with
    itself. The tagged SHA3 call is an uninterpreted `combine`. */
module Dns {

  /** The next level: hash consecutive pairs, the odd one with itself. */
  function HashPairs<T>(combine: (T, T) -> T, nodes: seq<T>): (up: seq<T>)
    ensures |up| == (|nodes| + 1) / 2
  {
    if nodes == [] then []
    else if |nodes| == 1 then [combine(nodes[0], nodes[0])]
    else [combine(nodes[0], nodes[1])] + HashPairs(combine, nodes[2..])
  }

  function Levels<T>(combine: (T, T) -> T, nodes: seq<T>): (levels: seq<seq<T>>)
    ensures levels != [] && levels[0] == nodes
    decreases |nodes|
  {
    if |nodes| <= 1 then [nodes] else [nodes] + Levels(combine, HashPairs(combine, nodes))
  }

  /** The root of the level-by-level tree. */
  function Root<T>(combine: (T, T) -> T, nodes: seq<T>): T
    requires nodes != []
    decreases |nodes|
  {
    if |nodes| == 1 then nodes[0] else Root(combine, HashPairs(combine, nodes))
  }

  function Partner(idx: nat): nat {
    if idx % 2 == 0 then idx + 1 else idx - 1
  }

  /** The path recorded below the top level. */
  function PathFrom<T>(levels: seq<seq<T>>, idx: nat): seq<T>
    requires levels != [] && InLevels(levels, idx)
  {
    if |levels| == 1 then []
    else
      var sibling := if Partner(idx) < |levels[0]| then levels[0][Partner(idx)] else levels[0][idx];
      [sibling] + PathFrom(levels[1..], idx / 2)
  }

  /** Every level below the top has a node at the index of that level. */
  predicate InLevels<T>(levels: seq<seq<T>>, idx: nat) {
    |levels| <= 1 || (idx < |levels[0]| && InLevels(levels[1..], idx / 2))
  }

  function PathPair<T>(cur: T, idx: nat, sibling: T): (T, T) {
    if idx % 2 == 0 then (cur, sibling) else (sibling, cur)
  }

  /** The root recomputed from a leaf and a path. */
  function Recompute<T>(combine: (T, T) -> T, cur: T, idx: nat, path: seq<T>): T
    decreases |path|
  {
    if path == [] then cur
    else
      var (l, r) := PathPair(cur, idx, path[0]);
      Recompute(combine, combine(l, r), idx / 2, path[1..])
  }

  /** A node's right child, or the left one again when there is none. */
  function RightOf(p: nat, n: nat): nat { if 2 * p + 1 < n then 2 * p + 1 else 2 * p }

  /** Node p of the next level hashes nodes 2p and 2p + 1, or the last node with itself. */
  lemma {:induction false} PairAt<T>(combine: (T, T) -> T, nodes: seq<T>, p: nat)
    requires 2 * p < |nodes|
    ensures HashPairs(combine, nodes)[p] == combine(nodes[2 * p], nodes[RightOf(p, |nodes|)])
    decreases p
  {
    if p > 0 {
      PairAt(combine, nodes[2..], p - 1);
    }
  }

  /** Half as many nodes, rounded up, each hashing its two children in order. */
  ghost predicate LevelOver<T>(combine: (T, T) -> T, below: seq<T>, up: seq<T>) {
    && |up| == (|below| + 1) / 2
    && forall p :: 0 <= p < |up| ==> up[p] == combine(below[2 * p], below[RightOf(p, |below|)])
  }

  lemma HashPairsOver<T>(combine: (T, T) -> T, nodes: seq<T>)
    ensures LevelOver(combine, nodes, HashPairs(combine, nodes))
  {
    forall p: nat | p < |HashPairs(combine, nodes)|
      ensures HashPairs(combine, nodes)[p] == combine(nodes[2 * p], nodes[RightOf(p, |nodes|)])
    {
      PairAt(combine, nodes, p);
    }
  }

  /** The levels start with the leaves, each lies over the one before, and the last is a single node. */
  ghost predicate IsTree<T>(combine: (T, T) -> T, leaves: seq<T>, levels: seq<seq<T>>) {
    && levels != [] && levels[0] == leaves && |levels[|levels| - 1]| == 1
    && forall i :: 0 <= i < |levels| - 1 ==> |levels[i]| > 1 && LevelOver(combine, levels[i], levels[i + 1])
  }

  lemma {:induction false} LevelsAreTree<T>(combine: (T, T) -> T, leaves: seq<T>)
    requires leaves != []
    ensures IsTree(combine, leaves, Levels(combine, leaves))
    decreases |leaves|
  {
    if |leaves| > 1 {
      var up := HashPairs(combine, leaves);
      var rest := Levels(combine, up);
      LevelsAreTree(combine, up);
      HashPairsOver(combine, leaves);
      forall i: nat | i < |rest|
        ensures |Levels(combine, leaves)[i]| > 1 && LevelOver(combine, Levels(combine, leaves)[i], rest[i])
      {
        assert i > 0 ==> LevelOver(combine, rest[i - 1], rest[i]);
      }
    }
  }

  // ---------- the program ----------

  method MerkleBuild<T>(combine: (T, T) -> T, leaves: seq<T>) returns (levels: seq<seq<T>>)
    requires leaves != []
    ensures levels == Levels(combine, leaves) && IsTree(combine, leaves, levels)
  {
    LevelsAreTree(combine, leaves);
    levels := [leaves];
    while |levels[|levels| - 1]| > 1
      invariant levels != []
      invariant Levels(combine, leaves) == levels[..|levels| - 1] + Levels(combine, levels[|levels| - 1])
      decreases |levels[|levels| - 1]|
    {
      var prev := levels[|levels| - 1];
      var next := NextLevel(combine, prev);
      LevelsGrow(combine, levels);
      levels := levels + [next];
    }
    assert levels == levels[..|levels| - 1] + [levels[|levels| - 1]];
  }

  lemma LevelsGrow<T>(combine: (T, T) -> T, levels: seq<seq<T>>)
    requires levels != [] && |levels[|levels| - 1]| > 1
    ensures
      var prev := levels[|levels| - 1];
      var grown := levels + [HashPairs(combine, prev)];
      levels[..|levels| - 1] + Levels(combine, prev) == grown[..|grown| - 1] + Levels(combine, HashPairs(combine, prev))
  {
    var prev := levels[|levels| - 1];
    var rest := Levels(combine, HashPairs(combine, prev));
    assert Levels(combine, prev) == [prev] + rest;
    assert levels[..|levels| - 1] + [prev] == levels;
  }

  method NextLevel<T>(combine: (T, T) -> T, prev: seq<T>) returns (next: seq<T>)
    ensures next == HashPairs(combine, prev)
  {
    next := [];
    var rest := prev;
    while rest != []
      invariant HashPairs(combine, prev) == next + HashPairs(combine, rest)
      decreases |rest|
    {
      var l := rest[0];
      var r := if |rest| >= 2 then rest[1] else rest[0];
      next := next + [combine(l, r)];
      rest := if |rest| >= 2 then rest[2..] else [];
    }
  }

  method MerkleRoot<T>(combine: (T, T) -> T, levels: seq<seq<T>>, ghost leaves: seq<T>) returns (root: T)
    requires leaves != [] && levels == Levels(combine, leaves)
    ensures root == Root(combine, leaves)
  {
    TopIsRoot(combine, leaves);
    root := levels[|levels| - 1][0];
  }

  method MerklePath<T>(levels: seq<seq<T>>, leafIndex: nat) returns (path: seq<T>)
    requires levels != [] && InLevels(levels, leafIndex)
    ensures path == PathFrom(levels, leafIndex)
  {
    path := [];
    var idx: nat := leafIndex;
    var rest := levels;
    while |rest| > 1
      invariant rest != [] && InLevels(rest, idx)
      invariant PathFrom(levels, leafIndex) == path + PathFrom(rest, idx)
      decreases |rest|
    {
      var level := rest[0];
      var sibIdx := Partner(idx);
      var sib := if sibIdx < |level| then level[sibIdx] else level[idx];
      assert PathFrom(rest, idx) == [sib] + PathFrom(rest[1..], idx / 2);
      path := path + [sib];
      idx := idx / 2;
      rest := rest[1..];
    }
  }

  method MerkleVerify<T(==)>(combine: (T, T) -> T, leaf: T, leafIndex: nat, path: seq<T>, root: T) returns (ok: bool)
    ensures ok <==> Recompute(combine, leaf, leafIndex, path) == root
  {
    var cur, idx: nat := leaf, leafIndex;
    for i := 0 to |path|
      invariant Recompute(combine, leaf, leafIndex, path) == Recompute(combine, cur, idx, path[i..])
    {
      var (l, r) := PathPair(cur, idx, path[i]);
      assert path[i..][1..] == path[i + 1..];
      cur := combine(l, r);
      idx := idx / 2;
    }
    ok := cur == root;
  }

  // ---------- round trip ----------

  lemma {:induction false} TopIsRoot<T>(combine: (T, T) -> T, leaves: seq<T>)
    requires leaves != []
    ensures var levels := Levels(combine, leaves); levels[|levels| - 1] == [Root(combine, leaves)]
    decreases |leaves|
  {
    if |leaves| > 1 {
      TopIsRoot(combine, HashPairs(combine, leaves));
    }
  }

  /** Node idx / 2 of the next level hashes node idx with its partner, or with itself at the odd end. */
  lemma {:induction false} ParentOf<T>(combine: (T, T) -> T, nodes: seq<T>, idx: nat)
    requires idx < |nodes|
    ensures
      var sibling := if Partner(idx) < |nodes| then nodes[Partner(idx)] else nodes[idx];
      var (l, r) := PathPair(nodes[idx], idx, sibling);
      HashPairs(combine, nodes)[idx / 2] == combine(l, r)
    decreases |nodes|
  {
    if idx >= 2 {
      ParentOf(combine, nodes[2..], idx - 2);
      assert Partner(idx) == Partner(idx - 2) + 2;
    }
  }

  /** For every non-empty leaf list and every index, the path extracted from the built tree leads
      back to the root, self-paired nodes of odd levels included. */
  lemma {:induction false} RoundTrip<T>(combine: (T, T) -> T, leaves: seq<T>, idx: nat)
    requires idx < |leaves|
    ensures InLevels(Levels(combine, leaves), idx)
    ensures Recompute(combine, leaves[idx], idx, PathFrom(Levels(combine, leaves), idx)) == Root(combine, leaves)
    decreases |leaves|
  {
    if |leaves| > 1 {
      var up := HashPairs(combine, leaves);
      assert Levels(combine, leaves)[1..] == Levels(combine, up);
      RoundTrip(combine, up, idx / 2);
      ParentOf(combine, leaves, idx);
    }
  }

  /** The whole round trip as the server and the client run it. */
  method ProveInclusion<T(==)>(combine: (T, T) -> T, leaves: seq<T>, idx: nat) returns (path: seq<T>, accepted: bool)
    requires idx < |leaves|
    ensures accepted
    ensures Recompute(combine, leaves[idx], idx, path) == Root(combine, leaves)
  {
    var levels := MerkleBuild(combine, leaves);
    var root := MerkleRoot(combine, levels, leaves);
    RoundTrip(combine, leaves, idx);
    path := MerklePath(levels, idx);
    accepted := MerkleVerify(combine, leaves[idx], idx, path, root);
  }

  /** Two different pairs with one parent. */
  ghost predicate PairCollision<T>(combine: (T, T) -> T, p: (T, T), q: (T, T)) {
    p != q && combine(p.0, p.1) == combine(q.0, q.1)
  }

  /** The pairs hashed at the first level where two recomputations meet. */
  function FirstMeeting<T(==)>(combine: (T, T) -> T, a: T, b: T, idx: nat, p: seq<T>, q: seq<T>): ((T, T), (T, T))
    requires |p| == |q| && p != []
    decreases |p|
  {
    var (x, y) := (PathPair(a, idx, p[0]), PathPair(b, idx, q[0]));
    var (u, v) := (combine(x.0, x.1), combine(y.0, y.1));
    if u == v || |p| == 1 then (x, y) else FirstMeeting(combine, u, v, idx / 2, p[1..], q[1..])
  }

  /** Two different leaves accepted at one index with paths of one length collide somewhere. The
      node tag carries no level, so equal lengths have to be asked for: see `BindingIff`. */
  lemma {:induction false} Binding<T>(combine: (T, T) -> T, a: T, b: T, idx: nat, p: seq<T>, q: seq<T>)
    requires |p| == |q| && a != b
    requires Recompute(combine, a, idx, p) == Recompute(combine, b, idx, q)
    ensures p != [] && var (x, y) := FirstMeeting(combine, a, b, idx, p, q); PairCollision(combine, x, y)
    decreases |p|
  {
    var (x, y) := (PathPair(a, idx, p[0]), PathPair(b, idx, q[0]));
    var (u, v) := (combine(x.0, x.1), combine(y.0, y.1));
    if u != v {
      Binding(combine, u, v, idx / 2, p[1..], q[1..]);
    }
  }

  // ---------- paths of different lengths ----------

  /** The parent of a leaf is accepted with that leaf's path less its first sibling: an inner node opens as a
      leaf. */
  lemma InnerNodeAccepted<T>(combine: (T, T) -> T, leaves: seq<T>, idx: nat)
    requires idx < |leaves| && |leaves| > 1
    ensures InLevels(Levels(combine, leaves), idx)
    ensures
      var path := PathFrom(Levels(combine, leaves), idx);
      && path != [] && idx / 2 < |HashPairs(combine, leaves)|
      && Recompute(combine, HashPairs(combine, leaves)[idx / 2], idx / 2, path[1..]) == Root(combine, leaves)
  {
    var up := HashPairs(combine, leaves);
    RoundTrip(combine, leaves, idx);
    RoundTrip(combine, up, idx / 2);
    assert Levels(combine, leaves)[1..] == Levels(combine, up);
  }

  /** The tree itself: a combine function without collisions. */
  datatype Shape = Tip(id: nat) | Join(left: Shape, right: Shape)

  function Joining(): (Shape, Shape) -> Shape { (left: Shape, right: Shape) => Join(left, right) }

  // The counterexample for any two lengths: full trees over one tip, each its own sibling.

  /** The full tree of height d over one tip. */
  function Full(d: nat): Shape {
    if d == 0 then Tip(0) else Join(Full(d - 1), Full(d - 1))
  }

  function Height(t: Shape): nat {
    match t
    case Tip(_) => 0
    case Join(left, _) => Height(left) + 1
  }

  lemma {:induction false} FullHeight(d: nat)
    ensures Height(Full(d)) == d
  {
    if d > 0 {
      FullHeight(d - 1);
    }
  }

  /** The path from the full tree of height lo up k levels. */
  function Doubles(lo: nat, k: nat): (path: seq<Shape>)
    ensures |path| == k
    decreases k
  {
    if k == 0 then [] else [Full(lo)] + Doubles(lo + 1, k - 1)
  }

  lemma {:induction false} ClimbFull(lo: nat, idx: nat, k: nat)
    ensures Recompute(Joining(), Full(lo), idx, Doubles(lo, k)) == Full(lo + k)
    decreases k
  {
    if k > 0 {
      var path := Doubles(lo, k);
      assert path[0] == Full(lo) && path[1..] == Doubles(lo + 1, k - 1);
      ClimbFull(lo + 1, idx / 2, k - 1);
    }
  }

  /** For any two different lengths and any index, `Binding` fails: two different nodes are accepted under one
      root, and combine has no collision to blame. */
  lemma LengthsMatter(idx: nat, m: nat, n: nat) returns (a: Shape, b: Shape, p: seq<Shape>, q: seq<Shape>)
    requires m != n
    ensures |p| == m && |q| == n && a != b
    ensures Recompute(Joining(), a, idx, p) == Recompute(Joining(), b, idx, q)
    ensures forall x, y :: !PairCollision(Joining(), x, y)
  {
    var i, j := if m < n then n - m else 0, if m < n then 0 else m - n;
    a, b, p, q := Full(i), Full(j), Doubles(i, m), Doubles(j, n);
    ClimbFull(i, idx, m);
    ClimbFull(j, idx, n);
    FullHeight(i);
    FullHeight(j);
  }

  /** Under this combine function two leaves accepted at one index under one root are equal or collide. */
  ghost predicate Binds<T(!new)>(combine: (T, T) -> T, idx: nat, m: nat, n: nat) {
    forall a, b, p: seq<T>, q: seq<T> ::
      |p| == m && |q| == n && Recompute(combine, a, idx, p) == Recompute(combine, b, idx, q) ==>
        a == b || exists x, y :: PairCollision(combine, x, y)
  }

  lemma EqualLengthsBind<T(!new)>(combine: (T, T) -> T, idx: nat, n: nat)
    ensures Binds(combine, idx, n, n)
  {
    forall a, b, p: seq<T>, q: seq<T> |
      |p| == n && |q| == n && Recompute(combine, a, idx, p) == Recompute(combine, b, idx, q) && a != b
      ensures exists x, y :: PairCollision(combine, x, y)
    {
      Binding(combine, a, b, idx, p, q);
      var (x, y) := FirstMeeting(combine, a, b, idx, p, q);
      assert PairCollision(combine, x, y);
    }
  }

  /** Binding holds at an index for two path lengths, whatever the combine function, exactly when the lengths are
      equal. */
  lemma BindingIff(idx: nat, m: nat, n: nat)
    ensures m == n <==> forall combine: (Shape, Shape) -> Shape :: Binds(combine, idx, m, n)
  {
    if m == n {
      forall combine: (Shape, Shape) -> Shape
        ensures Binds(combine, idx, m, n)
      {
        EqualLengthsBind(combine, idx, n);
      }
    } else {
      var a, b, p, q := LengthsMatter(idx, m, n);
      assert !Binds(Joining(), idx, m, n);
    }
  }

  /** The smallest instance: a leaf and its parent are both accepted at index zero. */
  lemma LeafAndParent(a: Shape, b: Shape, p: seq<Shape>, q: seq<Shape>)
    requires a == Tip(0) && p == [Tip(1), Tip(2)] && b == Join(Tip(0), Tip(1)) && q == [Tip(2)]
    ensures a != b && Recompute(Joining(), a, 0, p) == Recompute(Joining(), b, 0, q)
  {
    assert p[1..] == q;
    assert Recompute(Joining(), a, 0, p) == Recompute(Joining(), b, 0, p[1..]);
  }
}
