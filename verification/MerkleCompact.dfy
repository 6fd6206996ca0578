/** Why the compact tree, which drops the bottom binary levels, agrees with the full one. */
module MerkleCompact {
  import opened Arith
  import opened Hashing
  import opened Merkle

  /** The hash of a binary node from its level, position and two children. */
  type NodeHash = (nat, nat, Digest, Digest) -> Digest

  function BinaryNode(h: Hasher, treeLabel: nat): NodeHash {
    (level: nat, position: nat, left: Digest, right: Digest) =>
      CompressNode(h, 2, treeLabel, level, position, [left, right])
  }

  /** Hash consecutive pairs of nodes; the first pair has position `position`. */
  function PairUp(f: NodeHash, level: nat, nodes: seq<Digest>, position: nat): seq<Digest> {
    if |nodes| < 2 then []
    else [f(level, position, nodes[0], nodes[1])] + PairUp(f, level, nodes[2..], position + 1)
  }

  /** Pairing up is hashing groups of two. */
  lemma {:induction false} PairUpIsParents(h: Hasher, treeLabel: nat, level: nat, nodes: seq<Digest>, position: nat)
    ensures Parents(h, treeLabel, 2, level, nodes, position) == PairUp(BinaryNode(h, treeLabel), level, nodes, position)
    decreases |nodes|
  {
    if |nodes| >= 2 {
      assert nodes[..2] == [nodes[0], nodes[1]];
      PairUpIsParents(h, treeLabel, level, nodes[2..], position + 1);
    }
  }

  lemma {:induction false} PairUpLength(f: NodeHash, level: nat, nodes: seq<Digest>, position: nat)
    ensures |PairUp(f, level, nodes, position)| == |nodes| / 2
    decreases |nodes|
  {
    if |nodes| >= 2 {
      PairUpLength(f, level, nodes[2..], position + 1);
    }
  }

  /** Pairs of a concatenation, when the first part has k whole pairs. */
  lemma {:induction false} PairUpSplit(f: NodeHash, level: nat, x: seq<Digest>, y: seq<Digest>, position: nat, k: nat)
    requires |x| == 2 * k
    ensures PairUp(f, level, x + y, position) == PairUp(f, level, x, position) + PairUp(f, level, y, position + k)
    decreases k
  {
    if k == 0 {
      assert x + y == y;
    } else {
      assert (x + y)[2..] == x[2..] + y;
      PairUpSplit(f, level, x[2..], y, position + 1, k - 1);
    }
  }

  /** Level d of the full tree while every arity below is two and no padding occurs. */
  function BinaryLevel(f: NodeHash, leaves: seq<Digest>, d: nat): seq<Digest> {
    if d == 0 then leaves else PairUp(f, d, BinaryLevel(f, leaves, d - 1), 0)
  }

  /** The leaf hashes of the chunk at base, padded with the last one. */
  function ChunkLeaves(leaves: seq<Digest>, base: nat, size: nat): seq<Digest>
    requires base < |leaves|
  {
    if base + size <= |leaves| then leaves[base..base + size]
    else leaves[base..] + Repeat(leaves[|leaves| - 1], base + size - |leaves|)
  }

  /** Level d of the subtree over the chunk at base. */
  function ChunkLevel(f: NodeHash, leaves: seq<Digest>, base: nat, size: nat, d: nat): seq<Digest>
    requires base < |leaves|
  {
    if d == 0 then ChunkLeaves(leaves, base, size)
    else PairUp(f, d, ChunkLevel(f, leaves, base, size, d - 1), Shr(base, d))
  }

  /** A chunk of 2^k leaves halves on every level. */
  lemma {:induction false} ChunkLevelLength(f: NodeHash, leaves: seq<Digest>, base: nat, k: nat, d: nat)
    requires base < |leaves| && d <= k
    ensures |ChunkLevel(f, leaves, base, Pow2(k), d)| == Pow2(k - d)
  {
    if d > 0 {
      ChunkLevelLength(f, leaves, base, k, d - 1);
      PairUpLength(f, d, ChunkLevel(f, leaves, base, Pow2(k), d - 1), Shr(base, d));
      assert Pow2(k - (d - 1)) == 2 * Pow2(k - d);
    }
  }

  predicate BottomBinary(arities: seq<nat>, s: nat) {
    s <= |arities| && forall i :: 0 <= i < s ==> arities[i] == 2
  }

  lemma {:induction false} BinaryLevelLength(f: NodeHash, leaves: seq<Digest>, l: nat, d: nat)
    requires |leaves| == Pow2(l) && d <= l
    ensures |BinaryLevel(f, leaves, d)| == Pow2(l - d)
  {
    if d > 0 {
      BinaryLevelLength(f, leaves, l, d - 1);
      PairUpLength(f, d, BinaryLevel(f, leaves, d - 1), 0);
      assert Pow2(l - (d - 1)) == 2 * Pow2(l - d);
    }
  }

  /** A slice aligned to pairs has as its parents the matching slice of the parents. */
  lemma ParentsOfSlice(f: NodeHash, level: nat, nodes: seq<Digest>, p: nat, n: nat)
    requires 2 * p + 2 * n <= |nodes|
    ensures p + n <= |PairUp(f, level, nodes, 0)|
    ensures PairUp(f, level, nodes[2 * p..2 * p + 2 * n], p) == PairUp(f, level, nodes, 0)[p..p + n]
  {
    var x, y, z := nodes[..2 * p], nodes[2 * p..2 * p + 2 * n], nodes[2 * p + 2 * n..];
    assert nodes == x + (y + z);
    PairUpSplit(f, level, x, y + z, 0, p);
    PairUpSplit(f, level, y, z, p, n);
    PairUpLength(f, level, x, 0);
    PairUpLength(f, level, y, p);
    MiddlePart(PairUp(f, level, x, 0), PairUp(f, level, y, p), PairUp(f, level, z, p + n), p, n);
  }

  lemma MiddlePart<T>(a: seq<T>, b: seq<T>, c: seq<T>, p: nat, n: nat)
    requires |a| == p && |b| == n
    ensures p + n <= |a + (b + c)| && (a + (b + c))[p..p + n] == b
  {
  }

  /** The chunk's level d is the n nodes of the full level from p on. */
  ghost predicate SliceAt(f: NodeHash, leaves: seq<Digest>, base: nat, size: nat, d: nat, p: nat, n: nat) {
    && base < |leaves| && p + n <= |BinaryLevel(f, leaves, d)|
    && ChunkLevel(f, leaves, base, size, d) == BinaryLevel(f, leaves, d)[p..p + n]
  }

  /** The subtree of chunk c is a slice of every level of the full tree. */
  lemma ChunkIsSlice(f: NodeHash, leaves: seq<Digest>, l: nat, s: nat, c: nat, d: nat)
    requires |leaves| == Pow2(l) && d <= s <= l && c < Pow2(l - s)
    ensures SliceAt(f, leaves, Shl(c, s), Pow2(s), d, Shl(c, s - d), Pow2(s - d))
  {
    SliceFrom(f, leaves, l, s, c, d, Shl(c, s), Pow2(s), Shl(c, s - d), Pow2(s - d));
  }

  lemma {:induction false} SliceFrom(f: NodeHash, leaves: seq<Digest>, l: nat, s: nat, c: nat, d: nat, base: nat,
                                     size: nat, p: nat, n: nat)
    requires |leaves| == Pow2(l) && d <= s <= l && c < Pow2(l - s) && base == Shl(c, s) && size == Pow2(s)
    requires p == Shl(c, s - d) && n == Pow2(s - d)
    ensures SliceAt(f, leaves, base, size, d, p, n)
  {
    if d == 0 {
      ShlBlockFits(c, l - s, s);
    } else {
      SliceFrom(f, leaves, l, s, c, d - 1, base, size, 2 * p, 2 * n);
      assert Shr(base, d) == p by {
        ShrOfShl(c, s, d);
      }
      ChunkStep(f, leaves, base, size, d, BinaryLevel(f, leaves, d - 1), p, n);
    }
  }

  lemma ChunkStep(f: NodeHash, leaves: seq<Digest>, base: nat, size: nat, d: nat, below: seq<Digest>, p: nat, n: nat)
    requires base < |leaves| && d > 0 && Shr(base, d) == p && 2 * p + 2 * n <= |below|
    requires ChunkLevel(f, leaves, base, size, d - 1) == below[2 * p..2 * p + 2 * n]
    ensures p + n <= |PairUp(f, d, below, 0)|
    ensures ChunkLevel(f, leaves, base, size, d) == PairUp(f, d, below, 0)[p..p + n]
  {
    ParentsOfSlice(f, d, below, p, n);
  }

  /** The levels that the compact tree does not store. */
  function BinaryLevels(f: NodeHash, leaves: seq<Digest>, s: nat): (levels: seq<seq<Digest>>)
    ensures |levels| == s
  {
    if s == 0 then [] else BinaryLevels(f, leaves, s - 1) + [BinaryLevel(f, leaves, s - 1)]
  }

  lemma {:induction false} BinaryLevelsAt(f: NodeHash, leaves: seq<Digest>, s: nat, d: nat)
    requires d < s
    ensures BinaryLevels(f, leaves, s)[d] == BinaryLevel(f, leaves, d)
  {
    if d < s - 1 {
      BinaryLevelsAt(f, leaves, s - 1, d);
    }
  }

  /** One binary level of even size needs no padding. */
  lemma BinaryStep(h: Hasher, cfg: MerkleChannelCfg, f: NodeHash, level: nat, lo: seq<Digest>, n: nat)
    requires f == BinaryNode(h, cfg.treeLabel)
    requires n > 0 && |lo| == 2 * n && level < |cfg.layerArities| && cfg.layerArities[level] == 2
    requires Covers(cfg.layerArities, level, |lo|)
    ensures
      var hi := PairUp(f, level + 1, lo, 0);
      && |hi| == n && Covers(cfg.layerArities, level + 1, n)
      && RootOf(h, cfg, level, lo) == RootOf(h, cfg, level + 1, hi)
      && BuildLevels(h, cfg, level, lo) == [lo] + BuildLevels(h, cfg, level + 1, hi)
  {
    assert CeilDiv(|lo|, 2) == n;
    assert Pad(lo, 2) == lo;
    PairUpIsParents(h, cfg.treeLabel, level + 1, lo, 0);
    ParentLevel(h, cfg, level, lo);
  }

  /** The full tree is its bottom binary levels followed by the tree over level s. */
  lemma {:induction false} BuildSplits(h: Hasher, cfg: MerkleChannelCfg, f: NodeHash, leaves: seq<Digest>, l: nat,
                                       s: nat)
    requires f == BinaryNode(h, cfg.treeLabel)
    requires |leaves| == Pow2(l) && s <= l && BottomBinary(cfg.layerArities, s)
    requires Covers(cfg.layerArities, 0, |leaves|)
    ensures
      var hi := BinaryLevel(f, leaves, s);
      && |hi| == Pow2(l - s) && Covers(cfg.layerArities, s, |hi|)
      && RootOf(h, cfg, 0, leaves) == RootOf(h, cfg, s, hi)
      && BuildLevels(h, cfg, 0, leaves) == BinaryLevels(f, leaves, s) + BuildLevels(h, cfg, s, hi)
  {
    if s > 0 {
      var t := s - 1;
      BuildSplits(h, cfg, f, leaves, l, t);
      var lo, hi := BinaryLevel(f, leaves, t), BinaryLevel(f, leaves, s);
      assert cfg.layerArities[t] == 2 && |lo| == 2 * Pow2(l - s);
      BinaryStep(h, cfg, f, t, lo, Pow2(l - s));
      AppendOne(BinaryLevels(f, leaves, t), lo, BuildLevels(h, cfg, s, hi));
    }
  }

  lemma AppendOne<T>(a: seq<T>, x: T, b: seq<T>)
    ensures a + ([x] + b) == (a + [x]) + b
  {
  }

  // ---------- openings ----------

  /** The member of the pair of g other than g. */
  function Other(g: nat): nat {
    if g % 2 == 0 then g + 1 else g - 1
  }

  lemma PairSiblings(nodes: seq<Digest>, g: nat)
    requires g < |nodes| && |nodes| % 2 == 0
    ensures Siblings(nodes, 2, g) == [nodes[Other(g)]]
  {
    MembersAround(nodes, 2 * (g / 2), 2 * (g / 2) + 2, g);
  }

  /** Over binary levels the index moves by shifts. */
  lemma {:induction false} IndexUpIsShift(arities: seq<nat>, index: nat, s: nat, d: nat)
    requires BottomBinary(arities, s) && d <= s
    ensures IndexUp(arities, 0, index, d) == Shr(index, d)
  {
    if d > 0 {
      IndexUpIsShift(arities, index, s, d - 1);
      assert ArityAt(arities, 0 + d - 1) == 2;
    }
  }

  /** The index reached after s levels, then k more counted from level s. */
  lemma {:induction false} IndexUpSplits(arities: seq<nat>, index: nat, s: nat, k: nat)
    ensures IndexUp(arities, 0, index, s + k) == IndexUp(arities, s, IndexUp(arities, 0, index, s), k)
  {
    if k > 0 {
      IndexUpSplits(arities, index, s, k - 1);
    }
  }

  /** The siblings on one of the bottom levels. */
  function BottomSiblings(f: NodeHash, leaves: seq<Digest>, index: nat, d: nat): seq<Digest> {
    Siblings(BinaryLevel(f, leaves, d), 2, Shr(index, d))
  }

  /** The siblings on the lowest k levels. */
  function BottomUpTo(f: NodeHash, leaves: seq<Digest>, index: nat, k: nat): (path: seq<seq<Digest>>)
    ensures |path| == k
  {
    if k == 0 then [] else BottomUpTo(f, leaves, index, k - 1) + [BottomSiblings(f, leaves, index, k - 1)]
  }

  /** The rebuilt chunk on level d is the slice of the full level around the index. */
  lemma ChunkAround(f: NodeHash, leaves: seq<Digest>, l: nat, s: nat, index: nat, d: nat, base: nat)
    requires |leaves| == Pow2(l) && d <= s <= l && index < |leaves|
    requires base == Shl(Shr(index, s), s)
    ensures base < |leaves|
    ensures Shr(base, d) <= Shr(index, d) < Shr(base, d) + Pow2(s - d) <= |BinaryLevel(f, leaves, d)|
    ensures ChunkLevel(f, leaves, base, Pow2(s), d)
        == BinaryLevel(f, leaves, d)[Shr(base, d)..Shr(base, d) + Pow2(s - d)]
  {
    ChunkNumber(l, s, index);
    ChunkIsSlice(f, leaves, l, s, Shr(index, s), d);
    ShrOfShl(Shr(index, s), s, d);
    ShrInBlock(index, s, d);
  }

  /** The partner of the index on level d, read from the rebuilt chunk. */
  lemma LocalSibling(nodes: seq<Digest>, chunk: seq<Digest>, l: nat, s: nat, index: nat, d: nat, base: nat)
    requires d < s <= l && |nodes| == Pow2(l - d) && base == Shl(Shr(index, s), s)
    requires Shr(base, d) <= Shr(index, d) < Shr(base, d) + Pow2(s - d) <= |nodes|
    requires chunk == nodes[Shr(base, d)..Shr(base, d) + Pow2(s - d)]
    ensures Other(Shr(index, d) - Shr(base, d)) < |chunk|
    ensures Siblings(nodes, 2, Shr(index, d)) == [chunk[Other(Shr(index, d) - Shr(base, d))]]
  {
    ShrOfShl(Shr(index, s), s, d);
    PairedSizes(Shr(index, s), s - d, l - d);
    SliceSibling(nodes, Shr(base, d), Pow2(s - d), Shr(index, d), chunk);
  }

  lemma PairedSizes(c: nat, e: nat, k: nat)
    requires e > 0 && k > 0
    ensures Shl(c, e) % 2 == 0 && Pow2(e) % 2 == 0 && Pow2(k) % 2 == 0
  {
    DoubleIsEven(Shl(c, e), Shl(c, e - 1));
    DoubleIsEven(Pow2(e), Pow2(e - 1));
    DoubleIsEven(Pow2(k), Pow2(k - 1));
  }

  lemma DoubleIsEven(x: nat, y: nat)
    requires x == 2 * y
    ensures x % 2 == 0
  {
  }

  /** In a slice made of whole pairs the partner is found at the local index. */
  lemma SliceSibling(nodes: seq<Digest>, start: nat, size: nat, g: nat, slice: seq<Digest>)
    requires start % 2 == 0 && size % 2 == 0 && |nodes| % 2 == 0
    requires start <= g < start + size <= |nodes| && slice == nodes[start..start + size]
    ensures Other(g - start) < |slice|
    ensures Siblings(nodes, 2, g) == [slice[Other(g - start)]]
  {
    assert (g - start) % 2 == g % 2 by {
      SameParity(g, start);
    }
    PairSiblings(nodes, g);
  }

  lemma SameParity(g: nat, start: nat)
    requires start % 2 == 0 && start <= g
    ensures (g - start) % 2 == g % 2
  {
  }

  lemma ChunkNumber(l: nat, s: nat, index: nat)
    requires s <= l && index < Pow2(l)
    ensures Shr(index, s) < Pow2(l - s)
  {
    if Shr(index, s) >= Pow2(l - s) {
      ShrInBlock(index, s, 0);
      ShlMonotone(Pow2(l - s), Shr(index, s), s);
      ShlIsMultiply(Pow2(l - s), s);
      Pow2Add(l - s, s);
    }
  }

  lemma {:induction false} ShlMonotone(a: nat, b: nat, k: nat)
    requires a <= b
    ensures Shl(a, k) <= Shl(b, k)
  {
    if k > 0 {
      ShlMonotone(a, b, k - 1);
    }
  }

  /** The path `open_compact` assembles. */
  function CompactPath(f: NodeHash, arities: seq<nat>, leaves: seq<Digest>, s: nat, index: nat,
                       top: seq<seq<Digest>>): seq<seq<Digest>>
    requires top != []
  {
    BottomUpTo(f, leaves, index, s) + PathOf(top, arities, s, Shr(index, s))
  }

  /** It is the path of the full tree. */
  lemma CompactPathIsFull(h: Hasher, cfg: MerkleChannelCfg, f: NodeHash, leaves: seq<Digest>, l: nat, s: nat,
                          index: nat)
    requires f == BinaryNode(h, cfg.treeLabel)
    requires |leaves| == Pow2(l) && s <= l && BottomBinary(cfg.layerArities, s)
    requires Covers(cfg.layerArities, 0, |leaves|)
    ensures
      var nodes := BinaryLevel(f, leaves, s);
      && nodes != [] && Covers(cfg.layerArities, s, |nodes|)
      && PathOf(BuildLevels(h, cfg, 0, leaves), cfg.layerArities, 0, index)
         == CompactPath(f, cfg.layerArities, leaves, s, index, BuildLevels(h, cfg, s, nodes))
  {
    BuildSplits(h, cfg, f, leaves, l, s);
    PathOverSplit(f, cfg.layerArities, leaves, s, index, BuildLevels(h, cfg, s, BinaryLevel(f, leaves, s)));
  }

  lemma PathOverSplit(f: NodeHash, arities: seq<nat>, leaves: seq<Digest>, s: nat, index: nat, top: seq<seq<Digest>>)
    requires BottomBinary(arities, s) && top != []
    ensures PathOf(BinaryLevels(f, leaves, s) + top, arities, 0, index)
        == CompactPath(f, arities, leaves, s, index, top)
  {
    PathBelow(f, arities, leaves, s, index, BinaryLevels(f, leaves, s) + top, s);
    PathAbove(f, arities, leaves, s, index, top, |top| - 1);
  }

  lemma {:induction false} PathBelow(f: NodeHash, arities: seq<nat>, leaves: seq<Digest>, s: nat, index: nat,
                                     full: seq<seq<Digest>>, k: nat)
    requires BottomBinary(arities, s) && k <= s <= |full| && full[..s] == BinaryLevels(f, leaves, s)
    ensures PathUpTo(full, arities, 0, index, k) == BottomUpTo(f, leaves, index, k)
  {
    if k > 0 {
      PathBelow(f, arities, leaves, s, index, full, k - 1);
      BinaryLevelsAt(f, leaves, s, k - 1);
      assert full[k - 1] == full[..s][k - 1];
      IndexUpIsShift(arities, index, s, k - 1);
    }
  }

  /** The index at a level above the bottom ones, counted from there. */
  lemma IndexAbove(arities: seq<nat>, index: nat, s: nat, k: nat)
    requires BottomBinary(arities, s)
    ensures IndexUp(arities, 0, index, s + k) == IndexUp(arities, s, Shr(index, s), k)
  {
    IndexUpSplits(arities, index, s, k);
    IndexUpIsShift(arities, index, s, s);
  }

  /** One level more of a path that goes on above the bottom levels. */
  lemma PathAboveStep(bottom: seq<seq<Digest>>, arities: seq<nat>, s: nat, index: nat, top: seq<seq<Digest>>, k: nat)
    requires BottomBinary(arities, s) && |bottom| == s && k < |top|
    ensures PathUpTo(bottom + top, arities, 0, index, s + k + 1)
         == PathUpTo(bottom + top, arities, 0, index, s + k)
            + [Siblings(top[k], ArityAt(arities, s + k), IndexUp(arities, s, Shr(index, s), k))]
  {
    IndexAbove(arities, index, s, k);
    assert (bottom + top)[s + k] == top[k];
  }

  lemma {:induction false} PathAbove(f: NodeHash, arities: seq<nat>, leaves: seq<Digest>, s: nat, index: nat,
                                     top: seq<seq<Digest>>, k: nat)
    requires BottomBinary(arities, s) && k <= |top|
    ensures PathUpTo(BinaryLevels(f, leaves, s) + top, arities, 0, index, s + k)
         == BottomUpTo(f, leaves, index, s) + PathUpTo(top, arities, s, Shr(index, s), k)
  {
    var bottom := BinaryLevels(f, leaves, s);
    if k == 0 {
      PathBelow(f, arities, leaves, s, index, bottom + top, s);
    } else {
      var below := k - 1;
      PathAbove(f, arities, leaves, s, index, top, below);
      PathAboveStep(bottom, arities, s, index, top, below);
      assert s + below + 1 == s + k;
    }
  }
}
