/** `MerkleTreeChannel`: the stored tree, its compact form, and the verification loop. */
module MerkleChannel {
  import opened Arith
  import opened Hashing
  import opened Merkle
  import opened MerkleCompact

  /** How many levels of one arity a commitment to `leaves` leaves is given. */
  function DepthFor(leaves: nat, arity: nat): (depth: nat)
    requires arity >= 2
    ensures depth >= 1
    decreases leaves
  {
    if leaves <= arity then 1
    else
      CeilDivShrinks(leaves, arity);
      1 + DepthFor(CeilDiv(leaves, arity), arity)
  }

  function PowerOf(arity: nat, k: nat): nat {
    if k == 0 then 1 else arity * PowerOf(arity, k - 1)
  }

  lemma CeilDivAtMost(n: nat, arity: nat, m: nat)
    requires arity > 0
    ensures CeilDiv(n, arity) <= m <==> n <= arity * m
  {
    var g := CeilDiv(n, arity);
    assert n + arity - 1 == g * arity + (n + arity - 1) % arity;
    if g <= m {
      BlocksMonotone(g, m, arity);
    } else {
      BlocksMonotone(m + 1, g, arity);
      assert (m + 1) * arity == m * arity + arity;
    }
  }

  lemma {:induction false} PowerAtLeast(arity: nat, k: nat)
    requires arity > 0 && k > 0
    ensures PowerOf(arity, k) >= arity
  {
    if k > 1 {
      PowerAtLeast(arity, k - 1);
      BlocksMonotone(1, PowerOf(arity, k - 1), arity);
    }
  }

  /** The depth is the least that leaves room for all leaves. */
  lemma {:induction false} DepthIsLeast(n: nat, arity: nat, k: nat)
    requires arity >= 2 && k > 0
    ensures DepthFor(n, arity) <= k <==> n <= PowerOf(arity, k)
    decreases k
  {
    PowerAtLeast(arity, k);
    if n > arity {
      CeilDivShrinks(n, arity);
      assert DepthFor(n, arity) == 1 + DepthFor(CeilDiv(n, arity), arity);
      if k > 1 {
        DepthIsLeast(CeilDiv(n, arity), arity, k - 1);
        CeilDivAtMost(n, arity, PowerOf(arity, k - 1));
      }
    }
  }

  /** `merkle_depth` */
  method MerkleDepth(leaves: nat, arity: nat) returns (depth: nat)
    requires arity >= 2
    ensures depth == DepthFor(leaves, arity)
    ensures depth > 0 && leaves <= PowerOf(arity, depth)
    ensures depth > 1 ==> PowerOf(arity, depth - 1) < leaves
  {
    ghost var enough := DepthFor(leaves, arity);
    DepthIsLeast(leaves, arity, enough);
    if enough > 1 {
      DepthIsLeast(leaves, arity, enough - 1);
    }
    depth := 1;
    var cur: nat := leaves;
    while cur > arity
      invariant DepthFor(leaves, arity) + 1 == depth + DepthFor(cur, arity)
      decreases cur
    {
      CeilDivShrinks(cur, arity);
      cur := (cur + arity - 1) / arity;
      depth := depth + 1;
    }
  }

  /** That many equal arities never run out: finalize stays within the list. */
  lemma {:induction false} DepthCovers(arities: seq<nat>, arity: nat, n: nat, level: nat)
    requires arity >= 2 && |arities| == level + DepthFor(n, arity) && forall i :: 0 <= i < |arities| ==>
      arities[i] == arity
    ensures Covers(arities, level, n)
    decreases n
  {
    if n > arity {
      CeilDivShrinks(n, arity);
      DepthCovers(arities, arity, CeilDiv(n, arity), level + 1);
    } else {
      CeilDivSmall(n, arity);
    }
  }

  lemma CeilDivShrinks(n: nat, a: nat)
    requires a >= 2 && n >= 2
    ensures CeilDiv(n, a) < n
  {
    assert (n - 1) * (a - 1) >= 1;
    assert n * a == (n - 1) * (a - 1) + n + a - 1;
    QuotientBelow(n + a - 1, a, n);
  }

  lemma QuotientBelow(x: nat, a: nat, n: nat)
    requires a > 0 && x < n * a
    ensures x / a < n
  {
    assert x == (x / a) * a + x % a;
    if x / a >= n {
      BlocksMonotone(n, x / a, a);
    }
  }

  lemma CeilDivSmall(n: nat, a: nat)
    requires a >= 1 && n <= a
    ensures CeilDiv(n, a) <= 1
  {
    if n == 0 {
      DivModUnique(a - 1, a, 0, a - 1);
    } else {
      DivModUnique(n + a - 1, a, 1, n - 1);
    }
  }

  // ---------- chunks of the compact tree ----------

  /** Hash the leaves of one chunk, padding with the last real leaf. */
  method HashChunkLeaves(h: Hasher, cfg: MerkleChannelCfg, base: nat, chunkSize: nat, allValues: seq<seq<Byte>>)
    returns (buf: seq<Digest>)
    requires cfg.layerArities != [] && base < |allValues| && chunkSize > 0
    ensures buf == ChunkLeaves(LeafHashes(h, cfg, allValues), base, chunkSize)
  {
    var n := |allValues|;
    var end := if base + chunkSize < n then base + chunkSize else n;
    buf := [];
    for i := base to end
      invariant buf == LeafHashes(h, cfg, allValues)[base..i]
    {
      buf := buf + [CompressLeaf(h, cfg.layerArities[0], cfg.treeLabel, i, allValues[i])];
    }
    if |buf| < chunkSize {
      var last := buf[|buf| - 1];
      buf := buf + Repeat(last, chunkSize - |buf|);
    }
  }

  lemma {:induction false} PairUpAt(f: NodeHash, level: nat, nodes: seq<Digest>, position: nat, j: nat)
    requires 2 * j + 1 < |nodes|
    ensures j < |PairUp(f, level, nodes, position)|
    ensures PairUp(f, level, nodes, position)[j] == f(level, position + j, nodes[2 * j], nodes[2 * j + 1])
  {
    if j > 0 {
      PairUpAt(f, level, nodes[2..], position + 1, j - 1);
    }
  }

  /** One binary level inside a chunk. */
  method FoldLevel(h: Hasher, treeLabel: nat, parentLevel: nat, parentBase: nat, prev: seq<Digest>)
    returns (next: seq<Digest>)
    ensures next == PairUp(BinaryNode(h, treeLabel), parentLevel, prev, parentBase)
  {
    ghost var target := PairUp(BinaryNode(h, treeLabel), parentLevel, prev, parentBase);
    PairUpLength(BinaryNode(h, treeLabel), parentLevel, prev, parentBase);
    next := [];
    for j := 0 to |prev| / 2
      invariant |next| == j && forall i :: 0 <= i < j ==> next[i] == target[i]
    {
      PairUpAt(BinaryNode(h, treeLabel), parentLevel, prev, parentBase, j);
      next := next + [CompressNode(h, 2, treeLabel, parentLevel, parentBase + j, [prev[2 * j], prev[2 * j + 1]])];
    }
  }

  /** `fold_chunk`: one node for the whole chunk, keeping two buffers. */
  method FoldChunk(h: Hasher, cfg: MerkleChannelCfg, base: nat, chunkSize: nat, depth: nat, allValues: seq<seq<Byte>>)
    returns (node: Digest)
    requires cfg.layerArities != [] && base < |allValues| && chunkSize == Pow2(depth)
    ensures ChunkLevel(BinaryNode(h, cfg.treeLabel), LeafHashes(h, cfg, allValues), base, chunkSize, depth) == [node]
  {
    ghost var f, leaves := BinaryNode(h, cfg.treeLabel), LeafHashes(h, cfg, allValues);
    var bufA := HashChunkLeaves(h, cfg, base, chunkSize, allValues);
    for d := 0 to depth
      invariant bufA == ChunkLevel(f, leaves, base, chunkSize, d)
    {
      var bufB := FoldLevel(h, cfg.treeLabel, d + 1, Shr(base, d + 1), bufA);
      bufA, bufB := bufB, bufA;
    }
    ChunkLevelLength(f, leaves, base, depth, depth);
    node := bufA[0];
  }

  /** The levels of one chunk up to level k. */
  ghost function ChunkLevelsUpTo(f: NodeHash, leaves: seq<Digest>, base: nat, size: nat,
                                 k: nat): (levels: seq<seq<Digest>>)
    requires base < |leaves|
    ensures |levels| == k
  {
    if k == 0 then [] else ChunkLevelsUpTo(f, leaves, base, size, k - 1) + [ChunkLevel(f, leaves, base, size, k - 1)]
  }

  lemma {:induction false} ChunkLevelsAt(f: NodeHash, leaves: seq<Digest>, base: nat, size: nat, k: nat, d: nat)
    requires base < |leaves| && d < k
    ensures ChunkLevelsUpTo(f, leaves, base, size, k)[d] == ChunkLevel(f, leaves, base, size, d)
  {
    if d < k - 1 {
      ChunkLevelsAt(f, leaves, base, size, k - 1, d);
    }
  }

  /** `rebuild_chunk_levels`: every level of the chunk that holds the index. */
  method RebuildChunkLevels(h: Hasher, cfg: MerkleChannelCfg, index: nat, chunkSize: nat, depth: nat,
                            allValues: seq<seq<Byte>>)
    returns (levels: seq<seq<Digest>>)
    requires cfg.layerArities != [] && index < |allValues| && chunkSize == Pow2(depth)
    ensures Shl(Shr(index, depth), depth) < |allValues|
    ensures levels == ChunkLevelsUpTo(BinaryNode(h, cfg.treeLabel), LeafHashes(h, cfg, allValues),
                                      Shl(Shr(index, depth), depth), chunkSize, depth + 1)
  {
    ghost var f, leaves := BinaryNode(h, cfg.treeLabel), LeafHashes(h, cfg, allValues);
    var base := Quot(index, chunkSize) * chunkSize;
    ChunkBase(index, depth);
    var cur := HashChunkLeaves(h, cfg, base, chunkSize, allValues);
    levels := [cur];
    for d := 0 to depth
      invariant cur == ChunkLevel(f, leaves, base, chunkSize, d)
      invariant levels == ChunkLevelsUpTo(f, leaves, base, chunkSize, d + 1)
    {
      cur := FoldLevel(h, cfg.treeLabel, d + 1, Shr(base, d + 1), cur);
      levels := levels + [cur];
    }
  }

  lemma ChunkBase(index: nat, depth: nat)
    ensures Quot(index, Pow2(depth)) * Pow2(depth) == Shl(Shr(index, depth), depth) <= index
  {
    ShrIsDivide(index, depth);
    ShlIsMultiply(Shr(index, depth), depth);
    ShrInBlock(index, depth, 0);
  }

  /** How many of the leading arities are two. */
  function LeadingTwos(arities: seq<nat>): (k: nat)
    ensures BottomBinary(arities, k)
  {
    if arities != [] && arities[0] == 2 then
      var rest := LeadingTwos(arities[1..]);
      assert forall i :: 0 < i < rest + 1 ==> arities[i] == arities[1..][i - 1];
      rest + 1
    else 0
  }

  const COMPACT_SKIP: nat := 10

  function Min(a: nat, b: nat): nat { if a < b then a else b }

  /** The number of bottom levels a compact commitment to n leaves does not store. */
  function SkipFor(arities: seq<nat>, n: nat): (s: nat)
    requires IsPowerOfTwo(n)
    ensures BottomBinary(arities, s) && s <= Log2(n)
  {
    Min(Min(LeadingTwos(arities), COMPACT_SKIP), Log2(n))
  }

  lemma {:induction false} LeadingTwosIsLargest(arities: seq<nat>, s: nat)
    requires BottomBinary(arities, s)
    ensures s <= LeadingTwos(arities)
  {
    if s > 0 {
      assert arities[0] == 2 && forall i :: 0 <= i < s - 1 ==> arities[1..][i] == arities[i + 1];
      LeadingTwosIsLargest(arities[1..], s - 1);
    }
  }

  /** The most binary levels at the bottom that the leaves have, up to ten. */
  lemma SkipIsLargest(arities: seq<nat>, n: nat, s: nat)
    requires IsPowerOfTwo(n)
    ensures SkipFor(arities, n) <= 10 && Pow2(SkipFor(arities, n)) <= n
    ensures BottomBinary(arities, s) && s <= 10 && Pow2(s) <= n ==> s <= SkipFor(arities, n)
  {
    var (k, most) := (SkipFor(arities, n), Log2(n));
    if k < most {
      Pow2Below(k, most);
    }
    if BottomBinary(arities, s) && Pow2(s) <= n {
      LeadingTwosIsLargest(arities, s);
      if most < s {
        Pow2Below(most, s);
      }
    }
  }

  /** The stored part of a compact commitment. */
  ghost predicate IsCompact(h: Hasher, cfg: MerkleChannelCfg, allValues: seq<seq<Byte>>, skip: nat,
                            levels: seq<seq<Digest>>)
    requires cfg.layerArities != []
  {
    var nodes := BinaryLevel(BinaryNode(h, cfg.treeLabel), LeafHashes(h, cfg, allValues), skip);
    && IsPowerOfTwo(|allValues|) && skip == SkipFor(cfg.layerArities, |allValues|)
    && nodes != [] && Covers(cfg.layerArities, skip, |nodes|) && levels == BuildLevels(h, cfg, skip, nodes)
  }

  class MerkleTreeChannel {
    const h: Hasher
    const cfg: MerkleChannelCfg
    var skip: nat
    var levels: seq<seq<Digest>>

    constructor (h: Hasher, cfg: MerkleChannelCfg)
      ensures this.h == h && this.cfg == cfg && skip == 0 && levels == []
    {
      this.h, this.cfg := h, cfg;
      skip, levels := 0, [];
    }

    method PushLeaf(values: seq<Byte>)
      requires cfg.layerArities != []
      modifies this
      ensures skip == old(skip)
      ensures old(levels) == [] ==> levels == [[LeafHash(h, cfg, 0, values)]]
      ensures old(levels) != [] ==>
        levels == old(levels)[0 := old(levels)[0] + [LeafHash(h, cfg, |old(levels)[0]|, values)]]
    {
      if levels == [] {
        levels := [[]];
      }
      var idx := |levels[0]|;
      var leaf := CompressLeaf(h, cfg.layerArities[0], cfg.treeLabel, idx, values);
      var grown := levels[0] + [leaf];
      assert idx == 0 ==> grown == [leaf];
      levels := levels[0 := grown];
    }

    method PushLeavesParallel(allValues: seq<seq<Byte>>)
      requires cfg.layerArities != []
      modifies this
      ensures skip == old(skip)
      ensures levels == if old(levels) == [] then [LeafHashes(h, cfg, allValues)]
              else old(levels)[0 := LeafHashes(h, cfg, allValues)]
    {
      if levels == [] {
        levels := [[]];
      }
      levels := levels[0 := LeafHashes(h, cfg, allValues)];
    }

    /** Hash level by level until one node is left, padding each level in place. */
    method Finalize() returns (root: Digest)
      requires |levels| == 1 && levels[0] != [] && Covers(cfg.layerArities, 0, |levels[0]|)
      modifies this
      ensures skip == old(skip)
      ensures levels == BuildLevels(h, cfg, 0, old(levels)[0])
      ensures root == RootOf(h, cfg, 0, old(levels)[0])
    {
      ghost var leaves := levels[0];
      levels := HashUp(0, levels);
      BuildIsLinked(h, cfg, 0, leaves);
      root := levels[|levels| - 1][0];
    }

    /** The loop shared by `finalize` and the second phase of `commit_compact`: `start` is the tree
        level of the only stored level. */
    method HashUp(start: nat, stored: seq<seq<Digest>>) returns (built: seq<seq<Digest>>)
      requires |stored| == 1 && stored[0] != [] && Covers(cfg.layerArities, start, |stored[0]|)
      ensures built == BuildLevels(h, cfg, start, stored[0])
    {
      built := [];
      var cur := stored[0];
      var treeLevel := start;
      while |cur| > 1
        invariant cur != [] && Covers(cfg.layerArities, treeLevel, |cur|)
        invariant BuildLevels(h, cfg, start, stored[0]) == built + BuildLevels(h, cfg, treeLevel, cur)
        decreases |cfg.layerArities| - treeLevel
      {
        var arity := cfg.layerArities[treeLevel];
        ParentLevel(h, cfg, treeLevel, cur);
        var padded := PadLevel(cur, arity);
        var parents := HashGroups(arity, treeLevel + 1, padded);
        assert BuildLevels(h, cfg, treeLevel, cur) == [padded] + BuildLevels(h, cfg, treeLevel + 1, parents);
        built := built + [padded];
        cur := parents;
        treeLevel := treeLevel + 1;
      }
      built := built + [cur];
    }

    static method PadLevel(nodes: seq<Digest>, arity: nat) returns (padded: seq<Digest>)
      requires nodes != [] && arity > 0
      ensures padded == Pad(nodes, arity)
    {
      padded := nodes;
      if |nodes| % arity != 0 {
        var last := nodes[|nodes| - 1];
        var pad := arity - |nodes| % arity;
        padded := padded + Repeat(last, pad);
      }
    }

    /** `chunks(arity)` with the group number as position. */
    method HashGroups(arity: nat, parentLevel: nat, nodes: seq<Digest>) returns (parents: seq<Digest>)
      requires arity > 0
      ensures parents == Parents(h, cfg.treeLabel, arity, parentLevel, nodes, 0)
    {
      parents := [];
      var rest := nodes;
      while |rest| >= arity
        invariant Parents(h, cfg.treeLabel, arity, parentLevel, nodes, 0)
               == parents + Parents(h, cfg.treeLabel, arity, parentLevel, rest, |parents|)
        decreases |rest|
      {
        parents := parents + [CompressNode(h, arity, cfg.treeLabel, parentLevel, |parents|, rest[..arity])];
        rest := rest[arity..];
      }
    }

    /** Collect the siblings of the index on every stored level. */
    method Open(index: nat) returns (opening: MerkleOpening)
      requires LevelsFit(levels, cfg.layerArities, skip) && index < |levels[0]|
      ensures opening == MerkleOpening(levels[0][index], PathOf(levels, cfg.layerArities, skip, index), index)
    {
      var path := TopPath(index);
      opening := MerkleOpening(levels[0][index], path, index);
    }

    method CollectSiblings(nodes: seq<Digest>, arity: nat, idx: nat) returns (siblings: seq<Digest>)
      ensures siblings == Siblings(nodes, arity, idx)
    {
      siblings := [];
      if arity > 0 && nodes != [] {
        var groupStart := Quot(idx, arity) * arity;
        siblings := CollectGroup(nodes, groupStart, groupStart + arity, idx);
      }
    }

    method CollectGroup(nodes: seq<Digest>, groupStart: nat, groupEnd: nat, idx: nat) returns (siblings: seq<Digest>)
      requires nodes != [] && groupStart <= groupEnd
      ensures siblings == GroupMembers(nodes, groupStart, groupEnd, idx)
    {
      siblings := [];
      for pos := groupStart to groupEnd
        invariant GroupMembers(nodes, groupStart, groupEnd, idx) == siblings + GroupMembers(nodes, pos, groupEnd, idx)
      {
        GroupStep(nodes, pos, groupEnd, idx, siblings);
        if pos != idx {
          siblings := siblings + [if pos < |nodes| then nodes[pos] else nodes[|nodes| - 1]];
        }
      }
    }

    /** Recompute the root from the leaf and compare. */
    static method VerifyOpening(h: Hasher, cfg: MerkleChannelCfg, root: Digest, opening: MerkleOpening)
      returns (w: Verdict)
      ensures w == OpeningVerdict(h, cfg, root, opening)
      ensures w.Accept? <==> PathFits(cfg, opening.path) && Verifies(h, cfg, root, opening)
    {
      OpeningVerdictIs(h, cfg, root, opening);
      var cur := opening.leaf;
      var idx := opening.index;
      for level := 0 to |opening.path|
        invariant PathVerdict(h, cfg, root, opening.path, level, cur, idx) == OpeningVerdict(h, cfg, root, opening)
      {
        if level >= |cfg.layerArities| || cfg.layerArities[level] == 0 {
          return Abort;
        }
        var arity := cfg.layerArities[level];
        var enough, children := GatherChildren(opening.path[level], arity, Rem(idx, arity), cur);
        if !enough {
          return Reject;
        }
        cur := h.Hash(NodeInput(arity, cfg.treeLabel, level + 1, Quot(idx, arity), children));
        idx := Quot(idx, arity);
      }
      w := VerdictOf(cur == root);
    }

    /** The inner loop of verification: fails as soon as a sibling is missing. */
    static method GatherChildren(siblings: seq<Digest>, arity: nat, pos: nat, cur: Digest)
      returns (enough: bool, children: seq<Digest>)
      requires pos < arity
      ensures enough <==> |siblings| >= arity - 1
      ensures enough ==> children == Assemble(siblings, arity, pos, cur)
    {
      children := [];
      var next := 0;
      for i := 0 to arity
        invariant next == (if i <= pos then i else i - 1) <= |siblings|
        invariant children == if i <= pos then siblings[..i] else siblings[..pos] + [cur] + siblings[pos..i - 1]
      {
        if i == pos {
          children := children + [cur];
        } else if next < |siblings| {
          children := children + [siblings[next]];
          next := next + 1;
        } else {
          return false, children;
        }
      }
      enough := true;
    }

    // ---------- compact form ----------

    /** Fold every chunk to one node, then hash up as `finalize` does: the root is the full tree's. */
    method CommitCompact(allValues: seq<seq<Byte>>) returns (root: Digest)
      requires cfg.layerArities != [] && IsPowerOfTwo(|allValues|)
      requires Covers(cfg.layerArities, 0, |allValues|)
      modifies this
      ensures IsCompact(h, cfg, allValues, skip, levels)
      ensures root == RootOf(h, cfg, 0, LeafHashes(h, cfg, allValues))
    {
      var n := |allValues|;
      ghost var f, leaves := BinaryNode(h, cfg.treeLabel), LeafHashes(h, cfg, allValues);
      skip := SkipFor(cfg.layerArities, n);
      var chunkSize := Pow2(skip);
      ghost var l := Log2(n);
      Pow2Quotient(l, skip);
      var numChunks := n / chunkSize;
      var chunkNodes := FoldChunks(allValues, skip, chunkSize, numChunks, l);
      BuildSplits(h, cfg, f, leaves, l, skip);
      BuildIsLinked(h, cfg, skip, chunkNodes);
      levels := HashUp(skip, [chunkNodes]);
      root := levels[|levels| - 1][0];
    }

    method FoldChunks(allValues: seq<seq<Byte>>, skip: nat, chunkSize: nat, numChunks: nat, ghost l: nat)
      returns (chunkNodes: seq<Digest>)
      requires cfg.layerArities != [] && |allValues| == Pow2(l) && skip <= l
      requires chunkSize == Pow2(skip) && numChunks == Pow2(l - skip)
      ensures chunkNodes == BinaryLevel(BinaryNode(h, cfg.treeLabel), LeafHashes(h, cfg, allValues), skip)
    {
      ghost var f, leaves := BinaryNode(h, cfg.treeLabel), LeafHashes(h, cfg, allValues);
      BinaryLevelLength(f, leaves, l, skip);
      chunkNodes := [];
      for c := 0 to numChunks
        invariant chunkNodes == BinaryLevel(f, leaves, skip)[..c]
      {
        ShlIsMultiply(c, skip);
        ChunkIsSlice(f, leaves, l, skip, c, skip);
        var node := FoldChunk(h, cfg, c * chunkSize, chunkSize, skip, allValues);
        assert BinaryLevel(f, leaves, skip)[c..c + 1] == [node];
        chunkNodes := chunkNodes + [node];
      }
    }

    /** Rebuild the chunk of the index, read the bottom siblings from it and the rest from storage:
        exactly the opening of the full tree. */
    method OpenCompact(index: nat, allValues: seq<seq<Byte>>) returns (opening: MerkleOpening)
      requires cfg.layerArities != [] && index < |allValues|
      requires Covers(cfg.layerArities, 0, |allValues|)
      requires IsCompact(h, cfg, allValues, skip, levels)
      ensures index < |BuildLevels(h, cfg, 0, LeafHashes(h, cfg, allValues))[0]|
      ensures opening == OpeningOf(h, cfg, LeafHashes(h, cfg, allValues), index)
    {
      ghost var f, leaves, l := BinaryNode(h, cfg.treeLabel), LeafHashes(h, cfg, allValues), Log2(|allValues|);
      var chunkSize := Pow2(skip);
      var chunkLevels := RebuildChunkLevels(h, cfg, index, chunkSize, skip, allValues);
      ChunkBase(index, skip);
      var chunkBase := Quot(index, chunkSize) * chunkSize;
      var bottom, idx := BottomPath(chunkLevels, index, chunkBase, leaves, l);
      ChunkLeaf(f, leaves, l, skip, index, chunkBase, chunkLevels);
      BuildIsLinked(h, cfg, skip, BinaryLevel(f, leaves, skip));
      var top := TopPath(idx);
      var leaf := chunkLevels[0][index - chunkBase];
      opening := MerkleOpening(leaf, bottom + top, index);
      SameOpening(h, cfg, f, leaves, l, skip, index, opening);
    }

    /** The partner of the node on one level of the chunk. */
    method PartnerInChunk(chunkLevels: seq<seq<Digest>>, index: nat, idx: nat, depth: nat, chunkBase: nat,
                          ghost leaves: seq<Digest>, ghost l: nat) returns (siblings: seq<Digest>)
      requires |leaves| == Pow2(l) && depth < skip <= l && index < |leaves| && idx == Shr(index, depth)
      requires chunkBase == Shl(Shr(index, skip), skip) < |leaves|
      requires chunkLevels == ChunkLevelsUpTo(BinaryNode(h, cfg.treeLabel), leaves, chunkBase, Pow2(skip), skip + 1)
      ensures siblings == BottomSiblings(BinaryNode(h, cfg.treeLabel), leaves, index, depth)
    {
      ChunkPartner(BinaryNode(h, cfg.treeLabel), leaves, l, skip, index, depth, chunkBase, chunkLevels);
      var level, local := chunkLevels[depth], idx - Shr(chunkBase, depth);
      siblings := [level[Other(local)]];
    }

    method BottomPath(chunkLevels: seq<seq<Digest>>, index: nat, chunkBase: nat, ghost leaves: seq<Digest>,
                      ghost l: nat)
      returns (path: seq<seq<Digest>>, idx: nat)
      requires |leaves| == Pow2(l) && skip <= l && index < |leaves|
      requires chunkBase == Shl(Shr(index, skip), skip) < |leaves|
      requires chunkLevels == ChunkLevelsUpTo(BinaryNode(h, cfg.treeLabel), leaves, chunkBase, Pow2(skip), skip + 1)
      ensures idx == Shr(index, skip)
      ensures path == BottomUpTo(BinaryNode(h, cfg.treeLabel), leaves, index, skip)
    {
      ghost var f := BinaryNode(h, cfg.treeLabel);
      idx := index;
      path := [];
      for depth := 0 to skip
        invariant idx == Shr(index, depth)
        invariant path == BottomUpTo(f, leaves, index, depth)
      {
        var siblings := PartnerInChunk(chunkLevels, index, idx, depth, chunkBase, leaves, l);
        path := path + [siblings];
        idx := idx / 2;
      }
    }

    method TopPath(index: nat) returns (path: seq<seq<Digest>>)
      requires levels != []
      ensures path == PathOf(levels, cfg.layerArities, skip, index)
    {
      var idx := index;
      path := [];
      for level := 0 to |levels| - 1
        invariant idx == IndexUp(cfg.layerArities, skip, index, level)
        invariant path == PathUpTo(levels, cfg.layerArities, skip, index, level)
      {
        var arity := ArityAt(cfg.layerArities, skip + level);
        var siblings := CollectSiblings(levels[level], arity, idx);
        path := path + [siblings];
        idx := if arity == 0 then 0 else Quot(idx, arity);
      }
    }
  }

  lemma ChunkLeaf(f: NodeHash, leaves: seq<Digest>, l: nat, s: nat, index: nat, base: nat,
                  chunkLevels: seq<seq<Digest>>)
    requires |leaves| == Pow2(l) && s <= l && index < |leaves| && base == Shl(Shr(index, s), s) < |leaves|
    requires chunkLevels == ChunkLevelsUpTo(f, leaves, base, Pow2(s), s + 1)
    ensures base <= index && index - base < |chunkLevels[0]| && chunkLevels[0][index - base] == leaves[index]
  {
    ChunkLevelsAt(f, leaves, base, Pow2(s), s + 1, 0);
    ChunkAround(f, leaves, l, s, index, 0, base);
  }

  lemma ChunkPartner(f: NodeHash, leaves: seq<Digest>, l: nat, s: nat, index: nat, d: nat, base: nat,
                     chunkLevels: seq<seq<Digest>>)
    requires |leaves| == Pow2(l) && d < s <= l && index < |leaves| && base == Shl(Shr(index, s), s) < |leaves|
    requires chunkLevels == ChunkLevelsUpTo(f, leaves, base, Pow2(s), s + 1)
    ensures Shr(base, d) <= Shr(index, d) && Other(Shr(index, d) - Shr(base, d)) < |chunkLevels[d]|
    ensures BottomSiblings(f, leaves, index, d) == [chunkLevels[d][Other(Shr(index, d) - Shr(base, d))]]
  {
    ChunkLevelsAt(f, leaves, base, Pow2(s), s + 1, d);
    ChunkAround(f, leaves, l, s, index, d, base);
    BinaryLevelLength(f, leaves, l, d);
    LocalSibling(BinaryLevel(f, leaves, d), chunkLevels[d], l, s, index, d, base);
  }

  /** The group from a position on: the node there, unless it is left out, then the rest. */
  lemma GroupStep(nodes: seq<Digest>, pos: nat, end: nat, idx: nat, before: seq<Digest>)
    requires nodes != [] && pos < end
    ensures
      var here := if pos == idx then [] else [if pos < |nodes| then nodes[pos] else nodes[|nodes| - 1]];
      before + GroupMembers(nodes, pos, end, idx) == (before + here) + GroupMembers(nodes, pos + 1, end, idx)
  {
  }

  lemma SameOpening(h: Hasher, cfg: MerkleChannelCfg, f: NodeHash, leaves: seq<Digest>, l: nat, s: nat, index: nat,
                    o: MerkleOpening)
    requires f == BinaryNode(h, cfg.treeLabel)
    requires |leaves| == Pow2(l) && s <= l && BottomBinary(cfg.layerArities, s) && index < |leaves|
    requires Covers(cfg.layerArities, 0, |leaves|)
    requires BinaryLevel(f, leaves, s) != [] && Covers(cfg.layerArities, s, |BinaryLevel(f, leaves, s)|)
    requires o.leaf == leaves[index] && o.index == index
    requires o.path == CompactPath(f, cfg.layerArities, leaves, s, index,
                                   BuildLevels(h, cfg, s, BinaryLevel(f, leaves, s)))
    ensures index < |BuildLevels(h, cfg, 0, leaves)[0]| && o == OpeningOf(h, cfg, leaves, index)
  {
    CompactPathIsFull(h, cfg, f, leaves, l, s, index);
    BuildIsLinked(h, cfg, 0, leaves);
  }
}
