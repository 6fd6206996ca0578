/** What an accepted opening says about the tree whose root it is accepted under: it reads the tree's own node at its
    index, or two different hash inputs with one digest are at hand. */
module MerkleReads {
  import opened Arith
  import opened Rings
  import opened Hashing
  import opened Merkle

  // ---------- what hash inputs determine ----------

  /** Everything that goes into a node's hash can be told from its input. */
  lemma NodeInputInjective(a1: nat, t1: nat, l1: nat, p1: nat, c1: seq<Digest>, a2: nat, t2: nat, l2: nat, p2: nat,
                           c2: seq<Digest>, len: nat)
    requires NodeInput(a1, t1, l1, p1, c1) == NodeInput(a2, t2, l2, p2, c2) && |c1| == |c2|
    requires AllSized(c1, len) && AllSized(c2, len)
    ensures a1 == a2 && t1 == t2 && l1 % WORD32 == l2 % WORD32 && p1 == p2 && c1 == c2
  {
    ConcatInjective(c1, c2, len);
  }

  lemma LeafInputInjective(a1: nat, t1: nat, p1: nat, v1: seq<Byte>, a2: nat, t2: nat, p2: nat, v2: seq<Byte>)
    ensures LeafInput(a1, t1, p1, v1) == LeafInput(a2, t2, p2, v2) <==> a1 == a2 && t1 == t2 && p1 == p2 && v1 == v2
  {
    var x, y := LeafInput(a1, t1, p1, v1), LeafInput(a2, t2, p2, v2);
    assert x == y ==> x.tag.arity == y.tag.arity && x.tag.position == y.tag.position;
  }

  /** Leaves carry the largest 32-bit level, which no node of a tree with fewer levels carries. */
  lemma LeafLevelIsLargest(a1: nat, t1: nat, p1: nat, v: seq<Byte>, a2: nat, t2: nat, l: nat, p2: nat, c: seq<Digest>)
    ensures NodeInput(a2, t2, l, p2, c).tag.level <= LeafInput(a1, t1, p1, v).tag.level < WORD32
    ensures l < WORD32 - 1 ==> NodeInput(a2, t2, l, p2, c) != LeafInput(a1, t1, p1, v)
  {
    assert l < WORD32 - 1 ==> NodeInput(a2, t2, l, p2, c).tag.level == l;
  }

  ghost predicate AllSized(nodes: seq<Digest>, len: nat) {
    forall i :: 0 <= i < |nodes| ==> |nodes[i]| == len
  }

  /** The children follow the label one after the other. */
  lemma {:induction false} BodyAt(parts: seq<Digest>, len: nat, i: nat, s: nat)
    requires AllSized(parts, len) && i < |parts| && s == i * len
    ensures s + len <= |Concat(parts)| && Concat(parts)[s..s + len] == parts[i]
    decreases i
  {
    var rest := Concat(parts[1..]);
    assert Concat(parts) == parts[0] + rest;
    if i > 0 {
      OneBlockLess(i, len, s);
      BodyAt(parts[1..], len, i - 1, s - len);
      assert (parts[0] + rest)[s..s + len] == rest[s - len..s];
    }
  }

  // ---------- an opening against a tree ----------

  /** The node a position reads: positions past the end read the last one. */
  function Clamp(j: nat, n: nat): (c: nat)
    requires n > 0
    ensures c < n && c <= j
  {
    if j < n then j else n - 1
  }

  function ParentsOf(h: Hasher, cfg: MerkleChannelCfg, level: nat, nodes: seq<Digest>): (up: seq<Digest>)
    requires |nodes| > 1 && Covers(cfg.layerArities, level, |nodes|)
    ensures up != [] && Covers(cfg.layerArities, level + 1, |up|)
  {
    ParentLevel(h, cfg, level, nodes);
    Parents(h, cfg.treeLabel, cfg.layerArities[level], level + 1, Pad(nodes, cfg.layerArities[level]), 0)
  }

  /** The levels above these nodes. */
  function HeightOf(h: Hasher, cfg: MerkleChannelCfg, level: nat, nodes: seq<Digest>): nat
    requires nodes != [] && Covers(cfg.layerArities, level, |nodes|)
    decreases |cfg.layerArities| - level
  {
    if |nodes| == 1 then 0 else 1 + HeightOf(h, cfg, level + 1, ParentsOf(h, cfg, level, nodes))
  }

  lemma {:induction false} HeightIsLevels(h: Hasher, cfg: MerkleChannelCfg, level: nat, nodes: seq<Digest>)
    requires nodes != [] && Covers(cfg.layerArities, level, |nodes|)
    ensures HeightOf(h, cfg, level, nodes) + 1 == |BuildLevels(h, cfg, level, nodes)|
    ensures level <= |cfg.layerArities| ==> level + HeightOf(h, cfg, level, nodes) <= |cfg.layerArities|
    decreases |cfg.layerArities| - level
  {
    if |nodes| > 1 {
      HeightIsLevels(h, cfg, level + 1, ParentsOf(h, cfg, level, nodes));
    }
  }

  /** The p-th group of arity nodes. */
  function Group(nodes: seq<Digest>, arity: nat, p: nat): (group: seq<Digest>)
    requires arity > 0
    ensures |group| <= arity
    decreases p
  {
    if |nodes| < arity then [] else if p == 0 then nodes[..arity] else Group(nodes[arity..], arity, p - 1)
  }

  lemma {:induction false} GroupParent(h: Hasher, treeLabel: nat, arity: nat, level: nat, nodes: seq<Digest>,
                                       position: nat, p: nat)
    requires arity > 0 && p < |Parents(h, treeLabel, arity, level, nodes, position)|
    ensures |Group(nodes, arity, p)| == arity
    ensures Parents(h, treeLabel, arity, level, nodes, position)[p]
         == CompressNode(h, arity, treeLabel, level, position + p, Group(nodes, arity, p))
    decreases p
  {
    if p > 0 {
      GroupParent(h, treeLabel, arity, level, nodes[arity..], position + 1, p - 1);
    }
  }

  lemma {:induction false} GroupRead(nodes: seq<Digest>, arity: nat, p: nat, pos: nat, idx: nat)
    requires arity > 0 && p == Quot(idx, arity) && pos == Rem(idx, arity) && |Group(nodes, arity, p)| == arity
    ensures idx < |nodes| && Group(nodes, arity, p)[pos] == nodes[idx]
    decreases p
  {
    BlockOf(idx, arity, p * arity);
    if p > 0 {
      var below := idx - arity;
      DivModShift(below, arity);
      GroupRead(nodes[arity..], arity, p - 1, pos, below);
    }
  }

  lemma {:induction false} GroupIsSized(nodes: seq<Digest>, arity: nat, p: nat, len: nat)
    requires arity > 0 && AllSized(nodes, len)
    ensures AllSized(Group(nodes, arity, p), len)
    decreases p
  {
    if |nodes| >= arity && p > 0 {
      GroupIsSized(nodes[arity..], arity, p - 1, len);
    }
  }

  /** The group under parent p. */
  function GroupOf(h: Hasher, cfg: MerkleChannelCfg, level: nat, nodes: seq<Digest>, p: nat): (group: seq<Digest>)
    requires |nodes| > 1 && Covers(cfg.layerArities, level, |nodes|) && p < |ParentsOf(h, cfg, level, nodes)|
    ensures |group| == cfg.layerArities[level]
  {
    var arity := cfg.layerArities[level];
    GroupParent(h, cfg.treeLabel, arity, level + 1, Pad(nodes, arity), 0, p);
    Group(Pad(nodes, arity), arity, p)
  }

  /** What the tree hashes for the parent that position j of the next level reads. */
  function TreeInput(h: Hasher, cfg: MerkleChannelCfg, level: nat, nodes: seq<Digest>, j: nat): HashInput
    requires |nodes| > 1 && Covers(cfg.layerArities, level, |nodes|)
  {
    var p := Clamp(j, |ParentsOf(h, cfg, level, nodes)|);
    NodeInput(cfg.layerArities[level], cfg.treeLabel, level + 1, p, GroupOf(h, cfg, level, nodes, p))
  }

  lemma TreeInputHashes(h: Hasher, cfg: MerkleChannelCfg, level: nat, nodes: seq<Digest>, j: nat)
    requires |nodes| > 1 && Covers(cfg.layerArities, level, |nodes|)
    ensures
      var up := ParentsOf(h, cfg, level, nodes);
      h.Hash(TreeInput(h, cfg, level, nodes, j)) == up[Clamp(j, |up|)]
  {
    var arity, up := cfg.layerArities[level], ParentsOf(h, cfg, level, nodes);
    var p := Clamp(j, |up|);
    GroupParent(h, cfg.treeLabel, arity, level + 1, Pad(nodes, arity), 0, p);
  }

  /** The topmost level at which the opening and the tree hash different inputs. */
  function MeetingAbove(h: Hasher, cfg: MerkleChannelCfg, level: nat, nodes: seq<Digest>,
                        o: MerkleOpening): (found: Option<(HashInput, HashInput)>)
    requires nodes != [] && Covers(cfg.layerArities, level, |nodes|)
    requires PathFits(cfg, o.path) && EnoughSiblings(cfg, o.path, |o.path|)
    requires |o.path| == level + HeightOf(h, cfg, level, nodes)
    decreases |cfg.layerArities| - level
  {
    if |nodes| == 1 then None
    else
      var above := MeetingAbove(h, cfg, level + 1, ParentsOf(h, cfg, level, nodes), o);
      var (x, y) := (ClimbInput(h, cfg, o, level),
                     TreeInput(h, cfg, level, nodes, IndexUp(cfg.layerArities, 0, o.index, level + 1)));
      if above.Some? || x == y then above else Some((x, y))
  }

  /** The opening's value at this level is the tree's at its index. */
  ghost predicate ReadsAt(h: Hasher, cfg: MerkleChannelCfg, level: nat, nodes: seq<Digest>, o: MerkleOpening)
    requires nodes != [] && Covers(cfg.layerArities, level, |nodes|)
    requires PathFits(cfg, o.path) && EnoughSiblings(cfg, o.path, |o.path|) && level <= |o.path|
  {
    var j := IndexUp(cfg.layerArities, 0, o.index, level);
    && (|nodes| > 1 ==> j < |Pad(nodes, cfg.layerArities[level])|)
    && Climb(h, cfg, o, level) == nodes[Clamp(j, |nodes|)]
  }

  /** Padding repeats the last node. */
  lemma PadAt(nodes: seq<Digest>, arity: nat, j: nat)
    requires arity > 0 && nodes != [] && j < |Pad(nodes, arity)|
    ensures Pad(nodes, arity)[j] == nodes[Clamp(j, |nodes|)]
  {
  }

  lemma ParentsSized(h: Hasher, cfg: MerkleChannelCfg, level: nat, nodes: seq<Digest>)
    requires FixedLength(h) && |nodes| > 1 && Covers(cfg.layerArities, level, |nodes|)
    ensures AllSized(ParentsOf(h, cfg, level, nodes), h.len)
  {
    var up := ParentsOf(h, cfg, level, nodes);
    forall p | 0 <= p < |up|
      ensures |up[p]| == h.len
    {
      TreeInputHashes(h, cfg, level, nodes, p);
    }
  }

  lemma GroupSized(h: Hasher, cfg: MerkleChannelCfg, level: nat, nodes: seq<Digest>, p: nat)
    requires AllSized(nodes, h.len) && |nodes| > 1 && Covers(cfg.layerArities, level, |nodes|)
    requires p < |ParentsOf(h, cfg, level, nodes)|
    ensures AllSized(GroupOf(h, cfg, level, nodes, p), h.len)
  {
    var padded := Pad(nodes, cfg.layerArities[level]);
    forall j | 0 <= j < |padded|
      ensures |padded[j]| == h.len
    {
      PadAt(nodes, cfg.layerArities[level], j);
    }
    GroupIsSized(padded, cfg.layerArities[level], p, h.len);
  }

  /** Equal inputs at one level: the opening's position is a parent's own, and its value the tree's. */
  lemma ReadsBelow(h: Hasher, cfg: MerkleChannelCfg, level: nat, nodes: seq<Digest>, o: MerkleOpening, arity: nat,
                   idx: nat, up: nat)
    requires FixedLength(h) && WellSized(h, o) && AllSized(nodes, h.len)
    requires |nodes| > 1 && Covers(cfg.layerArities, level, |nodes|)
    requires PathFits(cfg, o.path) && EnoughSiblings(cfg, o.path, |o.path|) && level < |o.path|
    requires arity == cfg.layerArities[level] && idx == IndexUp(cfg.layerArities, 0, o.index, level)
    requires up == Quot(idx, arity) && ClimbInput(h, cfg, o, level) == TreeInput(h, cfg, level, nodes, up)
    ensures ReadsAt(h, cfg, level, nodes, o)
  {
    var pos, cur := Rem(idx, arity), Climb(h, cfg, o, level);
    var p := Clamp(up, |ParentsOf(h, cfg, level, nodes)|);
    ClimbSized(h, cfg, o, level);
    SameGroup(h, cfg, level, nodes, o.path[level], arity, pos, cur, up, p);
    GroupEntry(h, cfg, level, nodes, p, pos, idx);
  }

  lemma SameGroup(h: Hasher, cfg: MerkleChannelCfg, level: nat, nodes: seq<Digest>, siblings: seq<Digest>, arity: nat,
                  pos: nat, cur: Digest, up: nat, p: nat)
    requires AllSized(nodes, h.len) && AllSized(siblings, h.len) && |cur| == h.len
    requires |nodes| > 1 && Covers(cfg.layerArities, level, |nodes|) && p < |ParentsOf(h, cfg, level, nodes)|
    requires arity == cfg.layerArities[level] && pos < arity && |siblings| >= arity - 1
    requires NodeInput(arity, cfg.treeLabel, level + 1, up, Assemble(siblings, arity, pos, cur))
          == NodeInput(arity, cfg.treeLabel, level + 1, p, GroupOf(h, cfg, level, nodes, p))
    ensures up == p && GroupOf(h, cfg, level, nodes, p)[pos] == cur
  {
    var mine, theirs := Assemble(siblings, arity, pos, cur), GroupOf(h, cfg, level, nodes, p);
    AssembledSized(siblings, arity, pos, cur, h.len);
    GroupSized(h, cfg, level, nodes, p);
    NodeInputInjective(arity, cfg.treeLabel, level + 1, up, mine, arity, cfg.treeLabel, level + 1, p, theirs, h.len);
    assert mine[pos] == cur;
  }

  lemma GroupEntry(h: Hasher, cfg: MerkleChannelCfg, level: nat, nodes: seq<Digest>, p: nat, pos: nat, idx: nat)
    requires |nodes| > 1 && Covers(cfg.layerArities, level, |nodes|) && p < |ParentsOf(h, cfg, level, nodes)|
    requires p == Quot(idx, cfg.layerArities[level]) && pos == Rem(idx, cfg.layerArities[level])
    ensures idx < |Pad(nodes, cfg.layerArities[level])|
    ensures GroupOf(h, cfg, level, nodes, p)[pos] == nodes[Clamp(idx, |nodes|)]
  {
    var arity := cfg.layerArities[level];
    var padded := Pad(nodes, arity);
    assert |Group(padded, arity, p)| == arity by {
      assert GroupOf(h, cfg, level, nodes, p) == Group(padded, arity, p);
    }
    GroupRead(padded, arity, p, pos, idx);
    PadAt(nodes, arity, idx);
  }

  /** An opening as long as the tree is high, accepted under its root, hashes what the tree hashes on every level
      and so reads its node, or hashes something else of the same digest. */
  lemma {:induction false} MeetingAboveIs(h: Hasher, cfg: MerkleChannelCfg, level: nat, nodes: seq<Digest>,
                                          o: MerkleOpening)
    requires FixedLength(h) && WellSized(h, o) && AllSized(nodes, h.len)
    requires nodes != [] && Covers(cfg.layerArities, level, |nodes|) && PathFits(cfg, o.path)
    requires Verifies(h, cfg, RootOf(h, cfg, level, nodes), o) && |o.path| == level + HeightOf(h, cfg, level, nodes)
    ensures
      var found := MeetingAbove(h, cfg, level, nodes, o);
      if found.Some? then Collision(h, found.value.0, found.value.1) else ReadsAt(h, cfg, level, nodes, o)
    decreases |cfg.layerArities| - level
  {
    if |nodes| > 1 {
      var parents, next := ParentsOf(h, cfg, level, nodes), level + 1;
      ParentsSized(h, cfg, level, nodes);
      MeetingAboveIs(h, cfg, next, parents, o);
      if MeetingAbove(h, cfg, next, parents, o).None? {
        var arity, idx := cfg.layerArities[level], IndexUp(cfg.layerArities, 0, o.index, level);
        var up := Quot(idx, arity);
        assert IndexUp(cfg.layerArities, 0, o.index, next) == up;
        TreeInputHashes(h, cfg, level, nodes, up);
        if ClimbInput(h, cfg, o, level) == TreeInput(h, cfg, level, nodes, up) {
          ReadsBelow(h, cfg, level, nodes, o, arity, idx, up);
        }
      }
    }
  }

  /** An index past the padded bottom level is not accepted without a collision. */
  lemma IndexPastEnd(h: Hasher, cfg: MerkleChannelCfg, leaves: seq<Digest>, o: MerkleOpening)
    requires FixedLength(h) && WellSized(h, o) && AllSized(leaves, h.len)
    requires |leaves| > 1 && Covers(cfg.layerArities, 0, |leaves|) && PathFits(cfg, o.path)
    requires Verifies(h, cfg, RootOf(h, cfg, 0, leaves), o) && |o.path| == |BuildLevels(h, cfg, 0, leaves)| - 1
    requires o.index >= |BuildLevels(h, cfg, 0, leaves)[0]|
    ensures |o.path| == HeightOf(h, cfg, 0, leaves)
    ensures
      var found := MeetingAbove(h, cfg, 0, leaves, o);
      found.Some? && Collision(h, found.value.0, found.value.1)
  {
    HeightIsLevels(h, cfg, 0, leaves);
    MeetingAboveIs(h, cfg, 0, leaves, o);
  }

  // ---------- a leaf check against a tree ----------

  /** The input whose hash is the root. */
  function RootInput(h: Hasher, cfg: MerkleChannelCfg, level: nat, nodes: seq<Digest>): HashInput
    requires |nodes| > 1 && Covers(cfg.layerArities, level, |nodes|)
    decreases |cfg.layerArities| - level
  {
    var up := ParentsOf(h, cfg, level, nodes);
    if |up| == 1 then TreeInput(h, cfg, level, nodes, 0) else RootInput(h, cfg, level + 1, up)
  }

  lemma {:induction false} RootInputIs(h: Hasher, cfg: MerkleChannelCfg, level: nat, nodes: seq<Digest>)
    requires |nodes| > 1 && Covers(cfg.layerArities, level, |nodes|)
    ensures h.Hash(RootInput(h, cfg, level, nodes)) == RootOf(h, cfg, level, nodes)
    ensures HeightOf(h, cfg, level, nodes) > 0
    ensures RootInput(h, cfg, level, nodes).tag.level == (level + HeightOf(h, cfg, level, nodes)) % WORD32
    decreases |cfg.layerArities| - level
  {
    var up := ParentsOf(h, cfg, level, nodes);
    if |up| == 1 {
      TreeInputHashes(h, cfg, level, nodes, 0);
    } else {
      RootInputIs(h, cfg, level + 1, up);
    }
  }

  /** What the tree over these values hashes last. */
  function TopInput(h: Hasher, cfg: MerkleChannelCfg, values: seq<seq<Byte>>): HashInput
    requires values != [] && cfg.layerArities != [] && Covers(cfg.layerArities, 0, |values|)
  {
    if |values| == 1 then LeafInput(cfg.layerArities[0], cfg.treeLabel, 0, values[0])
    else RootInput(h, cfg, 0, LeafHashes(h, cfg, values))
  }

  /** What an opening of value v hashes last. */
  function LastOf(h: Hasher, cfg: MerkleChannelCfg, o: MerkleOpening, v: seq<Byte>): HashInput
    requires cfg.layerArities != [] && PathFits(cfg, o.path) && EnoughSiblings(cfg, o.path, |o.path|)
  {
    if o.path == [] then ValueInput(cfg, o, v) else LastInput(h, cfg, o)
  }

  /** The inputs to compare: the last ones if opening and tree differ in height, those at which they part if they
      do, else the leaf inputs. */
  function ReadCollision(h: Hasher, cfg: MerkleChannelCfg, values: seq<seq<Byte>>, o: MerkleOpening,
                         v: seq<Byte>): (HashInput, HashInput)
    requires values != [] && cfg.layerArities != [] && Covers(cfg.layerArities, 0, |values|)
    requires PathFits(cfg, o.path) && EnoughSiblings(cfg, o.path, |o.path|)
  {
    var hashes := LeafHashes(h, cfg, values);
    if |o.path| != HeightOf(h, cfg, 0, hashes) then (LastOf(h, cfg, o, v), TopInput(h, cfg, values))
    else
      var found, c := MeetingAbove(h, cfg, 0, hashes, o), Clamp(o.index, |values|);
      if found.Some? then found.value
      else (ValueInput(cfg, o, v), LeafInput(cfg.layerArities[0], cfg.treeLabel, c, values[c]))
  }

  lemma TopInputIs(h: Hasher, cfg: MerkleChannelCfg, values: seq<seq<Byte>>)
    requires values != [] && cfg.layerArities != [] && Covers(cfg.layerArities, 0, |values|)
    ensures h.Hash(TopInput(h, cfg, values)) == RootOf(h, cfg, 0, LeafHashes(h, cfg, values))
    ensures
      var height := HeightOf(h, cfg, 0, LeafHashes(h, cfg, values));
      TopInput(h, cfg, values).tag.level == if height == 0 then LEAF_LEVEL_DS else height % WORD32
  {
    var hashes := LeafHashes(h, cfg, values);
    if |values| > 1 {
      RootInputIs(h, cfg, 0, hashes);
    } else {
      assert hashes == [LeafHash(h, cfg, 0, values[0])];
    }
  }

  lemma LastOfIs(h: Hasher, cfg: MerkleChannelCfg, root: Digest, o: MerkleOpening, v: seq<Byte>)
    requires cfg.layerArities != [] && PathFits(cfg, o.path) && Verifies(h, cfg, root, o)
    requires o.leaf == LeafHash(h, cfg, o.index, v)
    ensures h.Hash(LastOf(h, cfg, o, v)) == root
    ensures LastOf(h, cfg, o, v).tag.level == if o.path == [] then LEAF_LEVEL_DS else |o.path| % WORD32
  {
    if o.path == [] {
      assert Climb(h, cfg, o, 0) == o.leaf;
    } else {
      LevelOf(h, cfg, o, |o.path| - 1);
    }
  }

  /** A value accepted at an index under a tree's root is the tree's value there, whatever the path, or two different
      hash inputs with one digest are at hand. */
  lemma LeafCheckReads(h: Hasher, cfg: MerkleChannelCfg, values: seq<seq<Byte>>, o: MerkleOpening, v: seq<Byte>)
    requires FixedLength(h) && WellSized(h, o) && values != [] && 0 < |cfg.layerArities| < LEAF_LEVEL_DS
    requires Covers(cfg.layerArities, 0, |values|) && PathFits(cfg, o.path)
    requires Verifies(h, cfg, RootOf(h, cfg, 0, LeafHashes(h, cfg, values)), o)
    requires o.leaf == LeafHash(h, cfg, o.index, v)
    ensures
      var (x, y) := ReadCollision(h, cfg, values, o, v);
      Collision(h, x, y) || (o.index < |values| && v == values[o.index])
  {
    var hashes := LeafHashes(h, cfg, values);
    var root, height := RootOf(h, cfg, 0, hashes), HeightOf(h, cfg, 0, hashes);
    HeightIsLevels(h, cfg, 0, hashes);
    if |o.path| != height {
      LastOfIs(h, cfg, root, o, v);
      TopInputIs(h, cfg, values);
      LevelsApart(|o.path|, height);
    } else {
      HashesSized(h, cfg, values);
      MeetingAboveIs(h, cfg, 0, hashes, o);
      if MeetingAbove(h, cfg, 0, hashes, o).None? {
        var c := Clamp(o.index, |values|);
        assert Climb(h, cfg, o, 0) == o.leaf == hashes[c];
        LeafInputInjective(cfg.layerArities[0], cfg.treeLabel, o.index, v, cfg.layerArities[0], cfg.treeLabel, c,
                           values[c]);
      }
    }
  }

  /** Different heights have different level labels. */
  lemma LevelsApart(a: nat, b: nat)
    requires a != b && a < LEAF_LEVEL_DS && b < LEAF_LEVEL_DS
    ensures (if a == 0 then LEAF_LEVEL_DS else a % WORD32) != (if b == 0 then LEAF_LEVEL_DS else b % WORD32)
  {
  }

  lemma HashesSized(h: Hasher, cfg: MerkleChannelCfg, values: seq<seq<Byte>>)
    requires FixedLength(h) && cfg.layerArities != []
    ensures AllSized(LeafHashes(h, cfg, values), h.len)
  {
    var hashes := LeafHashes(h, cfg, values);
    forall i | 0 <= i < |hashes|
      ensures |hashes[i]| == h.len
    {
      var input := LeafInput(cfg.layerArities[0], cfg.treeLabel, i, values[i]);
      assert hashes[i] == h.Hash(input) && |h.Hash(input)| == h.len;
    }
  }

  // ---------- two trees with one root ----------

  lemma ParentsCount(h: Hasher, cfg: MerkleChannelCfg, level: nat, nodes: seq<Digest>)
    requires |nodes| > 1 && Covers(cfg.layerArities, level, |nodes|)
    ensures |ParentsOf(h, cfg, level, nodes)| == CeilDiv(|nodes|, cfg.layerArities[level])
  {
    ParentLevel(h, cfg, level, nodes);
  }

  /** Trees over equally many nodes hash different inputs to one digest at some place. */
  ghost predicate TreesCollide(h: Hasher, cfg: MerkleChannelCfg, level: nat, a: seq<Digest>, b: seq<Digest>)
    requires a != [] && |a| == |b| && Covers(cfg.layerArities, level, |a|)
    decreases |cfg.layerArities| - level
  {
    |a| > 1 &&
      var (up, vp) := (ParentsOf(h, cfg, level, a), ParentsOf(h, cfg, level, b));
      && |up| == |vp|
      && (TreesCollide(h, cfg, level + 1, up, vp)
          || exists p :: 0 <= p < |up| &&
               Collision(h, TreeInput(h, cfg, level, a, p), TreeInput(h, cfg, level, b, p)))
  }

  lemma ParentsBind(h: Hasher, cfg: MerkleChannelCfg, level: nat, a: seq<Digest>, b: seq<Digest>, idx: nat, p: nat)
    requires AllSized(a, h.len) && AllSized(b, h.len) && |a| == |b| > 1 && Covers(cfg.layerArities, level, |a|)
    requires ParentsOf(h, cfg, level, a) == ParentsOf(h, cfg, level, b) && idx < |a|
    requires p == Quot(idx, cfg.layerArities[level])
    ensures p < |ParentsOf(h, cfg, level, a)|
    ensures a[idx] == b[idx] || Collision(h, TreeInput(h, cfg, level, a, p), TreeInput(h, cfg, level, b, p))
  {
    var (arity, pos) := (cfg.layerArities[level], Rem(idx, cfg.layerArities[level]));
    ParentsCount(h, cfg, level, a);
    QuotBelowCeil(idx, |a|, arity);
    TreeInputHashes(h, cfg, level, a, p);
    TreeInputHashes(h, cfg, level, b, p);
    if TreeInput(h, cfg, level, a, p) == TreeInput(h, cfg, level, b, p) {
      var (mine, theirs) := (GroupOf(h, cfg, level, a, p), GroupOf(h, cfg, level, b, p));
      GroupSized(h, cfg, level, a, p);
      GroupSized(h, cfg, level, b, p);
      NodeInputInjective(arity, cfg.treeLabel, level + 1, p, mine, arity, cfg.treeLabel, level + 1, p, theirs, h.len);
      GroupEntry(h, cfg, level, a, p, pos, idx);
      GroupEntry(h, cfg, level, b, p, pos, idx);
    }
  }

  lemma QuotBelowCeil(idx: nat, n: nat, arity: nat)
    requires arity > 0 && idx < n
    ensures Quot(idx, arity) < CeilDiv(n, arity)
  {
    DivMonotone(idx + arity, n + arity - 1, arity);
    DivModShift(idx, arity);
  }

  /** Equal roots over equally many nodes: equal nodes, or a collision between the trees. */
  lemma {:induction false} RootBinds(h: Hasher, cfg: MerkleChannelCfg, level: nat, a: seq<Digest>, b: seq<Digest>)
    requires FixedLength(h) && AllSized(a, h.len) && AllSized(b, h.len)
    requires a != [] && |a| == |b| && Covers(cfg.layerArities, level, |a|)
    requires RootOf(h, cfg, level, a) == RootOf(h, cfg, level, b)
    ensures a == b || TreesCollide(h, cfg, level, a, b)
    decreases |cfg.layerArities| - level
  {
    if |a| > 1 {
      var (up, vp, next) := (ParentsOf(h, cfg, level, a), ParentsOf(h, cfg, level, b), level + 1);
      ParentsCount(h, cfg, level, a);
      ParentsCount(h, cfg, level, b);
      ParentsSized(h, cfg, level, a);
      ParentsSized(h, cfg, level, b);
      RootBinds(h, cfg, next, up, vp);
      if up == vp {
        NodesBind(h, cfg, level, a, b);
      }
    }
  }

  lemma NodesBind(h: Hasher, cfg: MerkleChannelCfg, level: nat, a: seq<Digest>, b: seq<Digest>)
    requires AllSized(a, h.len) && AllSized(b, h.len) && |a| == |b| > 1 && Covers(cfg.layerArities, level, |a|)
    requires ParentsOf(h, cfg, level, a) == ParentsOf(h, cfg, level, b)
    ensures a == b || TreesCollide(h, cfg, level, a, b)
  {
    forall idx: nat | idx < |a|
      ensures a[idx] == b[idx] || TreesCollide(h, cfg, level, a, b)
    {
      ParentsBind(h, cfg, level, a, b, idx, Quot(idx, cfg.layerArities[level]));
    }
  }

  /** The trees over two lists of values hash different inputs to one digest, at a leaf or above. */
  ghost predicate ValuesCollide(h: Hasher, cfg: MerkleChannelCfg, v: seq<seq<Byte>>, w: seq<seq<Byte>>)
    requires v != [] && |v| == |w| && cfg.layerArities != [] && Covers(cfg.layerArities, 0, |v|)
  {
    || TreesCollide(h, cfg, 0, LeafHashes(h, cfg, v), LeafHashes(h, cfg, w))
    || exists i :: 0 <= i < |v| && Collision(h, LeafInput(cfg.layerArities[0], cfg.treeLabel, i, v[i]),
                                             LeafInput(cfg.layerArities[0], cfg.treeLabel, i, w[i]))
  }

  /** One root over two lists of values: equal lists, or a collision between the trees. */
  lemma ValuesBind(h: Hasher, cfg: MerkleChannelCfg, v: seq<seq<Byte>>, w: seq<seq<Byte>>)
    requires FixedLength(h) && v != [] && |v| == |w| && cfg.layerArities != [] && Covers(cfg.layerArities, 0, |v|)
    requires RootOf(h, cfg, 0, LeafHashes(h, cfg, v)) == RootOf(h, cfg, 0, LeafHashes(h, cfg, w))
    ensures v == w || ValuesCollide(h, cfg, v, w)
  {
    var (a, b) := (LeafHashes(h, cfg, v), LeafHashes(h, cfg, w));
    HashesSized(h, cfg, v);
    HashesSized(h, cfg, w);
    RootBinds(h, cfg, 0, a, b);
    if a == b {
      forall i: nat | i < |v|
        ensures v[i] == w[i] || Collision(h, LeafInput(cfg.layerArities[0], cfg.treeLabel, i, v[i]),
                                          LeafInput(cfg.layerArities[0], cfg.treeLabel, i, w[i]))
      {
        assert a[i] == b[i];
        LeafInputInjective(cfg.layerArities[0], cfg.treeLabel, i, v[i], cfg.layerArities[0], cfg.treeLabel, i, w[i]);
      }
    }
  }
}
