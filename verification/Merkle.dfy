/** The k-ary Merkle tree of the merkle crate: construction with mixed arities and padding,
    openings, and verification. */
module Merkle {
  import opened Arith
  import opened Hashing

  const LEAF_LEVEL_DS: nat := WORD32 - 1

  datatype MerkleChannelCfg = MerkleChannelCfg(layerArities: seq<nat>, treeLabel: nat)

  datatype MerkleOpening = MerkleOpening(leaf: Digest, path: seq<seq<Digest>>, index: nat)

  /** What is hashed for a leaf; `values` are the serialized field elements. */
  function LeafInput(arity: nat, treeLabel: nat, position: nat, values: seq<Byte>): HashInput {
    HashInput(DsLabel(arity, LEAF_LEVEL_DS, position, treeLabel), values)
  }

  /** What is hashed for a node; levels are 32-bit. */
  function NodeInput(arity: nat, treeLabel: nat, level: nat, position: nat, children: seq<Digest>): HashInput {
    HashInput(DsLabel(arity, level % WORD32, position, treeLabel), Concat(children))
  }

  function CompressLeaf(h: Hasher, arity: nat, treeLabel: nat, position: nat, values: seq<Byte>): Digest {
    h.Hash(LeafInput(arity, treeLabel, position, values))
  }

  function CompressNode(h: Hasher, arity: nat, treeLabel: nat, level: nat, position: nat,
                        children: seq<Digest>): Digest {
    h.Hash(NodeInput(arity, treeLabel, level, position, children))
  }

  function LeafHash(h: Hasher, cfg: MerkleChannelCfg, index: nat, values: seq<Byte>): Digest
    requires cfg.layerArities != []
  {
    CompressLeaf(h, cfg.layerArities[0], cfg.treeLabel, index, values)
  }

  function LeafHashes(h: Hasher, cfg: MerkleChannelCfg, values: seq<seq<Byte>>): seq<Digest>
    requires cfg.layerArities != []
  {
    seq(|values|, i requires 0 <= i < |values| => LeafHash(h, cfg, i, values[i]))
  }

  // ---------- the tree as a function of its leaves ----------

  function CeilDiv(n: nat, a: nat): nat
    requires a > 0
  {
    (n + a - 1) / a
  }

  /** The arities from `level` on reduce n nodes to one: the condition under which finalize
      neither divides by zero nor runs past the arity list. */
  predicate Covers(arities: seq<nat>, level: nat, n: nat)
    decreases |arities| - level
  {
    n <= 1 || (level < |arities| && arities[level] > 0 && Covers(arities, level + 1, CeilDiv(n, arities[level])))
  }

  function Repeat(d: Digest, k: nat): seq<Digest> { seq(k, _ => d) }

  /** Fill the last group with copies of the last node. */
  function Pad(nodes: seq<Digest>, arity: nat): seq<Digest>
    requires arity > 0 && nodes != []
  {
    if |nodes| % arity == 0 then nodes
    else nodes + Repeat(nodes[|nodes| - 1], arity - |nodes| % arity)
  }

  /** Hash consecutive groups of `arity` nodes; the first group has position `position`. */
  function Parents(h: Hasher, treeLabel: nat, arity: nat, level: nat, nodes: seq<Digest>, position: nat): seq<Digest>
    requires arity > 0
  {
    if |nodes| < arity then []
    else
      var group := CompressNode(h, arity, treeLabel, level, position, nodes[..arity]);
      [group] + Parents(h, treeLabel, arity, level, nodes[arity..], position + 1)
  }

  lemma PadLength(nodes: seq<Digest>, arity: nat)
    requires arity > 0 && nodes != []
    ensures |Pad(nodes, arity)| == CeilDiv(|nodes|, arity) * arity
    ensures nodes <= Pad(nodes, arity)
  {
    var n := |nodes|;
    var q, m := n / arity, n % arity;
    assert n == q * arity + m;
    if m == 0 {
      DivModUnique(n + arity - 1, arity, q, arity - 1);
    } else {
      assert n + arity - 1 == (q + 1) * arity + (m - 1);
      DivModUnique(n + arity - 1, arity, q + 1, m - 1);
    }
  }

  lemma {:induction false} ParentsLength(h: Hasher, treeLabel: nat, arity: nat, level: nat, nodes: seq<Digest>,
                                         position: nat, q: nat)
    requires arity > 0 && |nodes| == q * arity
    ensures |Parents(h, treeLabel, arity, level, nodes, position)| == q
    decreases q
  {
    if q > 0 {
      assert q * arity == (q - 1) * arity + arity;
      ParentsLength(h, treeLabel, arity, level, nodes[arity..], position + 1, q - 1);
    }
  }

  /** Parent i hashes the i-th group, which starts at s. */
  lemma {:induction false} ParentAt(h: Hasher, treeLabel: nat, arity: nat, level: nat, nodes: seq<Digest>,
                                    position: nat, i: nat, s: nat)
    requires arity > 0 && s == i * arity && s + arity <= |nodes|
    ensures i < |Parents(h, treeLabel, arity, level, nodes, position)|
    ensures Parents(h, treeLabel, arity, level, nodes, position)[i]
         == CompressNode(h, arity, treeLabel, level, position + i, nodes[s..s + arity])
    decreases i
  {
    if i > 0 {
      OneBlockLess(i, arity, s);
      var rest, t := nodes[arity..], s - arity;
      ParentAt(h, treeLabel, arity, level, rest, position + 1, i - 1, t);
      SliceShift(nodes, arity, s);
    }
  }

  lemma SliceShift(nodes: seq<Digest>, arity: nat, s: nat)
    requires arity <= s && s + arity <= |nodes|
    ensures nodes[arity..][s - arity..s] == nodes[s..s + arity]
  {
  }

  /** All stored levels, bottom first: padded, except the root level. */
  function BuildLevels(h: Hasher, cfg: MerkleChannelCfg, level: nat, nodes: seq<Digest>): (levels: seq<seq<Digest>>)
    requires nodes != [] && Covers(cfg.layerArities, level, |nodes|)
    ensures levels != []
    decreases |cfg.layerArities| - level
  {
    if |nodes| == 1 then [nodes]
    else
      var arity := cfg.layerArities[level];
      var padded := Pad(nodes, arity);
      ParentLevel(h, cfg, level, nodes);
      [padded] + BuildLevels(h, cfg, level + 1, Parents(h, cfg.treeLabel, arity, level + 1, padded, 0))
  }

  lemma ParentLevel(h: Hasher, cfg: MerkleChannelCfg, level: nat, nodes: seq<Digest>)
    requires |nodes| > 1 && Covers(cfg.layerArities, level, |nodes|)
    ensures
      var arity := cfg.layerArities[level];
      var parents := Parents(h, cfg.treeLabel, arity, level + 1, Pad(nodes, arity), 0);
      && |Pad(nodes, arity)| == |parents| * arity
      && |parents| == CeilDiv(|nodes|, arity) >= 1 && Covers(cfg.layerArities, level + 1, |parents|)
  {
    var arity := cfg.layerArities[level];
    PadLength(nodes, arity);
    ParentsLength(h, cfg.treeLabel, arity, level + 1, Pad(nodes, arity), 0, CeilDiv(|nodes|, arity));
    CeilDivPositive(|nodes|, arity);
  }

  lemma CeilDivPositive(n: nat, a: nat)
    requires n > 0 && a > 0
    ensures CeilDiv(n, a) >= 1
  {
    DivModUnique(a, a, 1, 0);
    DivMonotone(a, n + a - 1, a);
  }

  function RootOf(h: Hasher, cfg: MerkleChannelCfg, level: nat, nodes: seq<Digest>): Digest
    requires nodes != [] && Covers(cfg.layerArities, level, |nodes|)
    decreases |cfg.layerArities| - level
  {
    if |nodes| == 1 then nodes[0]
    else
      var arity := cfg.layerArities[level];
      ParentLevel(h, cfg, level, nodes);
      RootOf(h, cfg, level + 1, Parents(h, cfg.treeLabel, arity, level + 1, Pad(nodes, arity), 0))
  }

  // ---------- openings ----------

  /** The other members of the group of idx. */
  function Siblings(nodes: seq<Digest>, arity: nat, idx: nat): seq<Digest> {
    if arity == 0 || nodes == [] then []
    else
      var start := Quot(idx, arity) * arity;
      GroupMembers(nodes, start, start + arity, idx)
  }

  /** Nodes at start..end except idx; positions past the end read the last node. */
  function GroupMembers(nodes: seq<Digest>, start: nat, end: nat, idx: nat): seq<Digest>
    requires nodes != []
    decreases end - start
  {
    if start >= end then []
    else if start == idx then GroupMembers(nodes, start + 1, end, idx)
    else [if start < |nodes| then nodes[start] else nodes[|nodes| - 1]] + GroupMembers(nodes, start + 1, end, idx)
  }

  function ArityAt(arities: seq<nat>, level: nat): nat {
    if level < |arities| then arities[level] else 0
  }

  /** The index reached from idx after k levels counted from `start`. */
  function IndexUp(arities: seq<nat>, start: nat, idx: nat, k: nat): nat {
    if k == 0 then idx
    else
      var arity := ArityAt(arities, start + k - 1);
      if arity == 0 then 0 else Quot(IndexUp(arities, start, idx, k - 1), arity)
  }

  predicate LevelsFit(levels: seq<seq<Digest>>, arities: seq<nat>, start: nat) {
    && levels != []
    && (forall i :: 0 <= i < |levels| ==> levels[i] != [])
    && forall j :: start <= j < start + |levels| - 1 ==> ArityAt(arities, j) > 0
  }

  /** The sibling lists on the way up from idx through the first k levels, which begin at tree
      level `start`. */
  function PathUpTo(levels: seq<seq<Digest>>, arities: seq<nat>, start: nat, idx: nat, k: nat): (path: seq<seq<Digest>>)
    requires k <= |levels|
    ensures |path| == k
  {
    if k == 0 then []
    else
      var last := Siblings(levels[k - 1], ArityAt(arities, start + k - 1), IndexUp(arities, start, idx, k - 1));
      PathUpTo(levels, arities, start, idx, k - 1) + [last]
  }

  /** The path below the top level. */
  function PathOf(levels: seq<seq<Digest>>, arities: seq<nat>, start: nat, idx: nat): (path: seq<seq<Digest>>)
    requires levels != []
    ensures |path| == |levels| - 1
  {
    PathUpTo(levels, arities, start, idx, |levels| - 1)
  }

  lemma {:induction false} PathAt(levels: seq<seq<Digest>>, arities: seq<nat>, start: nat, idx: nat, k: nat, i: nat)
    requires i < k <= |levels|
    ensures PathUpTo(levels, arities, start, idx, k)[i]
         == Siblings(levels[i], ArityAt(arities, start + i), IndexUp(arities, start, idx, i))
  {
    var before, last := PathUpTo(levels, arities, start, idx, k - 1), k - 1;
    assert PathUpTo(levels, arities, start, idx, k)
        == before + [Siblings(levels[last], ArityAt(arities, start + last), IndexUp(arities, start, idx, last))];
    if i < last {
      PathAt(levels, arities, start, idx, last, i);
    }
  }

  // ---------- verification ----------

  /** Put cur among the first arity - 1 siblings at its own place; surplus siblings are ignored. */
  function Assemble(siblings: seq<Digest>, arity: nat, pos: nat, cur: Digest): (children: seq<Digest>)
    requires pos < arity && |siblings| >= arity - 1
    ensures |children| == arity && children[pos] == cur
  {
    siblings[..pos] + [cur] + siblings[pos..arity - 1]
  }

  /** The arities exist and are nonzero on every level the path names. */
  predicate PathFits(cfg: MerkleChannelCfg, path: seq<seq<Digest>>) {
    |path| <= |cfg.layerArities| && forall i :: 0 <= i < |path| ==> cfg.layerArities[i] > 0
  }

  /** The first `level` levels of the path offer enough siblings. */
  predicate EnoughSiblings(cfg: MerkleChannelCfg, path: seq<seq<Digest>>, level: nat)
    requires PathFits(cfg, path) && level <= |path|
  {
    forall i :: 0 <= i < level ==> |path[i]| >= cfg.layerArities[i] - 1
  }

  /** The value reached after `level` steps of the path. */
  function Climb(h: Hasher, cfg: MerkleChannelCfg, o: MerkleOpening, level: nat): Digest
    requires PathFits(cfg, o.path) && level <= |o.path| && EnoughSiblings(cfg, o.path, level)
    decreases level, 0
  {
    if level == 0 then o.leaf else h.Hash(ClimbInput(h, cfg, o, level - 1))
  }

  /** The byte string hashed on the way from level to level + 1. */
  function ClimbInput(h: Hasher, cfg: MerkleChannelCfg, o: MerkleOpening, level: nat): HashInput
    requires PathFits(cfg, o.path) && level < |o.path| && EnoughSiblings(cfg, o.path, level + 1)
    decreases level, 1
  {
    var arity, idx := cfg.layerArities[level], IndexUp(cfg.layerArities, 0, o.index, level);
    NodeInput(arity, cfg.treeLabel, level + 1, Quot(idx, arity),
              Assemble(o.path[level], arity, Rem(idx, arity), Climb(h, cfg, o, level)))
  }

  predicate Verifies(h: Hasher, cfg: MerkleChannelCfg, root: Digest, o: MerkleOpening)
    requires PathFits(cfg, o.path)
  {
    EnoughSiblings(cfg, o.path, |o.path|) && Climb(h, cfg, o, |o.path|) == root
  }

  // ---------- how a verification ends ----------

  /** A check accepts, rejects, or stops with a panic, where the source indexes past a list, divides by zero or
      unwraps a missing value. */
  datatype Verdict = Accept | Reject | Abort {
    /** What the next check says if this one accepts. */
    function Then(next: Verdict): Verdict { if Accept? then next else this }
  }

  function VerdictOf(ok: bool): Verdict { if ok then Accept else Reject }

  /** Checks k, .., n - 1 in turn, up to the first that does not accept. */
  ghost function FirstFrom(verdicts: nat -> Verdict, n: nat, k: nat): Verdict
    requires k <= n
    decreases n - k
  {
    if k == n then Accept else verdicts(k).Then(FirstFrom(verdicts, n, k + 1))
  }

  lemma {:induction false} FirstFromIs(verdicts: nat -> Verdict, n: nat, k: nat)
    requires k <= n
    ensures FirstFrom(verdicts, n, k).Accept? <==> forall i :: k <= i < n ==> verdicts(i).Accept?
    ensures (forall i :: k <= i < n ==> !verdicts(i).Abort?) ==> !FirstFrom(verdicts, n, k).Abort?
    decreases n - k
  {
    if k < n {
      FirstFromIs(verdicts, n, k + 1);
    }
  }

  /** The parent of the current node, and its position. */
  function PathStep(h: Hasher, cfg: MerkleChannelCfg, path: seq<seq<Digest>>, level: nat, cur: Digest,
                    idx: nat): (Digest, nat)
    requires level < |path| && level < |cfg.layerArities| && cfg.layerArities[level] > 0
    requires |path[level]| >= cfg.layerArities[level] - 1
  {
    var arity := cfg.layerArities[level];
    var children := Assemble(path[level], arity, Rem(idx, arity), cur);
    (h.Hash(NodeInput(arity, cfg.treeLabel, level + 1, Quot(idx, arity), children)), Quot(idx, arity))
  }

  /** The verdict on the rest of a path: a level with too few siblings rejects, a level without an arity stops. */
  function PathVerdict(h: Hasher, cfg: MerkleChannelCfg, root: Digest, path: seq<seq<Digest>>, level: nat, cur: Digest,
                       idx: nat): Verdict
    requires level <= |path|
    decreases |path| - level
  {
    if level == |path| then VerdictOf(cur == root)
    else if level >= |cfg.layerArities| || cfg.layerArities[level] == 0 then Abort
    else if |path[level]| < cfg.layerArities[level] - 1 then Reject
    else
      var (parent, up) := PathStep(h, cfg, path, level, cur, idx);
      PathVerdict(h, cfg, root, path, level + 1, parent, up)
  }

  function OpeningVerdict(h: Hasher, cfg: MerkleChannelCfg, root: Digest, o: MerkleOpening): Verdict {
    PathVerdict(h, cfg, root, o.path, 0, o.leaf, o.index)
  }

  lemma {:induction false} PathVerdictFits(h: Hasher, cfg: MerkleChannelCfg, root: Digest, o: MerkleOpening, level: nat)
    requires PathFits(cfg, o.path) && level <= |o.path| && EnoughSiblings(cfg, o.path, level)
    ensures PathVerdict(h, cfg, root, o.path, level, Climb(h, cfg, o, level),
                        IndexUp(cfg.layerArities, 0, o.index, level))
         == VerdictOf(Verifies(h, cfg, root, o))
    decreases |o.path| - level
  {
    if level < |o.path| && |o.path[level]| >= cfg.layerArities[level] - 1 {
      PathVerdictFits(h, cfg, root, o, level + 1);
    }
  }

  /** The levels of an accepted path all have arities. */
  lemma {:induction false} AcceptedFits(h: Hasher, cfg: MerkleChannelCfg, root: Digest, path: seq<seq<Digest>>,
                                        level: nat, cur: Digest, idx: nat)
    requires level <= |path| && PathVerdict(h, cfg, root, path, level, cur, idx).Accept?
    ensures level < |path| ==> |path| <= |cfg.layerArities|
    ensures forall i :: level <= i < |path| ==> cfg.layerArities[i] > 0
    decreases |path| - level
  {
    if level < |path| {
      var next := level + 1;
      var (parent, up) := PathStep(h, cfg, path, level, cur, idx);
      AcceptedFits(h, cfg, root, path, next, parent, up);
    }
  }

  /** Verification accepts exactly the openings whose levels all have arities and whose climb ends at the root, and
      stops on no opening whose levels all have arities. */
  lemma OpeningVerdictIs(h: Hasher, cfg: MerkleChannelCfg, root: Digest, o: MerkleOpening)
    ensures OpeningVerdict(h, cfg, root, o).Accept? <==> PathFits(cfg, o.path) && Verifies(h, cfg, root, o)
    ensures PathFits(cfg, o.path) ==> !OpeningVerdict(h, cfg, root, o).Abort?
  {
    if PathFits(cfg, o.path) {
      PathVerdictFits(h, cfg, root, o, 0);
    }
    if OpeningVerdict(h, cfg, root, o).Accept? {
      AcceptedFits(h, cfg, root, o.path, 0, o.leaf, o.index);
    }
  }

  // ---------- completeness ----------

  /** The lower level splits into groups whose parents start the upper level. */
  ghost predicate LinkedAt(h: Hasher, cfg: MerkleChannelCfg, level: nat, lo: seq<Digest>, hi: seq<Digest>) {
    && ArityAt(cfg.layerArities, level) > 0
    && var parents := Parents(h, cfg.treeLabel, cfg.layerArities[level], level + 1, lo, 0);
    && |lo| == |parents| * cfg.layerArities[level]
    && parents <= hi
  }

  ghost predicate Linked(h: Hasher, cfg: MerkleChannelCfg, level: nat, levels: seq<seq<Digest>>) {
    && levels != []
    && forall i :: 0 <= i < |levels| - 1 ==> LinkedAt(h, cfg, level + i, levels[i], levels[i + 1])
  }

  lemma {:induction false} BuildIsLinked(h: Hasher, cfg: MerkleChannelCfg, level: nat, nodes: seq<Digest>)
    requires nodes != [] && Covers(cfg.layerArities, level, |nodes|)
    ensures
      var levels := BuildLevels(h, cfg, level, nodes);
      && Linked(h, cfg, level, levels)
      && nodes <= levels[0]
      && levels[|levels| - 1] == [RootOf(h, cfg, level, nodes)]
      && LevelsFit(levels, cfg.layerArities, level)
    decreases |cfg.layerArities| - level
  {
    if |nodes| > 1 {
      var arity := cfg.layerArities[level];
      var padded := Pad(nodes, arity);
      PadLength(nodes, arity);
      ParentLevel(h, cfg, level, nodes);
      var parents := Parents(h, cfg.treeLabel, arity, level + 1, padded, 0);
      BuildIsLinked(h, cfg, level + 1, parents);
      LinkBelow(h, cfg, level, padded, BuildLevels(h, cfg, level + 1, parents));
    }
  }

  /** A level placed under a linked tower whose bottom starts with its parents. */
  lemma LinkBelow(h: Hasher, cfg: MerkleChannelCfg, level: nat, lo: seq<Digest>, rest: seq<seq<Digest>>)
    requires Linked(h, cfg, level + 1, rest) && LevelsFit(rest, cfg.layerArities, level + 1)
    requires lo != [] && LinkedAt(h, cfg, level, lo, rest[0])
    ensures Linked(h, cfg, level, [lo] + rest) && LevelsFit([lo] + rest, cfg.layerArities, level)
  {
    var levels := [lo] + rest;
    forall i | 0 <= i < |levels| - 1
      ensures LinkedAt(h, cfg, level + i, levels[i], levels[i + 1])
    {
      if i > 0 {
        assert LinkedAt(h, cfg, level + 1 + (i - 1), rest[i - 1], rest[i - 1 + 1]);
      }
    }
  }

  lemma {:induction false} MembersWithout(nodes: seq<Digest>, start: nat, end: nat, idx: nat)
    requires start <= end <= |nodes| && nodes != [] && !(start <= idx < end)
    ensures GroupMembers(nodes, start, end, idx) == nodes[start..end]
    decreases end - start
  {
    if start < end {
      var next := start + 1;
      MembersWithout(nodes, next, end, idx);
      assert nodes[start..end] == [nodes[start]] + nodes[next..end];
    }
  }

  lemma {:induction false} MembersAround(nodes: seq<Digest>, start: nat, end: nat, idx: nat)
    requires start <= idx < end <= |nodes|
    ensures GroupMembers(nodes, start, end, idx) == nodes[start..idx] + nodes[idx + 1..end]
    decreases end - start
  {
    var next := start + 1;
    if start == idx {
      MembersWithout(nodes, next, end, idx);
    } else {
      MembersAround(nodes, next, end, idx);
      assert nodes[start..idx] == [nodes[start]] + nodes[next..idx];
    }
  }

  lemma SiblingsFrom(nodes: seq<Digest>, arity: nat, idx: nat, s: nat)
    requires arity > 0 && nodes != [] && s == Quot(idx, arity) * arity
    ensures Siblings(nodes, arity, idx) == GroupMembers(nodes, s, s + arity, idx)
  {
  }

  /** Siblings with the node itself put back are the whole group. */
  lemma SiblingsReassemble(nodes: seq<Digest>, arity: nat, idx: nat, s: nat)
    requires arity > 0 && s == Quot(idx, arity) * arity && s + arity <= |nodes|
    ensures idx < |nodes| && |Siblings(nodes, arity, idx)| == arity - 1
    ensures Assemble(Siblings(nodes, arity, idx), arity, Rem(idx, arity), nodes[idx]) == nodes[s..s + arity]
  {
    SiblingsFrom(nodes, arity, idx, s);
    BlockOf(idx, arity, s);
    MembersAround(nodes, s, s + arity, idx);
    PutBack(nodes, s, idx, s + arity);
  }

  lemma PutBack(nodes: seq<Digest>, s: nat, idx: nat, end: nat)
    requires s <= idx < end <= |nodes|
    ensures Assemble(nodes[s..idx] + nodes[idx + 1..end], end - s, idx - s, nodes[idx]) == nodes[s..end]
  {
  }

  /** One step up: hashing the reassembled group gives the parent. */
  lemma StepUp(h: Hasher, cfg: MerkleChannelCfg, level: nat, lo: seq<Digest>, hi: seq<Digest>, idx: nat)
    requires LinkedAt(h, cfg, level, lo, hi) && idx < |lo|
    ensures
      var arity := cfg.layerArities[level];
      && Quot(idx, arity) < |hi|
      && |Siblings(lo, arity, idx)| == arity - 1
      && hi[Quot(idx, arity)]
         == CompressNode(h, arity, cfg.treeLabel, level + 1, Quot(idx, arity),
                         Assemble(Siblings(lo, arity, idx), arity, Rem(idx, arity), lo[idx]))
  {
    var arity := cfg.layerArities[level];
    var parents := Parents(h, cfg.treeLabel, arity, level + 1, lo, 0);
    var p := Quot(idx, arity);
    GroupFits(idx, arity, |parents|, |lo|);
    var s := p * arity;
    SiblingsReassemble(lo, arity, idx, s);
    ParentAt(h, cfg.treeLabel, arity, level + 1, lo, 0, p, s);
  }

  lemma GroupFits(idx: nat, arity: nat, groups: nat, n: nat)
    requires arity > 0 && idx < n == groups * arity
    ensures Quot(idx, arity) < groups && Quot(idx, arity) * arity + arity <= n
  {
    var p := idx / arity;
    assert idx == p * arity + idx % arity;
    if p >= groups {
      BlocksMonotone(groups, p, arity);
    }
    BlocksMonotone(p + 1, groups, arity);
  }

  /** Following the path of a built tree stays on its nodes. */
  lemma {:induction false} ClimbStaysOnTree(h: Hasher, cfg: MerkleChannelCfg, levels: seq<seq<Digest>>,
                                            o: MerkleOpening, k: nat)
    requires Linked(h, cfg, 0, levels) && LevelsFit(levels, cfg.layerArities, 0)
    requires o.index < |levels[0]| && o.leaf == levels[0][o.index] && k < |levels|
    requires o.path == PathOf(levels, cfg.layerArities, 0, o.index) && PathFits(cfg, o.path)
    ensures EnoughSiblings(cfg, o.path, k)
    ensures IndexUp(cfg.layerArities, 0, o.index, k) < |levels[k]|
    ensures Climb(h, cfg, o, k) == levels[k][IndexUp(cfg.layerArities, 0, o.index, k)]
  {
    if k > 0 {
      ClimbStaysOnTree(h, cfg, levels, o, k - 1);
      LinkedStep(h, cfg, levels, k - 1);
      PathAt(levels, cfg.layerArities, 0, o.index, |levels| - 1, k - 1);
      ClimbStep(h, cfg, o, k - 1, levels[k - 1], levels[k]);
    }
  }

  lemma ClimbStep(h: Hasher, cfg: MerkleChannelCfg, o: MerkleOpening, k: nat, lo: seq<Digest>, hi: seq<Digest>)
    requires PathFits(cfg, o.path) && k < |o.path| && EnoughSiblings(cfg, o.path, k)
    requires LinkedAt(h, cfg, k, lo, hi)
    requires var idx := IndexUp(cfg.layerArities, 0, o.index, k);
      && idx < |lo| && Climb(h, cfg, o, k) == lo[idx]
      && o.path[k] == Siblings(lo, ArityAt(cfg.layerArities, k), idx)
    ensures EnoughSiblings(cfg, o.path, k + 1)
    ensures var idx := IndexUp(cfg.layerArities, 0, o.index, k + 1);
      idx < |hi| && Climb(h, cfg, o, k + 1) == hi[idx]
  {
    StepUp(h, cfg, k, lo, hi, IndexUp(cfg.layerArities, 0, o.index, k));
  }

  lemma LinkedStep(h: Hasher, cfg: MerkleChannelCfg, levels: seq<seq<Digest>>, k: nat)
    requires Linked(h, cfg, 0, levels) && k + 1 < |levels|
    ensures LinkedAt(h, cfg, k, levels[k], levels[k + 1])
  {
    assert LinkedAt(h, cfg, 0 + k, levels[k], levels[k + 1]);
  }

  lemma PathOfFits(cfg: MerkleChannelCfg, levels: seq<seq<Digest>>, idx: nat)
    requires LevelsFit(levels, cfg.layerArities, 0)
    ensures PathFits(cfg, PathOf(levels, cfg.layerArities, 0, idx))
  {
    if |levels| > 1 {
      assert ArityAt(cfg.layerArities, |levels| - 2) > 0;
      forall i | 0 <= i < |levels| - 1
        ensures cfg.layerArities[i] > 0
      {
        assert ArityAt(cfg.layerArities, i) > 0;
      }
    }
  }

  /** The opening a finalized tree produces. */
  function OpeningOf(h: Hasher, cfg: MerkleChannelCfg, leaves: seq<Digest>, idx: nat): MerkleOpening
    requires leaves != [] && Covers(cfg.layerArities, 0, |leaves|)
    requires idx < |BuildLevels(h, cfg, 0, leaves)[0]|
  {
    var levels := BuildLevels(h, cfg, 0, leaves);
    BuildIsLinked(h, cfg, 0, leaves);
    MerkleOpening(levels[0][idx], PathOf(levels, cfg.layerArities, 0, idx), idx)
  }

  /** Completeness: every leaf of a finalized tree, padding copies included, verifies against the
      root, whatever the mix of arities. */
  lemma Completeness(h: Hasher, cfg: MerkleChannelCfg, leaves: seq<Digest>, idx: nat)
    requires leaves != [] && Covers(cfg.layerArities, 0, |leaves|)
    requires idx < |BuildLevels(h, cfg, 0, leaves)[0]|
    ensures
      var o := OpeningOf(h, cfg, leaves, idx);
      PathFits(cfg, o.path) && Verifies(h, cfg, RootOf(h, cfg, 0, leaves), o)
    ensures idx < |leaves| ==> OpeningOf(h, cfg, leaves, idx).leaf == leaves[idx]
  {
    BuildIsLinked(h, cfg, 0, leaves);
    var levels := BuildLevels(h, cfg, 0, leaves);
    PathOfFits(cfg, levels, idx);
    ClimbStaysOnTree(h, cfg, levels, OpeningOf(h, cfg, leaves, idx), |levels| - 1);
  }

  // ---------- binding ----------

  ghost predicate WellSized(h: Hasher, o: MerkleOpening) {
    |o.leaf| == h.len && forall i, j :: 0 <= i < |o.path| && 0 <= j < |o.path[i]| ==> |o.path[i][j]| == h.len
  }

  lemma {:induction false} ClimbSized(h: Hasher, cfg: MerkleChannelCfg, o: MerkleOpening, level: nat)
    requires FixedLength(h) && WellSized(h, o)
    requires PathFits(cfg, o.path) && level <= |o.path| && EnoughSiblings(cfg, o.path, level)
    ensures |Climb(h, cfg, o, level)| == h.len
  {
    if level > 0 {
      assert |h.Hash(ClimbInput(h, cfg, o, level - 1))| == h.len;
    }
  }

  /** The same input at one level means the same value below it. */
  lemma InputDeterminesValue(h: Hasher, cfg: MerkleChannelCfg, o1: MerkleOpening, o2: MerkleOpening, level: nat)
    requires FixedLength(h) && WellSized(h, o1) && WellSized(h, o2)
    requires PathFits(cfg, o1.path) && PathFits(cfg, o2.path) && o1.index == o2.index
    requires level < |o1.path| && level < |o2.path|
    requires EnoughSiblings(cfg, o1.path, level + 1) && EnoughSiblings(cfg, o2.path, level + 1)
    requires ClimbInput(h, cfg, o1, level) == ClimbInput(h, cfg, o2, level)
    ensures Climb(h, cfg, o1, level) == Climb(h, cfg, o2, level)
  {
    var arity, idx := cfg.layerArities[level], IndexUp(cfg.layerArities, 0, o1.index, level);
    var pos := Rem(idx, arity);
    var c1 := Assemble(o1.path[level], arity, pos, Climb(h, cfg, o1, level));
    var c2 := Assemble(o2.path[level], arity, pos, Climb(h, cfg, o2, level));
    assert c1 == c2 by {
      ClimbSized(h, cfg, o1, level);
      ClimbSized(h, cfg, o2, level);
      AssembledSized(o1.path[level], arity, pos, Climb(h, cfg, o1, level), h.len);
      AssembledSized(o2.path[level], arity, pos, Climb(h, cfg, o2, level), h.len);
      ConcatInjective(c1, c2, h.len);
    }
    assert c1[pos] == c2[pos];
  }

  lemma AssembledSized(siblings: seq<Digest>, arity: nat, pos: nat, cur: Digest, len: nat)
    requires pos < arity && |siblings| >= arity - 1
    requires |cur| == len && forall j :: 0 <= j < |siblings| ==> |siblings[j]| == len
    ensures forall i :: 0 <= i < arity ==> |Assemble(siblings, arity, pos, cur)[i]| == len
  {
  }

  /** The inputs to compare: the last ones if the path lengths differ, else those of the first level
      whose outputs agree. */
  function CollisionFrom(h: Hasher, cfg: MerkleChannelCfg, o1: MerkleOpening, o2: MerkleOpening,
                         level: nat): (HashInput, HashInput)
    requires PathFits(cfg, o1.path) && EnoughSiblings(cfg, o1.path, |o1.path|)
    requires PathFits(cfg, o2.path) && EnoughSiblings(cfg, o2.path, |o2.path|)
    requires level < |o1.path| && level < |o2.path|
    decreases |o1.path| - level
  {
    if |o1.path| != |o2.path| then
      (ClimbInput(h, cfg, o1, |o1.path| - 1), ClimbInput(h, cfg, o2, |o2.path| - 1))
    else if level + 1 == |o1.path| || Climb(h, cfg, o1, level + 1) == Climb(h, cfg, o2, level + 1) then
      (ClimbInput(h, cfg, o1, level), ClimbInput(h, cfg, o2, level))
    else CollisionFrom(h, cfg, o1, o2, level + 1)
  }

  lemma {:induction false} CollisionFromWorks(h: Hasher, cfg: MerkleChannelCfg, root: Digest, o1: MerkleOpening,
                                              o2: MerkleOpening, level: nat)
    requires FixedLength(h) && WellSized(h, o1) && WellSized(h, o2)
    requires PathFits(cfg, o1.path) && PathFits(cfg, o2.path) && o1.index == o2.index
    requires Verifies(h, cfg, root, o1) && Verifies(h, cfg, root, o2)
    requires level < |o1.path| < WORD32 && level < |o2.path| < WORD32
    requires Climb(h, cfg, o1, level) != Climb(h, cfg, o2, level)
    ensures var (x, y) := CollisionFrom(h, cfg, o1, o2, level); Collision(h, x, y)
    decreases |o1.path| - level
  {
    if |o1.path| != |o2.path| {
      LastLevelsDiffer(h, cfg, o1, o2);
    } else if level + 1 == |o1.path| || Climb(h, cfg, o1, level + 1) == Climb(h, cfg, o2, level + 1) {
      if ClimbInput(h, cfg, o1, level) == ClimbInput(h, cfg, o2, level) {
        InputDeterminesValue(h, cfg, o1, o2, level);
      }
    } else {
      CollisionFromWorks(h, cfg, root, o1, o2, level + 1);
    }
  }

  lemma LevelOf(h: Hasher, cfg: MerkleChannelCfg, o: MerkleOpening, level: nat)
    requires PathFits(cfg, o.path) && level < |o.path| && EnoughSiblings(cfg, o.path, level + 1)
    ensures ClimbInput(h, cfg, o, level).tag.level == (level + 1) % WORD32
  {
  }

  /** Paths of different lengths hash different level labels last. */
  lemma LastLevelsDiffer(h: Hasher, cfg: MerkleChannelCfg, o1: MerkleOpening, o2: MerkleOpening)
    requires PathFits(cfg, o1.path) && EnoughSiblings(cfg, o1.path, |o1.path|)
    requires PathFits(cfg, o2.path) && EnoughSiblings(cfg, o2.path, |o2.path|)
    requires 0 < |o1.path| < WORD32 && 0 < |o2.path| < WORD32 && |o1.path| != |o2.path|
    ensures ClimbInput(h, cfg, o1, |o1.path| - 1) != ClimbInput(h, cfg, o2, |o2.path| - 1)
  {
    var n1, n2 := |o1.path|, |o2.path|;
    assert n1 % WORD32 == n1 && n2 % WORD32 == n2;
    LevelOf(h, cfg, o1, n1 - 1);
    LevelOf(h, cfg, o2, n2 - 1);
  }

  /** Binding: two openings with non-empty paths, one index and different leaves that both verify
      against one root yield two different inputs with one digest. */
  lemma Binding(h: Hasher, cfg: MerkleChannelCfg, root: Digest, o1: MerkleOpening, o2: MerkleOpening)
    requires FixedLength(h) && WellSized(h, o1) && WellSized(h, o2)
    requires PathFits(cfg, o1.path) && PathFits(cfg, o2.path) && o1.index == o2.index
    requires 0 < |o1.path| < WORD32 && 0 < |o2.path| < WORD32
    requires Verifies(h, cfg, root, o1) && Verifies(h, cfg, root, o2)
    requires o1.leaf != o2.leaf
    ensures var (x, y) := CollisionFrom(h, cfg, o1, o2, 0); Collision(h, x, y)
  {
    CollisionFromWorks(h, cfg, root, o1, o2, 0);
  }

  // ---------- binding of values, for paths of any length ----------

  /** A leaf hashes its level label, which no node carries below level 2^32 - 1. */
  function ValueInput(cfg: MerkleChannelCfg, o: MerkleOpening, v: seq<Byte>): HashInput
    requires cfg.layerArities != []
  {
    LeafInput(cfg.layerArities[0], cfg.treeLabel, o.index, v)
  }

  /** The input hashed last on the way up. */
  function LastInput(h: Hasher, cfg: MerkleChannelCfg, o: MerkleOpening): HashInput
    requires PathFits(cfg, o.path) && EnoughSiblings(cfg, o.path, |o.path|) && o.path != []
  {
    ClimbInput(h, cfg, o, |o.path| - 1)
  }

  /** The inputs to compare for two values: the leaf inputs if the leaves agree, a leaf input and a node input if
      just one path is empty, else those found on the way up. */
  function ValueCollisionFrom(h: Hasher, cfg: MerkleChannelCfg, o1: MerkleOpening, o2: MerkleOpening,
                              v1: seq<Byte>, v2: seq<Byte>): (HashInput, HashInput)
    requires PathFits(cfg, o1.path) && EnoughSiblings(cfg, o1.path, |o1.path|)
    requires PathFits(cfg, o2.path) && EnoughSiblings(cfg, o2.path, |o2.path|)
    requires cfg.layerArities != []
  {
    if o1.leaf == o2.leaf || (o1.path == [] && o2.path == []) then (ValueInput(cfg, o1, v1), ValueInput(cfg, o2, v2))
    else if o1.path == [] then (ValueInput(cfg, o1, v1), LastInput(h, cfg, o2))
    else if o2.path == [] then (LastInput(h, cfg, o1), ValueInput(cfg, o2, v2))
    else CollisionFrom(h, cfg, o1, o2, 0)
  }

  /** The leaf level is no node's level. */
  lemma LeafIsNoNode(h: Hasher, cfg: MerkleChannelCfg, o1: MerkleOpening, v: seq<Byte>, o2: MerkleOpening)
    requires cfg.layerArities != [] && PathFits(cfg, o2.path) && EnoughSiblings(cfg, o2.path, |o2.path|)
    requires 0 < |o2.path| < LEAF_LEVEL_DS
    ensures ValueInput(cfg, o1, v) != LastInput(h, cfg, o2)
  {
    LevelOf(h, cfg, o2, |o2.path| - 1);
    assert |o2.path| % WORD32 == |o2.path|;
  }

  /** Binding of the committed values: two different value strings accepted at one index under one root give a
      collision, in the leaf hash, on the way up, or between a leaf and a node. Paths of any lengths, the empty one
      included. */
  lemma ValueBinding(h: Hasher, cfg: MerkleChannelCfg, root: Digest, o1: MerkleOpening, o2: MerkleOpening,
                     v1: seq<Byte>, v2: seq<Byte>)
    requires FixedLength(h) && WellSized(h, o1) && WellSized(h, o2) && cfg.layerArities != []
    requires PathFits(cfg, o1.path) && PathFits(cfg, o2.path) && o1.index == o2.index
    requires |o1.path| < LEAF_LEVEL_DS && |o2.path| < LEAF_LEVEL_DS
    requires Verifies(h, cfg, root, o1) && Verifies(h, cfg, root, o2)
    requires o1.leaf == LeafHash(h, cfg, o1.index, v1) && o2.leaf == LeafHash(h, cfg, o2.index, v2)
    requires v1 != v2
    ensures var (x, y) := ValueCollisionFrom(h, cfg, o1, o2, v1, v2); Collision(h, x, y)
  {
    if o1.leaf == o2.leaf || (o1.path == [] && o2.path == []) {
      assert Climb(h, cfg, o1, 0) == o1.leaf && Climb(h, cfg, o2, 0) == o2.leaf;
    } else if o1.path == [] {
      assert Climb(h, cfg, o1, 0) == o1.leaf;
      LeafIsNoNode(h, cfg, o1, v1, o2);
    } else if o2.path == [] {
      assert Climb(h, cfg, o2, 0) == o2.leaf;
      LeafIsNoNode(h, cfg, o2, v2, o1);
    } else {
      Binding(h, cfg, root, o1, o2);
    }
  }

  // ---------- collisions of the hashed byte strings ----------

  /** The numbers written into labels fit their 64-bit words. */
  ghost predicate FitsWords(cfg: MerkleChannelCfg, index: nat) {
    && cfg.treeLabel < Power256(8) && index < Power256(8)
    && forall i :: 0 <= i < |cfg.layerArities| ==> cfg.layerArities[i] < Power256(8)
  }

  /** Positions only shrink on the way up. */
  lemma {:induction false} IndexUpShrinks(arities: seq<nat>, idx: nat, k: nat)
    ensures IndexUp(arities, 0, idx, k) <= idx
  {
    if k > 0 {
      IndexUpShrinks(arities, idx, k - 1);
      var arity, below := ArityAt(arities, k - 1), IndexUp(arities, 0, idx, k - 1);
      if arity > 0 {
        BlockOf(below, arity, Quot(below, arity) * arity);
        BlocksMonotone(1, arity, Quot(below, arity));
        assert Quot(below, arity) * arity == arity * Quot(below, arity);
      }
    }
  }

  lemma Word32Fits()
    ensures WORD32 < Power256(8)
  {
    var b: nat := 256;
    assert Power256(4) == b * b * b * b == WORD32;
    assert Power256(8) == b * (b * (b * (b * Power256(4))));
  }

  lemma ClimbLabelFits(h: Hasher, cfg: MerkleChannelCfg, o: MerkleOpening, level: nat)
    requires FitsWords(cfg, o.index) && PathFits(cfg, o.path) && level < |o.path|
    requires EnoughSiblings(cfg, o.path, level + 1)
    ensures ClimbInput(h, cfg, o, level).tag.Fits()
  {
    IndexUpShrinks(cfg.layerArities, o.index, level);
    IndexUpShrinks(cfg.layerArities, o.index, level + 1);
    Word32Fits();
  }

  lemma {:induction false} CollisionLabelsFit(h: Hasher, cfg: MerkleChannelCfg, o1: MerkleOpening, o2: MerkleOpening,
                                              level: nat)
    requires FitsWords(cfg, o1.index) && FitsWords(cfg, o2.index)
    requires PathFits(cfg, o1.path) && EnoughSiblings(cfg, o1.path, |o1.path|)
    requires PathFits(cfg, o2.path) && EnoughSiblings(cfg, o2.path, |o2.path|)
    requires level < |o1.path| && level < |o2.path|
    ensures var (x, y) := CollisionFrom(h, cfg, o1, o2, level); x.tag.Fits() && y.tag.Fits()
    decreases |o1.path| - level
  {
    if |o1.path| != |o2.path| {
      ClimbLabelFits(h, cfg, o1, |o1.path| - 1);
      ClimbLabelFits(h, cfg, o2, |o2.path| - 1);
    } else if level + 1 == |o1.path| || Climb(h, cfg, o1, level + 1) == Climb(h, cfg, o2, level + 1) {
      ClimbLabelFits(h, cfg, o1, level);
      ClimbLabelFits(h, cfg, o2, level);
    } else {
      CollisionLabelsFit(h, cfg, o1, o2, level + 1);
    }
  }

  /** Binding for a hash of byte strings: two different byte strings with one digest. */
  lemma ByteBinding(f: seq<Byte> -> Digest, len: nat, cfg: MerkleChannelCfg, root: Digest, o1: MerkleOpening,
                    o2: MerkleOpening)
    requires FixedLength(ByteHasher(f, len)) && WellSized(ByteHasher(f, len), o1) && WellSized(ByteHasher(f, len), o2)
    requires PathFits(cfg, o1.path) && PathFits(cfg, o2.path) && o1.index == o2.index && FitsWords(cfg, o1.index)
    requires 0 < |o1.path| < WORD32 && 0 < |o2.path| < WORD32
    requires Verifies(ByteHasher(f, len), cfg, root, o1) && Verifies(ByteHasher(f, len), cfg, root, o2)
    requires o1.leaf != o2.leaf
    ensures var (x, y) := CollisionFrom(ByteHasher(f, len), cfg, o1, o2, 0);
      && BytesOf(x) != BytesOf(y)
      && f(BytesOf(x)) == f(BytesOf(y))
  {
    var h := ByteHasher(f, len);
    Binding(h, cfg, root, o1, o2);
    CollisionLabelsFit(h, cfg, o1, o2, 0);
    var (x, y) := CollisionFrom(h, cfg, o1, o2, 0);
    LabelBytesInjective(x.tag, y.tag, x.body, y.body);
  }

  lemma ValueLabelFits(cfg: MerkleChannelCfg, o: MerkleOpening, v: seq<Byte>)
    requires cfg.layerArities != [] && FitsWords(cfg, o.index)
    ensures ValueInput(cfg, o, v).tag.Fits()
  {
    Word32Fits();
  }

  lemma ValueLabelsFit(h: Hasher, cfg: MerkleChannelCfg, o1: MerkleOpening, o2: MerkleOpening, v1: seq<Byte>,
                       v2: seq<Byte>)
    requires FitsWords(cfg, o1.index) && FitsWords(cfg, o2.index) && cfg.layerArities != []
    requires PathFits(cfg, o1.path) && EnoughSiblings(cfg, o1.path, |o1.path|)
    requires PathFits(cfg, o2.path) && EnoughSiblings(cfg, o2.path, |o2.path|)
    ensures var (x, y) := ValueCollisionFrom(h, cfg, o1, o2, v1, v2); x.tag.Fits() && y.tag.Fits()
  {
    ValueLabelFits(cfg, o1, v1);
    ValueLabelFits(cfg, o2, v2);
    if o1.path != [] {
      ClimbLabelFits(h, cfg, o1, |o1.path| - 1);
    }
    if o2.path != [] {
      ClimbLabelFits(h, cfg, o2, |o2.path| - 1);
    }
    if o1.path != [] && o2.path != [] {
      CollisionLabelsFit(h, cfg, o1, o2, 0);
    }
  }

  /** The same for values: two value strings opened at one index with paths of any lengths give two different byte
      strings with one digest. */
  lemma ValueByteBinding(f: seq<Byte> -> Digest, len: nat, cfg: MerkleChannelCfg, root: Digest, o1: MerkleOpening,
                         o2: MerkleOpening, v1: seq<Byte>, v2: seq<Byte>)
    requires FixedLength(ByteHasher(f, len)) && WellSized(ByteHasher(f, len), o1) && WellSized(ByteHasher(f, len), o2)
    requires PathFits(cfg, o1.path) && PathFits(cfg, o2.path) && o1.index == o2.index && FitsWords(cfg, o1.index)
    requires cfg.layerArities != [] && |o1.path| < LEAF_LEVEL_DS && |o2.path| < LEAF_LEVEL_DS
    requires Verifies(ByteHasher(f, len), cfg, root, o1) && Verifies(ByteHasher(f, len), cfg, root, o2)
    requires o1.leaf == LeafHash(ByteHasher(f, len), cfg, o1.index, v1)
    requires o2.leaf == LeafHash(ByteHasher(f, len), cfg, o2.index, v2)
    requires v1 != v2
    ensures var (x, y) := ValueCollisionFrom(ByteHasher(f, len), cfg, o1, o2, v1, v2);
      && BytesOf(x) != BytesOf(y)
      && f(BytesOf(x)) == f(BytesOf(y))
  {
    var h := ByteHasher(f, len);
    ValueBinding(h, cfg, root, o1, o2, v1, v2);
    ValueLabelsFit(h, cfg, o1, o2, v1, v2);
    var (x, y) := ValueCollisionFrom(h, cfg, o1, o2, v1, v2);
    LabelBytesInjective(x.tag, y.tag, x.body, y.body);
  }

  /** Why `Binding`, which is about leaf digests alone, asks for non-empty paths: the root itself opens at every index
      with an empty path. */
  lemma EmptyPathAccepted(h: Hasher, cfg: MerkleChannelCfg, root: Digest, index: nat, leaf: Digest)
    ensures Verifies(h, cfg, root, MerkleOpening(leaf, [], index)) <==> leaf == root
  {
    assert Climb(h, cfg, MerkleOpening(leaf, [], index), 0) == leaf;
  }
}
