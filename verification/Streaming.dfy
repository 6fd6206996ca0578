/** `StreamingMerkleSpine`: a Merkle root computed with one resident hash per tree level, shown to be
    the root of the level-by-level tree of `Dns`. */
module Streaming {
  import opened Arith
  import opened Rings
  import opened Dns

  /** The complete pairs of a level, hashed; an odd last node is not yet paired. */
  function CompletePairs<T>(combine: (T, T) -> T, nodes: seq<T>): (up: seq<T>)
    ensures |up| == |nodes| / 2
  {
    if |nodes| < 2 then [] else [combine(nodes[0], nodes[1])] + CompletePairs(combine, nodes[2..])
  }

  /** The nodes of level i whose subtrees are complete. */
  function CompleteLevel<T>(combine: (T, T) -> T, leaves: seq<T>, i: nat): (nodes: seq<T>)
    ensures |nodes| == Shr(|leaves|, i)
  {
    if i == 0 then leaves else CompletePairs(combine, CompleteLevel(combine, leaves, i - 1))
  }

  /** The spine over `nodes`: one slot per bit of their number; the slot of a set bit holds the last
      node of its level. */
  ghost predicate Spine<T>(combine: (T, T) -> T, slots: seq<Option<T>>, nodes: seq<T>)
    decreases |nodes|
  {
    if nodes == [] then slots == []
    else
      && slots != []
      && slots[0] == (if |nodes| % 2 == 1 then Some(nodes[|nodes| - 1]) else None)
      && Spine(combine, slots[1..], CompletePairs(combine, nodes))
  }

  function FloorLog2(n: nat): nat {
    if n <= 1 then 0 else 1 + FloorLog2(n / 2)
  }

  function PopCount(n: nat): nat {
    if n == 0 then 0 else n % 2 + PopCount(n / 2)
  }

  function Occupied<T>(slots: seq<Option<T>>): nat {
    if slots == [] then 0 else (if slots[0].Some? then 1 else 0) + Occupied(slots[1..])
  }

  lemma {:induction false} SpineLength<T>(combine: (T, T) -> T, slots: seq<Option<T>>, nodes: seq<T>)
    requires Spine(combine, slots, nodes)
    ensures nodes != [] ==> |slots| == FloorLog2(|nodes|) + 1
    decreases |nodes|
  {
    if nodes != [] {
      SpineLength(combine, slots[1..], CompletePairs(combine, nodes));
    }
  }

  /** Resident hashes are the set bits of the leaf count, at most one per bit. */
  lemma {:induction false} ResidentIsPopCount<T>(combine: (T, T) -> T, slots: seq<Option<T>>, nodes: seq<T>)
    requires Spine(combine, slots, nodes)
    ensures Occupied(slots) == PopCount(|nodes|)
    ensures nodes != [] ==> PopCount(|nodes|) <= FloorLog2(|nodes|) + 1
    decreases |nodes|
  {
    if nodes != [] {
      ResidentIsPopCount(combine, slots[1..], CompletePairs(combine, nodes));
    }
  }

  lemma {:induction false} SlotHolds<T>(combine: (T, T) -> T, slots: seq<Option<T>>, nodes: seq<T>, i: nat)
    requires Spine(combine, slots, nodes) && i < |slots|
    ensures
      var level := CompleteLevel(combine, nodes, i);
      && (slots[i].Some? <==> Shr(|nodes|, i) % 2 == 1)
      && (slots[i].Some? ==> slots[i].value == level[|level| - 1])
    decreases i
  {
    if i > 0 {
      var up := CompletePairs(combine, nodes);
      SlotHolds(combine, slots[1..], up, i - 1);
      CompleteLevelUp(combine, nodes, i - 1);
    }
  }

  lemma {:induction false} CompleteLevelUp<T>(combine: (T, T) -> T, nodes: seq<T>, i: nat)
    ensures CompleteLevel(combine, CompletePairs(combine, nodes), i) == CompleteLevel(combine, nodes, i + 1)
  {
    if i > 0 {
      CompleteLevelUp(combine, nodes, i - 1);
    }
  }

  /** The root of the perfect binary tree over the 2^i leaves from `start` on. */
  function PerfectRoot<T>(combine: (T, T) -> T, leaves: seq<T>, start: nat, i: nat): T
    requires start + Pow2(i) <= |leaves|
    decreases i
  {
    if i == 0 then leaves[start]
    else combine(PerfectRoot(combine, leaves, start, i - 1), PerfectRoot(combine, leaves, start + Pow2(i - 1), i - 1))
  }

  lemma {:induction false} CompletePairAt<T>(combine: (T, T) -> T, nodes: seq<T>, j: nat)
    requires 2 * j + 1 < |nodes|
    ensures CompletePairs(combine, nodes)[j] == combine(nodes[2 * j], nodes[2 * j + 1])
    decreases j
  {
    if j > 0 {
      CompletePairAt(combine, nodes[2..], j - 1);
    }
  }

  /** Node j of level i is the perfect subtree over the j-th block of 2^i leaves. */
  lemma {:induction false} CompleteIsPerfect<T>(combine: (T, T) -> T, leaves: seq<T>, i: nat, j: nat, start: nat)
    requires j < Shr(|leaves|, i) && start == Shl(j, i)
    ensures start + Pow2(i) <= |leaves|
    ensures CompleteLevel(combine, leaves, i)[j] == PerfectRoot(combine, leaves, start, i)
    decreases i
  {
    if i > 0 {
      var mid := start + Pow2(i - 1);
      HalfBlocks(|leaves|, i, j);
      CompleteIsPerfect(combine, leaves, i - 1, 2 * j, start);
      CompleteIsPerfect(combine, leaves, i - 1, 2 * j + 1, mid);
      CompletePairAt(combine, CompleteLevel(combine, leaves, i - 1), j);
    }
  }

  lemma HalfBlocks(n: nat, i: nat, j: nat)
    requires i > 0 && j < Shr(n, i)
    ensures 2 * j + 1 < Shr(n, i - 1)
    ensures Shl(2 * j, i - 1) == Shl(j, i) && Shl(2 * j + 1, i - 1) == Shl(j, i) + Pow2(i - 1)
  {
    ShlDouble(j, i - 1);
    ShlNext(2 * j, i - 1);
  }

  /** Slot i is occupied exactly when bit i of the leaf count is set, and then holds the root of the
      perfect subtree over the block of 2^i leaves that the bit stands for. */
  lemma SlotIsPerfectSubtree<T>(combine: (T, T) -> T, slots: seq<Option<T>>, leaves: seq<T>, i: nat)
    requires Spine(combine, slots, leaves) && i < |slots|
    ensures slots[i].Some? <==> Shr(|leaves|, i) % 2 == 1
    ensures slots[i].Some? ==>
      var start := Shl(Shr(|leaves|, i) - 1, i);
      start + Pow2(i) <= |leaves| && slots[i].value == PerfectRoot(combine, leaves, start, i)
  {
    SlotHolds(combine, slots, leaves, i);
    if slots[i].Some? {
      var j := Shr(|leaves|, i) - 1;
      CompleteIsPerfect(combine, leaves, i, j, Shl(j, i));
    }
  }

  // ---------- pushing a leaf ----------

  /** The slots after a carry is pushed in at the bottom. */
  function Carry<T>(combine: (T, T) -> T, slots: seq<Option<T>>, c: T): seq<Option<T>> {
    if slots == [] then [Some(c)]
    else if slots[0].None? then [Some(c)] + slots[1..]
    else [None] + Carry(combine, slots[1..], combine(slots[0].value, c))
  }

  lemma {:induction false} PairsOfPush<T>(combine: (T, T) -> T, nodes: seq<T>, c: T)
    ensures CompletePairs(combine, nodes + [c])
         == if |nodes| % 2 == 1 then CompletePairs(combine, nodes) + [combine(nodes[|nodes| - 1], c)]
            else CompletePairs(combine, nodes)
    decreases |nodes|
  {
    if |nodes| >= 2 {
      PairsOfPush(combine, nodes[2..], c);
      assert (nodes + [c])[2..] == nodes[2..] + [c];
    }
  }

  /** The carry chain of a binary counter keeps the spine. */
  lemma {:induction false} CarryKeepsSpine<T>(combine: (T, T) -> T, slots: seq<Option<T>>, nodes: seq<T>, c: T)
    requires Spine(combine, slots, nodes)
    ensures Spine(combine, Carry(combine, slots, c), nodes + [c])
    decreases |nodes|
  {
    PairsOfPush(combine, nodes, c);
    if nodes != [] && |nodes| % 2 == 1 {
      CarryKeepsSpine(combine, slots[1..], CompletePairs(combine, nodes), combine(slots[0].value, c));
    }
  }

  /** What the loop does to the slot at `level`. */
  lemma CarryStep<T>(combine: (T, T) -> T, slots: seq<Option<T>>, level: nat, c: T)
    requires level <= |slots|
    ensures level == |slots| ==>
      slots[..level] + Carry(combine, slots[level..], c) == (slots + [None])[level := Some(c)]
    ensures level < |slots| && slots[level].None? ==>
      slots[..level] + Carry(combine, slots[level..], c) == slots[level := Some(c)]
    ensures level < |slots| && slots[level].Some? ==>
      var taken := slots[level := None];
      slots[..level] + Carry(combine, slots[level..], c)
      == taken[..level + 1] + Carry(combine, taken[level + 1..], combine(slots[level].value, c))
  {
    var rest := slots[level..];
    if level < |slots| {
      assert rest[0] == slots[level] && rest[1..] == slots[level + 1..];
    }
  }

  // ---------- finishing ----------

  /** One step of the drain below the top level: an orphan is paired with itself. */
  function DrainBelow<T>(combine: (T, T) -> T, pending: Option<T>, carry: Option<T>): Option<T> {
    match (pending, carry)
    case (Some(left), Some(right)) => Some(combine(left, right))
    case (Some(only), None) => Some(combine(only, only))
    case (None, Some(c)) => Some(combine(c, c))
    case (None, None) => None
  }

  /** The step at the top level: the root is not paired with itself. */
  function DrainTop<T>(combine: (T, T) -> T, pending: Option<T>, carry: Option<T>): Option<T> {
    match (pending, carry)
    case (Some(left), Some(right)) => Some(combine(left, right))
    case (Some(only), None) => Some(only)
    case (None, Some(c)) => Some(c)
    case (None, None) => None
  }

  function Drain<T>(combine: (T, T) -> T, slots: seq<Option<T>>, i: nat, highest: nat, carry: Option<T>): Option<T>
    requires i <= |slots|
    decreases |slots| - i
  {
    if i == |slots| then carry
    else if i < highest then Drain(combine, slots, i + 1, highest, DrainBelow(combine, slots[i], carry))
    else Drain(combine, slots, i + 1, highest, DrainTop(combine, slots[i], carry))
  }

  function WithCarry<T>(nodes: seq<T>, carry: Option<T>): seq<T> {
    if carry.Some? then nodes + [carry.value] else nodes
  }

  lemma {:induction false} HashPairsSplit<T>(combine: (T, T) -> T, nodes: seq<T>)
    ensures HashPairs(combine, nodes)
         == CompletePairs(combine, nodes) + if |nodes| % 2 == 1 then [combine(nodes[|nodes| - 1], nodes[|nodes| - 1])]
            else []
    decreases |nodes|
  {
    if |nodes| >= 2 {
      HashPairsSplit(combine, nodes[2..]);
    }
  }

  /** Draining from slot i: the rest of the spine and the carry make up one level of the tree. */
  lemma {:induction false} DrainIsRoot<T>(combine: (T, T) -> T, slots: seq<Option<T>>, i: nat, nodes: seq<T>,
                                          carry: Option<T>)
    requires i < |slots| && Spine(combine, slots[i..], nodes)
    ensures nodes != []
    ensures Drain(combine, slots, i, |slots| - 1, carry) == Some(Root(combine, WithCarry(nodes, carry)))
    decreases |slots| - i
  {
    var rest, up := slots[i..], CompletePairs(combine, nodes);
    assert rest[1..] == slots[i + 1..];
    if i == |slots| - 1 {
      assert up == [];
      assert |nodes| == 1;
    } else {
      var next := DrainBelow(combine, slots[i], carry);
      DrainIsRoot(combine, slots, i + 1, up, next);
      NextLevelIs(combine, nodes, slots[i], carry);
    }
  }

  lemma NextLevelIs<T>(combine: (T, T) -> T, nodes: seq<T>, pending: Option<T>, carry: Option<T>)
    requires nodes != []
    requires pending == if |nodes| % 2 == 1 then Some(nodes[|nodes| - 1]) else None
    ensures HashPairs(combine, WithCarry(nodes, carry))
         == WithCarry(CompletePairs(combine, nodes), DrainBelow(combine, pending, carry))
  {
    HashPairsSplit(combine, WithCarry(nodes, carry));
    if carry.Some? {
      PairsOfPush(combine, nodes, carry.value);
    }
  }

  // ---------- the class ----------

  class StreamingMerkleSpine<T> {
    var levels: seq<Option<T>>
    var nLeaves: nat
    /** The leaves pushed so far. */
    ghost var leaves: seq<T>

    ghost predicate Valid(combine: (T, T) -> T)
      reads this
    {
      nLeaves == |leaves| && Spine(combine, levels, leaves)
    }

    constructor ()
      ensures leaves == [] && forall combine: (T, T) -> T :: Valid(combine)
    {
      levels, nLeaves, leaves := [], 0, [];
    }

    method PushLeaf(leaf: T, combine: (T, T) -> T)
      requires Valid(combine)
      modifies this
      ensures Valid(combine) && leaves == old(leaves) + [leaf]
    {
      ghost var before := levels;
      CarryKeepsSpine(combine, before, leaves, leaf);
      nLeaves := nLeaves + 1;
      leaves := leaves + [leaf];
      var carry := Some(leaf);
      var level := 0;
      while carry.Some?
        invariant nLeaves == |leaves| && leaves == old(leaves) + [leaf]
        invariant carry.Some? ==> level <= |levels| == |before|
        invariant carry.Some? ==>
          Carry(combine, before, leaf) == levels[..level] + Carry(combine, levels[level..], carry.value)
        invariant carry.None? ==> Carry(combine, before, leaf) == levels
        decreases carry.Some?, |before| - level
      {
        var c := carry.value;
        CarryStep(combine, levels, level, c);
        if level >= |levels| {
          levels := levels + [None];
        }
        match levels[level]
        case Some(left) =>
          levels := levels[level := None];
          carry := Some(combine(left, c));
          level := level + 1;
        case None =>
          levels := levels[level := Some(c)];
          carry := None;
      }
    }

    /** The root, or nothing when no leaf was pushed; the slots are drained. */
    method Finalise(combine: (T, T) -> T) returns (root: Option<T>)
      requires Valid(combine)
      modifies this
      ensures root == if old(leaves) == [] then None else Some(Root(combine, old(leaves)))
    {
      if nLeaves == 0 {
        return None;
      }
      SpineLength(combine, levels, leaves);
      ghost var slots := levels;
      assert slots[0..] == slots;
      DrainIsRoot(combine, slots, 0, leaves, None);
      var highestLevel := FloorLog2(nLeaves);
      root := None;
      for i := 0 to |levels|
        invariant |levels| == |slots| && levels[i..] == slots[i..]
        invariant Drain(combine, slots, 0, highestLevel, None) == Drain(combine, slots, i, highestLevel, root)
      {
        var pending := levels[i];
        levels := levels[i := None];
        if i < highestLevel {
          root := DrainBelow(combine, pending, root);
        } else {
          root := DrainTop(combine, pending, root);
        }
      }
    }

    method ResidentHashes(ghost combine: (T, T) -> T) returns (count: nat)
      requires Valid(combine)
      ensures count == PopCount(nLeaves)
      ensures nLeaves > 0 ==> count <= FloorLog2(nLeaves) + 1
    {
      ResidentIsPopCount(combine, levels, leaves);
      count := 0;
      for i := 0 to |levels|
        invariant Occupied(levels) == count + Occupied(levels[i..])
      {
        assert levels[i..][1..] == levels[i + 1..];
        if levels[i].Some? {
          count := count + 1;
        }
      }
    }
  }

  /** Streaming equals batch: for every leaf list and every combine function. */
  method StreamedRoot<T>(leaves: seq<T>, combine: (T, T) -> T) returns (root: Option<T>)
    ensures root == if leaves == [] then None else Some(Root(combine, leaves))
  {
    var spine := new StreamingMerkleSpine<T>();
    for i := 0 to |leaves|
      invariant fresh(spine) && spine.Valid(combine) && spine.leaves == leaves[..i]
    {
      spine.PushLeaf(leaves[i], combine);
    }
    assert leaves[..|leaves|] == leaves;
    root := spine.Finalise(combine);
  }

  /** Duplicating the last node of odd levels is not padding with copies of the last leaf: with six
      leaves the two roots can differ. */
  lemma NotLeafPadding()
    ensures exists combine: (int, int) -> int ::
            Root(combine, [1, 2, 3, 4, 5, 6]) != Root(combine, [1, 2, 3, 4, 5, 6, 6, 6])
  {
    var combine := (x: int, y: int) => 2 * x + 3 * y;
    assert HashPairs(combine, [1, 2, 3, 4, 5, 6]) == [8, 18, 28] by {
      TwoPairs(combine, [1, 2, 3, 4, 5, 6]);
    }
    assert HashPairs(combine, [8, 18, 28]) == [70, 140];
    assert HashPairs(combine, [1, 2, 3, 4, 5, 6, 6, 6]) == [8, 18, 28, 30] by {
      TwoPairs(combine, [1, 2, 3, 4, 5, 6, 6, 6]);
    }
    assert HashPairs(combine, [8, 18, 28, 30]) == [70, 146] by {
      TwoPairs(combine, [8, 18, 28, 30]);
    }
    assert HashPairs(combine, [70, 140]) == [560] && HashPairs(combine, [70, 146]) == [578];
    assert Root(combine, [1, 2, 3, 4, 5, 6]) == Root(combine, [8, 18, 28]) == Root(combine, [70, 140]);
    assert Root(combine, [1, 2, 3, 4, 5, 6, 6, 6]) == Root(combine, [8, 18, 28, 30]) == Root(combine, [70, 146]);
  }

  lemma TwoPairs(combine: (int, int) -> int, nodes: seq<int>)
    requires |nodes| >= 4
    ensures HashPairs(combine, nodes) == [combine(nodes[0], nodes[1]), combine(nodes[2], nodes[3])]
            + HashPairs(combine, nodes[4..])
  {
    assert nodes[2..][2..] == nodes[4..];
  }
}
