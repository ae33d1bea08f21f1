/**
 The off-circuit Merkle tree: tagged inner nodes, an odd last node paired with itself. The root
 over the leaf list, opening paths, and the fixed tree of provider slots.
 */
module KeccakTree {
  import opened Bytes
  import opened Numbers
  import opened Wrappers

  /** 32 zero bytes */
  const ZERO: Digest :=
    [0, 0, 0, 0, 0, 0, 0, 0, 0, 0, 0, 0, 0, 0, 0, 0, 0, 0, 0, 0, 0, 0, 0, 0, 0, 0, 0, 0, 0, 0, 0, 0]

  function Node(k: Sha, a: Digest, b: Digest): Digest { k([1] + a + b) }

  /** One level up: neighbours hashed together, an odd last one with itself. */
  function Above(k: Sha, level: seq<Digest>): (up: seq<Digest>)
    ensures |up| == (|level| + 1) / 2
  {
    if level == [] then []
    else if |level| == 1 then [Node(k, level[0], level[0])]
    else [Node(k, level[0], level[1])] + Above(k, level[2..])
  }

  function Root(k: Sha, leaves: seq<Digest>): Digest
    decreases |leaves|
  {
    if leaves == [] then ZERO else if |leaves| == 1 then leaves[0] else Root(k, Above(k, leaves))
  }

  function SiblingIndex(idx: nat): nat { if idx % 2 == 0 then idx + 1 else idx - 1 }

  function Padded(level: seq<Digest>): seq<Digest> {
    if |level| % 2 == 1 then level + [level[|level| - 1]] else level
  }

  /** The index of a leaf or of its padding; with a single leaf no level is looked at. */
  predicate HasPath(leaves: seq<Digest>, idx: nat) { |leaves| == 1 || idx < |Padded(leaves)| }

  function Path(k: Sha, leaves: seq<Digest>, idx: nat): seq<Digest>
    requires HasPath(leaves, idx)
    decreases |leaves|
  {
    if |leaves| == 1 then []
    else [Padded(leaves)[SiblingIndex(idx)]] + Path(k, Above(k, leaves), idx / 2)
  }

  function Climb(k: Sha, node: Digest, path: seq<Digest>, idx: nat): Digest
    decreases |path|
  {
    if path == [] then node
    else Climb(k, if idx % 2 == 0 then Node(k, node, path[0]) else Node(k, path[0], node), path[1..], idx / 2)
  }

  lemma {:induction false} AboveAt(k: Sha, level: seq<Digest>, i: nat)
    requires i < (|level| + 1) / 2
    ensures 2 * i + 1 < |Padded(level)| && Above(k, level)[i] == Node(k, Padded(level)[2 * i], Padded(level)[2 * i + 1])
    decreases |level|
  {
    hide Node, Above;
    if i == 0 {
      AboveFirst(k, level);
    } else {
      AboveFirst(k, level);
      AboveAt(k, level[2..], i - 1);
      assert Padded(level[2..]) == Padded(level)[2..];
      assert Padded(level)[2..][2 * i - 2] == Padded(level)[2 * i] && Padded(level)[2..][2 * i - 1] == Padded(level)[2 * i + 1];
    }
  }

  lemma {:induction false} AboveFirst(k: Sha, level: seq<Digest>)
    requires level != []
    ensures Above(k, level)[0] == Node(k, Padded(level)[0], Padded(level)[1])
    ensures |level| >= 2 ==> Above(k, level)[1..] == Above(k, level[2..])
  {
    hide Node;
  }

  lemma ParentIs(k: Sha, leaves: seq<Digest>, idx: nat)
    requires idx < |Padded(leaves)|
    ensures idx / 2 < (|leaves| + 1) / 2 && SiblingIndex(idx) < |Padded(leaves)|
    ensures var x, s := Padded(leaves)[idx], Padded(leaves)[SiblingIndex(idx)];
            Above(k, leaves)[idx / 2] == if idx % 2 == 0 then Node(k, x, s) else Node(k, s, x)
  {
    hide Node, Above;
    AboveAt(k, leaves, idx / 2);
    assert idx == 2 * (idx / 2) + idx % 2;
  }

  lemma ClimbUp(k: Sha, node: Digest, s: Digest, rest: seq<Digest>, idx: nat)
    ensures Climb(k, node, [s] + rest, idx)
         == Climb(k, if idx % 2 == 0 then Node(k, node, s) else Node(k, s, node), rest, idx / 2)
  {
    hide Node;
    assert ([s] + rest)[1..] == rest;
  }

  /** The leaf an index stands for: its own, or the last one when it falls on the padding. */
  function LeafAt(leaves: seq<Digest>, idx: nat): Digest
    requires leaves != []
  {
    if idx < |leaves| then leaves[idx] else leaves[|leaves| - 1]
  }

  /** Every leaf's path leads to the root, for every length of list. */
  lemma {:induction false} PathVerifies(k: Sha, leaves: seq<Digest>, idx: nat)
    requires HasPath(leaves, idx)
    ensures leaves != [] && Climb(k, LeafAt(leaves, idx), Path(k, leaves, idx), idx) == Root(k, leaves)
    decreases |leaves|
  {
    hide Node, Above, SiblingIndex;
    if |leaves| <= 1 {
    } else {
      var x := Padded(leaves)[idx];
      assert x == LeafAt(leaves, idx);
      ParentIs(k, leaves, idx);
      ClimbUp(k, x, Padded(leaves)[SiblingIndex(idx)], Path(k, Above(k, leaves), idx / 2), idx);
      PathVerifies(k, Above(k, leaves), idx / 2);
    }
  }

  /** What a node hashes: the tag, the left child, the right child. */
  lemma NodeLayout(k: Sha, a: Digest, b: Digest) returns (preimage: ByteString)
    ensures Node(k, a, b) == k(preimage) && |preimage| == 65
    ensures preimage[0] == 1 && preimage[1..33] == a && preimage[33..] == b
  {
    preimage := [1] + a + b;
  }

  /**
   The tree of `h` levels over a list, from the root down: the left half takes 2^(h - 1) leaves, and
   where nothing is left for the right half the left one stands on both sides.
   */
  function TreeOf(k: Sha, leaves: seq<Digest>, h: nat): Digest
    requires 1 <= |leaves| <= Pow2(h)
    decreases h
  {
    if h == 0 then leaves[0]
    else
      var half := Pow2(h - 1);
      if |leaves| <= half then Node(k, TreeOf(k, leaves, h - 1), TreeOf(k, leaves, h - 1))
      else Node(k, TreeOf(k, leaves[..half], h - 1), TreeOf(k, leaves[half..], h - 1))
  }

  /** Moving up is local: an even prefix moves up on its own. */
  lemma {:induction false} AboveSplits(k: Sha, a: seq<Digest>, b: seq<Digest>)
    requires |a| % 2 == 0
    ensures Above(k, a + b) == Above(k, a) + Above(k, b)
    decreases |a|
  {
    hide Node;
    if a == [] {
      assert a + b == b;
    } else {
      assert (a + b)[0] == a[0] && (a + b)[1] == a[1] && (a + b)[2..] == a[2..] + b;
      AboveSplits(k, a[2..], b);
    }
  }

  lemma TreeOfParts(k: Sha, leaves: seq<Digest>, a: seq<Digest>, b: seq<Digest>, h: nat)
    requires leaves == a + b && |a| == Pow2(h) && 1 <= |b| <= Pow2(h)
    ensures |leaves| <= Pow2(h + 1) && TreeOf(k, leaves, h + 1) == Node(k, TreeOf(k, a, h), TreeOf(k, b, h))
  {
    hide Node;
    assert leaves[..|a|] == a && leaves[|a|..] == b;
  }

  lemma TreeOfTwice(k: Sha, leaves: seq<Digest>, h: nat)
    requires 1 <= |leaves| <= Pow2(h)
    ensures |leaves| <= Pow2(h + 1) && TreeOf(k, leaves, h + 1) == Node(k, TreeOf(k, leaves, h), TreeOf(k, leaves, h))
  {
    hide Node;
  }

  /** One level up leaves the tree over a list as it is. */
  lemma {:induction false} TreeOfAbove(k: Sha, leaves: seq<Digest>, h: nat)
    requires 1 <= |leaves| <= Pow2(h + 1)
    ensures 1 <= |Above(k, leaves)| <= Pow2(h) && TreeOf(k, Above(k, leaves), h) == TreeOf(k, leaves, h + 1)
    decreases h
  {
    hide Node, Above, TreeOf, Pow2;
    PowStep(h);
    if h == 0 {
      TreeOfBottom(k, leaves);
    } else {
      PowStep(h - 1);
      var half := Pow2(h);
      if |leaves| <= half {
        TreeOfAbove(k, leaves, h - 1);
        TreeOfTwice(k, leaves, h);
        TreeOfTwice(k, Above(k, leaves), h - 1);
      } else {
        var a, b := leaves[..half], leaves[half..];
        assert leaves == a + b;
        AboveSplits(k, a, b);
        TreeOfAbove(k, a, h - 1);
        TreeOfAbove(k, b, h - 1);
        TreeOfParts(k, leaves, a, b, h);
        TreeOfParts(k, Above(k, leaves), Above(k, a), Above(k, b), h - 1);
      }
    }
  }

  lemma TreeOfBottom(k: Sha, leaves: seq<Digest>)
    requires 1 <= |leaves| <= 2
    ensures |Above(k, leaves)| == 1 && TreeOf(k, Above(k, leaves), 0) == TreeOf(k, leaves, 1)
  {
    hide Node;
    assert Pow2(0) == 1 && Pow2(1) == 2;
  }

  /** The level loop builds the tree of the least height that holds the list. */
  lemma {:induction false} RootIsTree(k: Sha, leaves: seq<Digest>, h: nat)
    requires 1 <= |leaves| <= Pow2(h) && (h > 0 ==> |leaves| > Pow2(h - 1))
    ensures Root(k, leaves) == TreeOf(k, leaves, h)
    decreases h
  {
    hide Node, Above, Pow2;
    PowStep(0);
    if h > 0 {
      PowStep(h - 1);
      TreeOfAbove(k, leaves, h - 1);
      if h > 1 {
        PowStep(h - 2);
      }
      RootIsTree(k, Above(k, leaves), h - 1);
    }
  }

  /** Repeating the last of an odd list changes nothing above it. */
  lemma {:induction false} RepeatedLast(k: Sha, level: seq<Digest>)
    requires |level| % 2 == 1 && |level| > 1
    ensures Root(k, level + [level[|level| - 1]]) == Root(k, level)
  {
    hide Node, Above;
    var longer := level + [level[|level| - 1]];
    forall i | 0 <= i < |longer| / 2 ensures Above(k, longer)[i] == Above(k, level)[i] {
      AboveAt(k, longer, i);
      AboveAt(k, level, i);
    }
    assert Above(k, longer) == Above(k, level);
  }

  /** What is hashed into node `i` of the next level. */
  function PairAt(level: seq<Digest>, i: nat): (Digest, Digest)
    requires i < (|level| + 1) / 2
  {
    (level[2 * i], if 2 * i + 1 < |level| then level[2 * i + 1] else level[2 * i])
  }

  lemma AboveIsPair(k: Sha, level: seq<Digest>, i: nat)
    requires i < (|level| + 1) / 2
    ensures Above(k, level)[i] == Node(k, PairAt(level, i).0, PairAt(level, i).1)
  {
    hide Node, Above;
    AboveAt(k, level, i);
  }

  function PairClash(k: Sha, x: (Digest, Digest), y: (Digest, Digest)): (c: Clash)
    ensures c.Genuine(k)
  {
    Compare(k, [1] + x.0 + x.1, [1] + y.0 + y.1)
  }

  lemma PairBinds(k: Sha, x: (Digest, Digest), y: (Digest, Digest))
    requires Node(k, x.0, x.1) == Node(k, y.0, y.1) && PairClash(k, x, y).NoClash?
    ensures x == y
  {
    SplitEqual([1] + x.0, x.1, [1] + y.0, y.1);
    SplitEqual([1], x.0, [1], y.0);
  }

  /** Compares what is hashed into the first `n` nodes above two levels. */
  function LevelClash(k: Sha, a: seq<Digest>, b: seq<Digest>, n: nat): (c: Clash)
    requires |a| == |b| && n <= (|a| + 1) / 2
    ensures c.Genuine(k)
  {
    if n == 0 then NoClash
    else LevelClash(k, a, b, n - 1).Else(PairClash(k, PairAt(a, n - 1), PairAt(b, n - 1)))
  }

  lemma {:induction false} NoLevelClash(k: Sha, a: seq<Digest>, b: seq<Digest>, n: nat, i: nat)
    requires |a| == |b| && i < n <= (|a| + 1) / 2 && LevelClash(k, a, b, n).NoClash?
    ensures PairClash(k, PairAt(a, i), PairAt(b, i)).NoClash?
  {
    hide PairClash, PairAt;
    if i >= n - 1 {
    } else {
      NoLevelClash(k, a, b, n - 1, i);
    }
  }

  /** Compares the trees over two lists of one length, from the root down. */
  function RootClash(k: Sha, a: seq<Digest>, b: seq<Digest>): (c: Clash)
    requires |a| == |b|
    ensures c.Genuine(k)
    decreases |a|
  {
    if |a| <= 1 then NoClash
    else RootClash(k, Above(k, a), Above(k, b)).Else(LevelClash(k, a, b, (|a| + 1) / 2))
  }

  lemma {:induction false} LevelBinds(k: Sha, a: seq<Digest>, b: seq<Digest>)
    requires |a| == |b| && Above(k, a) == Above(k, b) && LevelClash(k, a, b, (|a| + 1) / 2).NoClash?
    ensures a == b
  {
    hide Node, Above, LevelClash, PairClash;
    forall j | 0 <= j < |a| ensures a[j] == b[j] {
      var i := j / 2;
      AboveIsPair(k, a, i);
      AboveIsPair(k, b, i);
      NoLevelClash(k, a, b, (|a| + 1) / 2, i);
      PairBinds(k, PairAt(a, i), PairAt(b, i));
      assert j == 2 * i || j == 2 * i + 1;
    }
  }

  /** Lists of one length have one root exactly when they are equal, or a collision shows. */
  lemma {:induction false} RootBinds(k: Sha, a: seq<Digest>, b: seq<Digest>)
    requires |a| == |b| && RootClash(k, a, b).NoClash?
    ensures Root(k, a) == Root(k, b) <==> a == b
    decreases |a|
  {
    hide Node, Above, LevelClash;
    if |a| == 0 {
    } else if |a| == 1 {
      assert a == [a[0]] && b == [b[0]];
    } else {
      RootBinds(k, Above(k, a), Above(k, b));
      if Root(k, a) == Root(k, b) {
        LevelBinds(k, a, b);
      }
    }
  }

  /** The next level, as the loops build it from the padded one. */
  method NextLevel(k: Sha, input: seq<Digest>) returns (next: seq<Digest>)
    ensures next == Above(k, input)
  {
    hide Node;
    var level := Padded(input);
    next := [];
    for i := 0 to |level| / 2
      invariant next == Above(k, input)[..i]
    {
      AboveAt(k, input, i);
      next := next + [Node(k, level[2 * i], level[2 * i + 1])];
    }
  }

  method MerkleRoot(k: Sha, leaves: seq<Digest>) returns (root: Digest)
    ensures root == Root(k, leaves)
  {
    hide Above;
    if leaves == [] {
      return ZERO;
    }
    var level := leaves;
    while |level| > 1
      invariant level != [] && Root(k, level) == Root(k, leaves)
      decreases |level|
    {
      level := NextLevel(k, level);
    }
    return level[0];
  }

  /** Indices past the padding of the list are refused where the first sibling is looked up. */
  method MerkleProof(k: Sha, leaves: seq<Digest>, index: nat) returns (path: Option<seq<Digest>>)
    ensures path == if leaves == [] then Some([]) else if HasPath(leaves, index) then Some(Path(k, leaves, index)) else None
  {
    hide Above, Path, SiblingIndex;
    if leaves == [] {
      return Some([]);
    }
    var level: seq<Digest> := leaves;
    var idx: nat := index;
    var found: seq<Digest> := [];
    assert HasPath(leaves, index) ==> [] + Path(k, leaves, index) == Path(k, leaves, index);
    while |level| > 1
      invariant level != [] && (HasPath(level, idx) <==> HasPath(leaves, index))
      invariant HasPath(level, idx) ==> Path(k, leaves, index) == found + Path(k, level, idx)
      decreases |level|
    {
      if SiblingIndex(idx) >= |Padded(level)| {
        SiblingInReach(level, idx);
        return None;
      }
      SiblingInReach(level, idx);
      PathStep(k, level, idx);
      var sibling := Padded(level)[SiblingIndex(idx)];
      assert found + ([sibling] + Path(k, Above(k, level), idx / 2)) == found + [sibling] + Path(k, Above(k, level), idx / 2);
      found := found + [sibling];
      level := NextLevel(k, level);
      idx := idx / 2;
    }
    PathEnd(k, level, idx);
    assert HasPath(level, idx) && found + [] == found;
    return Some(found);
  }

  lemma SiblingInReach(level: seq<Digest>, idx: nat)
    ensures SiblingIndex(idx) < |Padded(level)| <==> idx < |Padded(level)|
  {
  }

  lemma PathStep(k: Sha, level: seq<Digest>, idx: nat)
    requires idx < |Padded(level)| && |level| > 1
    ensures HasPath(Above(k, level), idx / 2) && SiblingIndex(idx) < |Padded(level)|
    ensures Path(k, level, idx) == [Padded(level)[SiblingIndex(idx)]] + Path(k, Above(k, level), idx / 2)
  {
    hide Above;
    SiblingInReach(level, idx);
    assert idx / 2 < |Above(k, level)|;
  }

  lemma PathEnd(k: Sha, level: seq<Digest>, idx: nat)
    requires |level| == 1
    ensures Path(k, level, idx) == []
  {
  }

  method MerkleVerify(k: Sha, leaf: Digest, path: seq<Digest>, index: nat, root: Digest) returns (ok: bool)
    ensures ok <==> Climb(k, leaf, path, index) == root
  {
    hide Node;
    var node: Digest := leaf;
    var idx: nat := index;
    for i := 0 to |path|
      invariant Climb(k, node, path[i..], idx) == Climb(k, leaf, path, index)
    {
      assert path[i..][1..] == path[i + 1..];
      node := if idx % 2 == 0 then Node(k, node, path[i]) else Node(k, path[i], node);
      idx := idx / 2;
    }
    return node == root;
  }

  // --- the slot tree ---------------------------------------------------------------

  /** No capacity at all, or a power of two: what `n & (n - 1) == 0` says. */
  ghost predicate IsPow2(n: nat) { n == 0 || exists e: nat :: n == Pow2(e) }

  predicate PowerOfTwo(n: nat) { n < 2 || (n % 2 == 0 && PowerOfTwo(n / 2)) }

  lemma {:induction false} PowerOfTwoMeans(n: nat)
    ensures PowerOfTwo(n) <==> IsPow2(n)
    decreases n
  {
    if n == 1 {
      assert Pow2(0) == 1;
    } else if n >= 2 {
      PowerOfTwoMeans(n / 2);
      if n % 2 == 0 && IsPow2(n / 2) {
        var e: nat :| n / 2 == Pow2(e);
        assert Pow2(e + 1) == n;
      }
      if IsPow2(n) {
        var e: nat :| n == Pow2(e);
        assert e > 0 && n / 2 == Pow2(e - 1);
      }
    }
  }

  /** On a full binary tree the path of a slot does not depend on the slot itself. */
  lemma {:induction false} PathIgnoresOwnLeaf(k: Sha, leaves: seq<Digest>, height: nat, idx: nat, x: Digest)
    requires |leaves| == Pow2(height) && idx < |leaves|
    ensures Path(k, leaves[idx := x], idx) == Path(k, leaves, idx)
    decreases height
  {
    hide Node, Above, Path;
    var changed := leaves[idx := x];
    if height == 0 {
      PathEnd(k, leaves, idx);
      PathEnd(k, changed, idx);
    } else {
      AboveOfUpdate(k, leaves, idx, x);
      PathStep(k, leaves, idx);
      PathStep(k, changed, idx);
      PathIgnoresOwnLeaf(k, Above(k, leaves), height - 1, idx / 2, Above(k, changed)[idx / 2]);
    }
  }

  lemma AboveOfUpdate(k: Sha, leaves: seq<Digest>, idx: nat, x: Digest)
    requires idx < |leaves| && |leaves| % 2 == 0
    ensures idx / 2 < |Above(k, leaves)|
    ensures var up := Above(k, leaves[idx := x]); up == Above(k, leaves)[idx / 2 := up[idx / 2]]
  {
    hide Node, Above;
    var changed := leaves[idx := x];
    forall i | 0 <= i < |leaves| / 2 && i != idx / 2 ensures Above(k, changed)[i] == Above(k, leaves)[i] {
      AboveAt(k, leaves, i);
      AboveAt(k, changed, i);
      assert 2 * i != idx && 2 * i + 1 != idx;
    }
  }

  /** A provider's slots: each holds the sealed root of a deal, or zero. */
  class SlotTree {
    const capacity: nat
    var slots: seq<Digest>

    ghost predicate Valid() reads this { IsPow2(capacity) && |slots| == capacity }

    constructor (capacitySlots: nat)
      requires IsPow2(capacitySlots)
      ensures Valid() && capacity == capacitySlots && forall i :: 0 <= i < |slots| ==> slots[i] == ZERO
    {
      capacity := capacitySlots;
      slots := seq(capacitySlots, _ => ZERO);
    }

    method Set(slot: nat, sealedRoot: Digest)
      requires Valid() && slot < capacity
      modifies this
      ensures Valid() && slots == old(slots)[slot := sealedRoot]
    {
      slots := slots[slot := sealedRoot];
    }

    method Clear(slot: nat)
      requires Valid() && slot < capacity
      modifies this
      ensures Valid() && slots == old(slots)[slot := ZERO]
    {
      slots := slots[slot := ZERO];
    }

    /** A slot's path climbs from its content to the root. */
    method Proof(k: Sha, slot: nat) returns (path: seq<Digest>)
      requires Valid() && slot < capacity
      ensures path == Path(k, slots, slot) && Climb(k, slots[slot], path, slot) == Root(k, slots)
    {
      var found := MerkleProof(k, slots, slot);
      PathVerifies(k, slots, slot);
      path := found.value;
    }
  }

  /** A capacity that is not a power of two is refused. */
  method NewSlotTree(capacitySlots: nat) returns (tree: SlotTree?)
    ensures tree == null <==> !IsPow2(capacitySlots)
    ensures tree != null ==> fresh(tree) && tree.Valid() && tree.capacity == capacitySlots
  {
    PowerOfTwoMeans(capacitySlots);
    tree := null;
    if PowerOfTwo(capacitySlots) {
      tree := new SlotTree(capacitySlots);
    }
  }

  /** After any slot is rewritten, its old path climbs from the new content to the new root. */
  lemma SlotUpdateKeepsPath(k: Sha, slots: seq<Digest>, slot: nat, x: Digest)
    requires IsPow2(|slots|) && slot < |slots|
    ensures Path(k, slots[slot := x], slot) == Path(k, slots, slot)
    ensures Climb(k, x, Path(k, slots, slot), slot) == Root(k, slots[slot := x])
  {
    hide Node;
    var e: nat :| |slots| == Pow2(e);
    PathIgnoresOwnLeaf(k, slots, e, slot, x);
    PathVerifies(k, slots[slot := x], slot);
  }
}
