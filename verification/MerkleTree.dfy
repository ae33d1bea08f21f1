/** The binary Merkle tree over sealed chunks, on a power-of-two number of leaves. */
module MerkleTree {
  import opened Field
  import opened Hashing
  import opened Numbers

  datatype MerkleTree = MerkleTree(leaves: seq<F>, nodes: seq<seq<F>>, root: F)
  datatype MerkleProof = MerkleProof(leafIndex: nat, siblings: seq<F>, pathIndices: seq<bool>)

  function LeafHashes(h: HashFn, sealedChunks: seq<(F, F)>): (leaves: seq<F>)
    ensures |leaves| == |sealedChunks|
    ensures forall i | 0 <= i < |leaves| :: leaves[i] == h(sealedChunks[i].0, sealedChunks[i].1)
  {
    if sealedChunks == [] then []
    else
      var last := |sealedChunks| - 1;
      LeafHashes(h, sealedChunks[..last]) + [h(sealedChunks[last].0, sealedChunks[last].1)]
  }

  /** One level up: neighbours hashed together. */
  function PairUp(h: HashFn, level: seq<F>): (up: seq<F>)
    ensures |up| == |level| / 2
  {
    if |level| < 2 then [] else [h(level[0], level[1])] + PairUp(h, level[2..])
  }

  lemma {:induction false} PairUpIs(h: HashFn, level: seq<F>, i: nat)
    requires i < |level| / 2
    ensures PairUp(h, level)[i] == h(level[2 * i], level[2 * i + 1])
  {
    if i == 0 {
    } else {
      PairUpIs(h, level[2..], i - 1);
      assert PairUp(h, level)[i] == PairUp(h, level[2..])[i - 1];
      assert level[2..][2 * i - 2] == level[2 * i] && level[2..][2 * i - 1] == level[2 * i + 1];
    }
  }

  function Levels(h: HashFn, leaves: seq<F>, height: nat): (levels: seq<seq<F>>)
    ensures |levels| == height + 1
    decreases height
  {
    if height == 0 then [leaves] else [leaves] + Levels(h, PairUp(h, leaves), height - 1)
  }

  function Root(h: HashFn, leaves: seq<F>, height: nat): F
    requires |leaves| == Pow2(height)
    decreases height
  {
    if height == 0 then leaves[0] else Root(h, PairUp(h, leaves), height - 1)
  }

  /** The tree from the root down: left half, right half. */
  function TreeOf(h: HashFn, leaves: seq<F>, height: nat): F
    requires |leaves| == Pow2(height)
    decreases height
  {
    if height == 0 then leaves[0]
    else
      var half := Pow2(height - 1);
      h(TreeOf(h, leaves[..half], height - 1), TreeOf(h, leaves[half..], height - 1))
  }

  lemma PairUpStep(h: HashFn, level: seq<F>, rest: seq<F>)
    requires |level| >= 2 && rest == level[2..]
    ensures PairUp(h, level) == [h(level[0], level[1])] + PairUp(h, rest)
  {
  }

  lemma {:induction false} PairUpSplits(h: HashFn, a: seq<F>, b: seq<F>)
    requires |a| % 2 == 0
    ensures PairUp(h, a + b) == PairUp(h, a) + PairUp(h, b)
    decreases |a|
  {
    hide PairUp;
    if a == [] {
      assert a + b == b;
      NoPairs(h);
    } else {
      var first, inA, inB := h(a[0], a[1]), PairUp(h, a[2..]), PairUp(h, b);
      assert (a + b)[2..] == a[2..] + b;
      PairUpStep(h, a, a[2..]);
      PairUpStep(h, a + b, a[2..] + b);
      PairUpSplits(h, a[2..], b);
      assert [first] + (inA + inB) == [first] + inA + inB;
    }
  }

  lemma NoPairs(h: HashFn)
    ensures PairUp(h, []) == []
  {
  }

  lemma TreeOfParts(h: HashFn, leaves: seq<F>, a: seq<F>, b: seq<F>, height: nat)
    requires leaves == a + b && |a| == |b| == Pow2(height)
    ensures |leaves| == Pow2(height + 1) && TreeOf(h, leaves, height + 1) == h(TreeOf(h, a, height), TreeOf(h, b, height))
  {
    assert leaves[..|a|] == a && leaves[|a|..] == b;
  }

  lemma {:induction false} TreeOfPairUp(h: HashFn, leaves: seq<F>, height: nat)
    requires |leaves| == Pow2(height + 1)
    ensures |PairUp(h, leaves)| == Pow2(height) && TreeOf(h, PairUp(h, leaves), height) == TreeOf(h, leaves, height + 1)
    decreases height
  {
    hide PairUp, TreeOf, Pow2;
    PowStep(height);
    if height == 0 {
      TreeOfTwo(h, leaves);
    } else {
      PowStep(height - 1);
      var a, b := leaves[..Pow2(height)], leaves[Pow2(height)..];
      assert leaves == a + b;
      PairUpSplits(h, a, b);
      TreeOfPairUp(h, a, height - 1);
      TreeOfPairUp(h, b, height - 1);
      TreeOfParts(h, leaves, a, b, height);
      TreeOfParts(h, PairUp(h, leaves), PairUp(h, a), PairUp(h, b), height - 1);
    }
  }

  lemma TreeOfTwo(h: HashFn, leaves: seq<F>)
    requires |leaves| == 2
    ensures |PairUp(h, leaves)| == Pow2(0) && Pow2(1) == 2
    ensures TreeOf(h, PairUp(h, leaves), 0) == TreeOf(h, leaves, 1) == h(leaves[0], leaves[1])
  {
    assert Pow2(0) == 1 && Pow2(1) == 2;
  }

  /** The levels end in the tree over the halves. */
  lemma {:induction false} RootIsTree(h: HashFn, leaves: seq<F>, height: nat)
    requires |leaves| == Pow2(height)
    ensures Root(h, leaves, height) == TreeOf(h, leaves, height)
    decreases height
  {
    if height > 0 {
      HalfLevel(h, leaves, height);
      TreeOfPairUp(h, leaves, height - 1);
      RootIsTree(h, PairUp(h, leaves), height - 1);
    }
  }

  function SiblingOf(index: nat): nat { if index % 2 == 1 then index - 1 else index + 1 }

  function Path(h: HashFn, leaves: seq<F>, height: nat, index: nat): (path: seq<F>)
    requires |leaves| == Pow2(height) && index < |leaves|
    ensures |path| == height
    decreases height
  {
    if height == 0 then []
    else [leaves[SiblingOf(index)]] + Path(h, PairUp(h, leaves), height - 1, index / 2)
  }

  /** The two children in left-to-right order. */
  function Ordered(node: F, sibling: F, index: nat): (F, F) {
    if index % 2 == 1 then (sibling, node) else (node, sibling)
  }

  function Parent(h: HashFn, node: F, sibling: F, index: nat): F {
    var (l, r) := Ordered(node, sibling, index);
    h(l, r)
  }

  /** Hashing upwards from a node along its siblings. */
  function Climb(h: HashFn, node: F, siblings: seq<F>, index: nat): F
    decreases siblings
  {
    if siblings == [] then node
    else Climb(h, Parent(h, node, siblings[0], index), siblings[1..], index / 2)
  }

  function IndexBits(index: nat, n: nat): seq<bool> {
    seq(n, i requires 0 <= i => Bit(index, i) == 1)
  }

  lemma {:induction false} PairUpAt(h: HashFn, leaves: seq<F>, index: nat)
    requires index < |leaves| && |leaves| % 2 == 0
    ensures SiblingOf(index) < |leaves| && index / 2 < |PairUp(h, leaves)|
    ensures PairUp(h, leaves)[index / 2] == Parent(h, leaves[index], leaves[SiblingOf(index)], index)
  {
    PairUpIs(h, leaves, index / 2);
  }

  lemma HalfLevel(h: HashFn, leaves: seq<F>, height: nat)
    requires |leaves| == Pow2(height) && height > 0
    ensures |leaves| % 2 == 0 && |PairUp(h, leaves)| == Pow2(height - 1)
  {
    hide PairUp;
    assert Pow2(height) == 2 * Pow2(height - 1);
  }

  lemma RootUp(h: HashFn, leaves: seq<F>, height: nat)
    requires |leaves| == Pow2(height) && height > 0
    ensures Root(h, leaves, height) == Root(h, PairUp(h, leaves), height - 1)
  {
  }

  lemma PathUp(h: HashFn, leaves: seq<F>, height: nat, index: nat)
    requires |leaves| == Pow2(height) && index < |leaves| && height > 0
    ensures SiblingOf(index) < |leaves|
    ensures Path(h, leaves, height, index)[0] == leaves[SiblingOf(index)]
    ensures Path(h, leaves, height, index)[1..] == Path(h, PairUp(h, leaves), height - 1, index / 2)
  {
    hide PairUp;
    assert Pow2(height) == 2 * Pow2(height - 1);
  }

  lemma ClimbUp(h: HashFn, node: F, siblings: seq<F>, index: nat)
    requires siblings != []
    ensures Climb(h, node, siblings, index)
         == Climb(h, Parent(h, node, siblings[0], index), siblings[1..], index / 2)
  {
  }

  /** Every leaf's own path leads to the root. */
  lemma {:induction false} PathOpens(h: HashFn, leaves: seq<F>, height: nat, index: nat)
    requires |leaves| == Pow2(height) && index < |leaves|
    ensures Climb(h, leaves[index], Path(h, leaves, height, index), index) == Root(h, leaves, height)
    decreases height
  {
    hide Path, PairUp, Parent;
    if height == 0 {
    } else {
      HalfLevel(h, leaves, height);
      PairUpAt(h, leaves, index);
      PathOpens(h, PairUp(h, leaves), height - 1, index / 2);
      PathUp(h, leaves, height, index);
      RootUp(h, leaves, height);
      ClimbUp(h, leaves[index], Path(h, leaves, height, index), index);
    }
  }

  /** A longer path takes one more step, turned by the next digit of the index. */
  lemma {:induction false} ClimbSnoc(h: HashFn, node: F, siblings: seq<F>, last: F, index: nat)
    ensures Climb(h, node, siblings + [last], index)
         == Parent(h, Climb(h, node, siblings, index), last, Bit(index, |siblings|))
    decreases siblings
  {
    hide Parent, Pow2;
    DropDigits(index, 0);
    if siblings == [] {
      assert [] + [last] == [last];
      ClimbUp(h, node, [last], index);
      ParentByParity(h, node, last, index);
    } else {
      var all := siblings + [last];
      assert all[0] == siblings[0] && all[1..] == siblings[1..] + [last];
      DropDigits(index, |siblings| - 1);
      ClimbUp(h, node, all, index);
      ClimbUp(h, node, siblings, index);
      ClimbSnoc(h, Parent(h, node, siblings[0], index), siblings[1..], last, index / 2);
    }
  }

  lemma ParentByParity(h: HashFn, node: F, sibling: F, index: nat)
    ensures Parent(h, node, sibling, index % 2) == Parent(h, node, sibling, index)
  {
  }

  /** Compares an opening with the honest path, from the root down. */
  function ClimbClash(h: HashFn, leaves: seq<F>, height: nat, node: F, siblings: seq<F>, index: nat): (c: Clash)
    requires |leaves| == Pow2(height) && index < |leaves| && |siblings| == height
    ensures c.Genuine(h)
    decreases height
  {
    if height == 0 then NoClash
    else
      ClimbClash(h, PairUp(h, leaves), height - 1, Parent(h, node, siblings[0], index), siblings[1..], index / 2)
        .Else(Compare(h, Ordered(node, siblings[0], index), Ordered(leaves[index], leaves[SiblingOf(index)], index)))
  }

  /** An accepted opening shows the leaf at that index, unless it exhibits a collision. */
  lemma {:induction false} ClimbBinds(h: HashFn, leaves: seq<F>, height: nat, node: F, siblings: seq<F>, index: nat)
    requires |leaves| == Pow2(height) && index < |leaves| && |siblings| == height
    requires Climb(h, node, siblings, index) == Root(h, leaves, height)
    requires ClimbClash(h, leaves, height, node, siblings, index).NoClash?
    ensures node == leaves[index]
    decreases height
  {
    hide PairUp;
    if height == 0 {
    } else {
      HalfLevel(h, leaves, height);
      PairUpAt(h, leaves, index);
      RootUp(h, leaves, height);
      ClimbUp(h, node, siblings, index);
      ClimbBinds(h, PairUp(h, leaves), height - 1, Parent(h, node, siblings[0], index), siblings[1..], index / 2);
    }
  }

  /** Compares the children of the first `n` parents of two levels. */
  function LevelClash(h: HashFn, a: seq<F>, b: seq<F>, n: nat): (c: Clash)
    requires |a| == |b| && 2 * n <= |a|
    ensures c.Genuine(h)
    ensures c.NoClash? ==>
      forall i | 0 <= i < n && h(a[2 * i], a[2 * i + 1]) == h(b[2 * i], b[2 * i + 1]) ::
        a[2 * i] == b[2 * i] && a[2 * i + 1] == b[2 * i + 1]
  {
    if n == 0 then NoClash
    else
      LevelClash(h, a, b, n - 1)
        .Else(Compare(h, (a[2 * n - 2], a[2 * n - 1]), (b[2 * n - 2], b[2 * n - 1])))
  }

  /** Compares two whole trees of one height. */
  function RootClash(h: HashFn, a: seq<F>, b: seq<F>, height: nat): (c: Clash)
    requires |a| == Pow2(height) && |b| == Pow2(height)
    ensures c.Genuine(h)
    decreases height
  {
    if height == 0 then NoClash
    else RootClash(h, PairUp(h, a), PairUp(h, b), height - 1).Else(LevelClash(h, a, b, |a| / 2))
  }

  lemma {:induction false} LevelBinds(h: HashFn, a: seq<F>, b: seq<F>)
    requires |a| == |b| && |a| % 2 == 0 && PairUp(h, a) == PairUp(h, b)
    requires LevelClash(h, a, b, |a| / 2).NoClash?
    ensures a == b
  {
    forall k | 0 <= k < |a| ensures a[k] == b[k] {
      var i := k / 2;
      PairUpIs(h, a, i);
      PairUpIs(h, b, i);
      assert k == 2 * i || k == 2 * i + 1;
    }
  }

  /** Equal roots mean equal leaves, unless the trees exhibit a collision. */
  lemma {:induction false} RootBinds(h: HashFn, a: seq<F>, b: seq<F>, height: nat)
    requires |a| == Pow2(height) && |b| == Pow2(height)
    requires Root(h, a, height) == Root(h, b, height)
    requires RootClash(h, a, b, height).NoClash?
    ensures a == b
    decreases height
  {
    hide PairUp;
    if height == 0 {
    } else {
      HalfLevel(h, a, height);
      HalfLevel(h, b, height);
      RootUp(h, a, height);
      RootUp(h, b, height);
      RootBinds(h, PairUp(h, a), PairUp(h, b), height - 1);
      LevelBinds(h, a, b);
    }
  }

  lemma LevelShift(h: HashFn, leaves: seq<F>, height: nat, k: nat)
    requires 0 < height && k < height
    ensures Levels(h, leaves, height)[0] == leaves
    ensures Levels(h, leaves, height)[k + 1] == Levels(h, PairUp(h, leaves), height - 1)[k]
  {
  }

  lemma {:induction false} LevelAt(h: HashFn, leaves: seq<F>, height: nat, k: nat)
    requires |leaves| == Pow2(height) && k <= height
    ensures |Levels(h, leaves, height)[k]| == Pow2(height - k)
    ensures k < height ==> Levels(h, leaves, height)[k + 1] == PairUp(h, Levels(h, leaves, height)[k])
    ensures k == height ==> Levels(h, leaves, height)[k] == [Root(h, leaves, height)]
    decreases height
  {
    hide PairUp;
    if height == 0 {
    } else {
      var up := PairUp(h, leaves);
      HalfLevel(h, leaves, height);
      RootUp(h, leaves, height);
      LevelShift(h, leaves, height, 0);
      if k == 0 {
        LevelAt(h, up, height - 1, 0);
        LevelsStart(h, up, height - 1);
      } else {
        LevelAt(h, up, height - 1, k - 1);
        LevelShift(h, leaves, height, k - 1);
        if k < height {
          LevelShift(h, leaves, height, k);
        }
      }
    }
  }

  lemma LevelsStart(h: HashFn, leaves: seq<F>, height: nat)
    ensures Levels(h, leaves, height)[0] == leaves
  {
  }

  method Build(h: HashFn, sealedChunks: seq<(F, F)>, ghost height: nat) returns (tree: MerkleTree)
    requires |sealedChunks| == Pow2(height)
    ensures tree.leaves == LeafHashes(h, sealedChunks)
    ensures tree.nodes == Levels(h, tree.leaves, height)
    ensures tree.root == Root(h, tree.leaves, height)
  {
    hide PairUp, Levels, Root, LeafHashes;
    var leaves := LeafHashes(h, sealedChunks);
    ghost var levels := Levels(h, leaves, height);
    var nodes := [leaves];
    var currentLevel := leaves;
    ghost var k := 0;
    LevelsStart(h, leaves, height);
    LevelAt(h, leaves, height, 0);
    while |currentLevel| > 1
      invariant k <= height && nodes == levels[..k + 1]
      invariant currentLevel == levels[k] && |currentLevel| == Pow2(height - k)
      decreases height - k
    {
      LevelAt(h, leaves, height, k);
      assert k < height;
      LevelAt(h, leaves, height, k + 1);
      var nextLevel := PairUp(h, currentLevel);
      nodes := nodes + [nextLevel];
      currentLevel := nextLevel;
      k := k + 1;
    }
    LevelAt(h, leaves, height, k);
    assert k == height;
    assert levels[..k + 1] == levels;
    tree := MerkleTree(leaves, nodes, nodes[|nodes| - 1][0]);
  }

  lemma PathShift(h: HashFn, leaves: seq<F>, height: nat, index: nat, k: nat)
    requires |leaves| == Pow2(height) && index < |leaves| && k + 1 < height
    ensures Path(h, leaves, height, index)[k + 1] == Path(h, PairUp(h, leaves), height - 1, index / 2)[k]
  {
    hide Path, PairUp;
    PathUp(h, leaves, height, index);
    assert Path(h, leaves, height, index)[1..][k] == Path(h, leaves, height, index)[k + 1];
  }

  lemma {:induction false} PathStep(h: HashFn, leaves: seq<F>, height: nat, index: nat, k: nat)
    requires |leaves| == Pow2(height) && index < |leaves| && k < height
    ensures var level := Levels(h, leaves, height)[k];
      index / Pow2(k) < |level| && SiblingOf(index / Pow2(k)) < |level|
      && Path(h, leaves, height, index)[k] == level[SiblingOf(index / Pow2(k))]
    decreases height
  {
    hide *;
    var up := PairUp(h, leaves);
    HalfLevel(h, leaves, height);
    PairUpAt(h, leaves, index);
    LevelsStart(h, leaves, height);
    if k == 0 {
      DropDigits(index, 0);
      PathUp(h, leaves, height, index);
    } else {
      DropDigits(index, k - 1);
      LevelShift(h, leaves, height, k - 1);
      PathShift(h, leaves, height, index, k - 1);
      PathStep(h, up, height - 1, index / 2, k - 1);
    }
  }

  method GenerateProof(h: HashFn, tree: MerkleTree, index: nat, ghost height: nat) returns (proof: MerkleProof)
    requires |tree.leaves| == Pow2(height) && tree.nodes == Levels(h, tree.leaves, height)
    requires index < |tree.leaves|
    ensures proof == MerkleProof(index, Path(h, tree.leaves, height, index), IndexBits(index, height))
  {
    hide Path, Levels, PairUp, Pow2;
    DropDigits(index, 0);
    var siblings, pathIndices, idx := [], [], index;
    var n := |tree.nodes| - 1;
    for k := 0 to n
      invariant idx == index / Pow2(k)
      invariant siblings == Path(h, tree.leaves, height, index)[..k]
      invariant pathIndices == IndexBits(index, k)
    {
      PathStep(h, tree.leaves, height, index, k);
      var level := tree.nodes[k];
      var isRight := idx % 2 == 1;
      pathIndices := pathIndices + [isRight];
      siblings := siblings + [level[if isRight then idx - 1 else idx + 1]];
      DropDigits(index, k);
      idx := idx / 2;
    }
    assert Path(h, tree.leaves, height, index)[..n] == Path(h, tree.leaves, height, index);
    proof := MerkleProof(index, siblings, pathIndices);
  }

  /** The verifier accepts exactly the openings whose bits are the index and whose climb ends at the root. */
  method VerifyMerkleProof(h: HashFn, root: F, leafR: F, leafS: F, proof: MerkleProof) returns (ok: bool)
    ensures ok <==>
      && |proof.siblings| == |proof.pathIndices|
      && proof.pathIndices == IndexBits(proof.leafIndex, |proof.pathIndices|)
      && Climb(h, h(leafR, leafS), proof.siblings, proof.leafIndex) == root
  {
    if |proof.siblings| != |proof.pathIndices| {
      return false;
    }
    if IndexBits(proof.leafIndex, |proof.pathIndices|) != proof.pathIndices {
      return false;
    }
    var currentHash: F := h(leafR, leafS);
    ghost var idx := proof.leafIndex;
    for k := 0 to |proof.siblings|
      invariant idx == proof.leafIndex / Pow2(k)
      invariant Climb(h, h(leafR, leafS), proof.siblings, proof.leafIndex)
             == Climb(h, currentHash, proof.siblings[k..], idx)
    {
      var sibling, isRight := proof.siblings[k], proof.pathIndices[k];
      ClimbUp(h, currentHash, proof.siblings[k..], idx);
      assert proof.siblings[k..][1..] == proof.siblings[k + 1..];
      currentHash := if isRight then h(sibling, currentHash) else h(currentHash, sibling);
      DropDigits(proof.leafIndex, k);
      idx := idx / 2;
    }
    return currentHash == root;
  }
}
