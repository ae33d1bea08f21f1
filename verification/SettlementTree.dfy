/**
 Settlement leaves: the byte layout a leaf is hashed from, and what the tree over those leaves
 commits to.
 */
module SettlementTree {
  import opened Bytes
  import opened KeccakTree
  import opened Numbers
  import opened Verdicts
  import opened Wrappers

  /** "ENGRAM_LEAF_V1" */
  const LEAF_TAG: ByteString := [69, 78, 71, 82, 65, 77, 95, 76, 69, 65, 70, 95, 86, 49]

  function Pow256(w: nat): (r: nat)
    ensures r >= 1
  {
    if w == 0 then 1 else 256 * Pow256(w - 1)
  }

  function BeBytes(n: nat, w: nat): (b: ByteString)
    ensures |b| == w
  {
    if w == 0 then [] else BeBytes(n / 256, w - 1) + [n % 256]
  }

  /** Big-endian value of a byte string. */
  function BeValue(b: ByteString): nat { if b == [] then 0 else 256 * BeValue(b[..|b| - 1]) + b[|b| - 1] }

  lemma {:induction false} BeBytesRead(n: nat, w: nat)
    requires n < Pow256(w)
    ensures BeValue(BeBytes(n, w)) == n
    decreases w
  {
    if w == 0 {
    } else {
      DivMod(n, 256);
      BeBytesRead(n / 256, w - 1);
      assert BeBytes(n, w)[..w - 1] == BeBytes(n / 256, w - 1);
    }
  }

  datatype SettlementLeaf = SettlementLeaf(
    epoch: nat, providerId: ByteString, dealId: ByteString, verdict: Verdict,
    challengesTotal: nat, challengesPassed: nat, rewardWei: nat, slashWei: nat)
  {
    /** Outside these bounds the source raises instead of hashing. */
    predicate Encodable() {
      |providerId| == 20 && |dealId| == 32 && epoch < Pow256(8) && challengesTotal < Pow256(4)
      && challengesPassed < Pow256(4) && rewardWei < Pow256(32) && slashWei < Pow256(32)
    }

    function Body(): ByteString {
      BeBytes(epoch, 8) + (providerId + (dealId + ([verdict.Rank()] + (BeBytes(challengesTotal, 4)
      + (BeBytes(challengesPassed, 4) + (BeBytes(rewardWei, 32) + BeBytes(slashWei, 32)))))))
    }

    function LeafDigest(k: Sha): Option<Digest> {
      if Encodable() then Some(k(LEAF_TAG + Body())) else None
    }
  }

  /** The verdict a byte stands for. */
  function VerdictOf(b: Byte): Verdict { if b == 0 then NONE else if b == 1 then ABSENT else if b == 2 then FAIL else PASS }

  /** Reads a leaf off its body, field by field. */
  function FromBody(b: ByteString): SettlementLeaf
    requires |b| == 133
  {
    SettlementLeaf(BeValue(b[..8]), b[8..28], b[28..60], VerdictOf(b[60]), BeValue(b[61..65]), BeValue(b[65..69]), BeValue(b[69..101]), BeValue(b[101..]))
  }

  lemma BodyParts(x: SettlementLeaf)
    requires |x.providerId| == 20 && |x.dealId| == 32
    ensures var b := x.Body();
            |b| == 133 && b[..8] == BeBytes(x.epoch, 8) && b[8..28] == x.providerId && b[28..60] == x.dealId && b[60] == x.verdict.Rank()
            && b[61..65] == BeBytes(x.challengesTotal, 4) && b[65..69] == BeBytes(x.challengesPassed, 4)
            && b[69..101] == BeBytes(x.rewardWei, 32) && b[101..] == BeBytes(x.slashWei, 32)
  {
    hide BeBytes, Verdict.Rank;
  }

  /** The layout loses nothing: every leaf is read back from its 133 bytes. */
  lemma BodyRoundTrip(x: SettlementLeaf)
    requires x.Encodable()
    ensures |x.Body()| == 133 && FromBody(x.Body()) == x
  {
    hide BeBytes, BeValue, Pow256, SettlementLeaf.Body;
    BodyParts(x);
    BeBytesRead(x.epoch, 8);
    BeBytesRead(x.challengesTotal, 4);
    BeBytesRead(x.challengesPassed, 4);
    BeBytesRead(x.rewardWei, 32);
    BeBytesRead(x.slashWei, 32);
  }

  lemma BodyInjective(x: SettlementLeaf, y: SettlementLeaf)
    requires x.Encodable() && y.Encodable() && x.Body() == y.Body()
    ensures x == y
  {
    hide SettlementLeaf.Body, SettlementLeaf.Encodable;
    BodyRoundTrip(x);
    BodyRoundTrip(y);
  }

  // --- trees over tagged leaves ------------------------------------------------------

  datatype Tree = Leaf(body: ByteString) | Pruned(digest: Digest) | Join(left: Tree, right: Tree) {
    function Hash(k: Sha): Digest {
      match this
      case Leaf(b) => k(LEAF_TAG + b)
      case Pruned(d) => d
      case Join(l, r) => Node(k, l.Hash(k), r.Hash(k))
    }

    predicate Full() {
      match this
      case Leaf(_) => true
      case Pruned(_) => false
      case Join(l, r) => l.Full() && r.Full()
    }

    function Leaves(): seq<ByteString> {
      match this
      case Leaf(b) => [b]
      case Pruned(_) => []
      case Join(l, r) => l.Leaves() + r.Leaves()
    }
  }

  function Hashes(k: Sha, ts: seq<Tree>): (hs: seq<Digest>)
    ensures |hs| == |ts| && forall i :: 0 <= i < |ts| ==> hs[i] == ts[i].Hash(k)
  {
    if ts == [] then [] else [ts[0].Hash(k)] + Hashes(k, ts[1..])
  }

  function Leafs(bodies: seq<ByteString>): (ts: seq<Tree>)
    ensures |ts| == |bodies| && forall i :: 0 <= i < |ts| ==> ts[i] == Leaf(bodies[i])
  {
    if bodies == [] then [] else [Leaf(bodies[0])] + Leafs(bodies[1..])
  }

  function JoinUp(ts: seq<Tree>): (up: seq<Tree>)
    ensures |up| == (|ts| + 1) / 2
  {
    if ts == [] then []
    else if |ts| == 1 then [Join(ts[0], ts[0])]
    else [Join(ts[0], ts[1])] + JoinUp(ts[2..])
  }

  function Collapse(ts: seq<Tree>): Tree
    requires ts != []
    decreases |ts|
  {
    if |ts| == 1 then ts[0] else Collapse(JoinUp(ts))
  }

  function ListTree(bodies: seq<ByteString>): Tree
    requires bodies != []
  {
    Collapse(Leafs(bodies))
  }

  function AllLeaves(ts: seq<Tree>): seq<ByteString> {
    if ts == [] then [] else ts[0].Leaves() + AllLeaves(ts[1..])
  }

  lemma {:induction false} JoinUpHashes(k: Sha, ts: seq<Tree>)
    ensures Hashes(k, JoinUp(ts)) == Above(k, Hashes(k, ts))
    decreases |ts|
  {
    hide Node;
    if |ts| < 2 {
    } else {
      JoinUpHashes(k, ts[2..]);
      assert Hashes(k, ts)[2..] == Hashes(k, ts[2..]);
    }
  }

  lemma {:induction false} CollapseHash(k: Sha, ts: seq<Tree>)
    requires ts != []
    ensures Collapse(ts).Hash(k) == Root(k, Hashes(k, ts))
    decreases |ts|
  {
    hide Node, Above;
    if |ts| <= 1 {
    } else {
      JoinUpHashes(k, ts);
      CollapseHash(k, JoinUp(ts));
    }
  }

  lemma AllLeavesCons(t: Tree, rest: seq<Tree>)
    ensures AllLeaves([t] + rest) == t.Leaves() + AllLeaves(rest)
  {
    assert ([t] + rest)[1..] == rest;
  }

  lemma {:induction false} JoinUpLeaves(ts: seq<Tree>)
    requires forall t :: t in ts ==> t.Full()
    ensures forall t :: t in JoinUp(ts) ==> t.Full()
    ensures AllLeaves(ts) <= AllLeaves(JoinUp(ts))
    ensures forall b :: b in AllLeaves(JoinUp(ts)) ==> b in AllLeaves(ts)
    decreases |ts|
  {
    hide AllLeaves;
    if |ts| == 1 {
      assert ts == [ts[0]] + [] && JoinUp(ts) == [Join(ts[0], ts[0])] + [];
      AllLeavesCons(ts[0], []);
      AllLeavesCons(Join(ts[0], ts[0]), []);
      NoTreesNoLeaves();
    } else if |ts| >= 2 {
      JoinUpLeaves(ts[2..]);
      assert ts == [ts[0]] + ([ts[1]] + ts[2..]);
      AllLeavesCons(ts[0], [ts[1]] + ts[2..]);
      AllLeavesCons(ts[1], ts[2..]);
      AllLeavesCons(Join(ts[0], ts[1]), JoinUp(ts[2..]));
      var l, below, above := ts[0].Leaves() + ts[1].Leaves(), AllLeaves(ts[2..]), AllLeaves(JoinUp(ts[2..]));
      assert AllLeaves(ts) == l + below && AllLeaves(JoinUp(ts)) == l + above;
    }
  }

  lemma NoTreesNoLeaves()
    ensures AllLeaves([]) == []
  {
  }

  /** The tree of a list starts with the list's leaves and holds no others. */
  lemma {:induction false} CollapseLeaves(ts: seq<Tree>)
    requires ts != [] && forall t :: t in ts ==> t.Full()
    ensures Collapse(ts).Full() && AllLeaves(ts) <= Collapse(ts).Leaves()
    ensures forall b :: b in Collapse(ts).Leaves() ==> b in AllLeaves(ts)
    decreases |ts|
  {
    if |ts| == 1 {
      assert AllLeaves(ts[1..]) == [];
    } else {
      JoinUpLeaves(ts);
      CollapseLeaves(JoinUp(ts));
    }
  }

  lemma {:induction false} LeafsLeaves(bodies: seq<ByteString>)
    ensures AllLeaves(Leafs(bodies)) == bodies
  {
    if bodies == [] {
    } else {
      LeafsLeaves(bodies[1..]);
      assert Leafs(bodies)[1..] == Leafs(bodies[1..]);
    }
  }

  /** The root of the leaf digests is the hash of the list's tree. */
  lemma ListTreeHash(k: Sha, bodies: seq<ByteString>)
    requires bodies != []
    ensures ListTree(bodies).Hash(k) == Root(k, Hashes(k, Leafs(bodies)))
    ensures ListTree(bodies).Full() && bodies <= ListTree(bodies).Leaves()
    ensures forall b :: b in ListTree(bodies).Leaves() ==> b in bodies
  {
    hide Node, Root, Tree.Hash;
    CollapseHash(k, Leafs(bodies));
    LeafsLeaves(bodies);
    CollapseLeaves(Leafs(bodies));
  }

  // --- comparing trees -----------------------------------------------------------------

  function Preimage(k: Sha, t: Tree): (b: ByteString)
    requires !t.Pruned?
    ensures b != [] && (b[0] == 1 <==> t.Join?) && t.Hash(k) == k(b)
  {
    match t
    case Leaf(b) => LEAF_TAG + b
    case Join(l, r) => [1] + l.Hash(k) + r.Hash(k)
  }

  function TreeClash(k: Sha, p: Tree, t: Tree): (c: Clash)
    ensures c.Genuine(k)
    decreases p
  {
    if p.Pruned? || t.Pruned? then NoClash
    else if p.Leaf? || t.Leaf? then Compare(k, Preimage(k, p), Preimage(k, t))
    else
      Compare(k, Preimage(k, p), Preimage(k, t))
      .Else(TreeClash(k, p.left, t.left))
      .Else(TreeClash(k, p.right, t.right))
  }

  /** `p` is `t` with some subtrees known by their digest only. */
  predicate Fits(k: Sha, p: Tree, t: Tree)
    decreases p
  {
    match p
    case Leaf(_) => t == p
    case Pruned(d) => t.Hash(k) == d
    case Join(l, r) => t.Join? && Fits(k, l, t.left) && Fits(k, r, t.right)
  }

  lemma {:induction false} EqualHashFits(k: Sha, p: Tree, t: Tree)
    requires t.Full() && p.Hash(k) == t.Hash(k) && TreeClash(k, p, t).NoClash?
    ensures Fits(k, p, t)
    decreases p
  {
    hide Node, Compare;
    if p.Pruned? {
    } else {
      assert Compare(k, Preimage(k, p), Preimage(k, t)).NoClash?;
      assert Preimage(k, p) == Preimage(k, t);
      if p.Leaf? {
        SplitEqual(LEAF_TAG, p.body, LEAF_TAG, t.body);
      } else {
        SplitEqual([1] + p.left.Hash(k), p.right.Hash(k), [1] + t.left.Hash(k), t.right.Hash(k));
        SplitEqual([1], p.left.Hash(k), [1], t.left.Hash(k));
        EqualHashFits(k, p.left, t.left);
        EqualHashFits(k, p.right, t.right);
      }
    }
  }

  lemma {:induction false} FullFitsItself(k: Sha, p: Tree, t: Tree)
    requires p.Full() && Fits(k, p, t)
    ensures t == p
  {
    if !p.Join? {
    } else {
      FullFitsItself(k, p.left, t.left);
      FullFitsItself(k, p.right, t.right);
    }
  }

  // --- opening a leaf --------------------------------------------------------------------

  function PathTree(node: Tree, path: seq<Digest>, idx: nat): Tree
    decreases |path|
  {
    if path == [] then node
    else PathTree(if idx % 2 == 0 then Join(node, Pruned(path[0])) else Join(Pruned(path[0]), node), path[1..], idx / 2)
  }

  lemma {:induction false} PathTreeHash(k: Sha, node: Tree, path: seq<Digest>, idx: nat)
    ensures PathTree(node, path, idx).Hash(k) == Climb(k, node.Hash(k), path, idx)
    decreases |path|
  {
    hide Node;
    if path == [] {
    } else {
      PathTreeHash(k, if idx % 2 == 0 then Join(node, Pruned(path[0])) else Join(Pruned(path[0]), node), path[1..], idx / 2);
    }
  }

  lemma {:induction false} PathTreeFits(k: Sha, node: Tree, path: seq<Digest>, idx: nat, t: Tree) returns (sub: Tree)
    requires Fits(k, PathTree(node, path, idx), t)
    ensures Fits(k, node, sub) && forall b :: b in sub.Leaves() ==> b in t.Leaves()
    decreases |path|
  {
    hide Node, Tree.Hash;
    if path == [] {
      sub := t;
    } else {
      var above := if idx % 2 == 0 then Join(node, Pruned(path[0])) else Join(Pruned(path[0]), node);
      var outer := PathTreeFits(k, above, path[1..], idx / 2, t);
      sub := if idx % 2 == 0 then outer.left else outer.right;
    }
  }

  /**
   A leaf that verifies against the root of a list is one of the list's leaves, whatever the path's
   length and the claimed index, or two preimages of one digest turn up: an inner node cannot pass
   for a leaf.
   */
  lemma AcceptedLeafIsListed(k: Sha, bodies: seq<ByteString>, body: ByteString, path: seq<Digest>, idx: nat)
    requires bodies != []
    requires Climb(k, k(LEAF_TAG + body), path, idx) == Root(k, Hashes(k, Leafs(bodies)))
    requires TreeClash(k, PathTree(Leaf(body), path, idx), ListTree(bodies)).NoClash?
    ensures body in bodies
  {
    hide Node, Root, Climb, TreeClash, ListTree, PathTree;
    var p, t := PathTree(Leaf(body), path, idx), ListTree(bodies);
    PathTreeHash(k, Leaf(body), path, idx);
    ListTreeHash(k, bodies);
    EqualHashFits(k, p, t);
    var sub := PathTreeFits(k, Leaf(body), path, idx, t);
    assert body in sub.Leaves();
  }

  // --- binding the list --------------------------------------------------------------------

  /** Equal roots mean equal trees, up to a collision. */
  lemma EqualRootsEqualTrees(k: Sha, a: seq<ByteString>, b: seq<ByteString>)
    requires a != [] && b != [] && Root(k, Hashes(k, Leafs(a))) == Root(k, Hashes(k, Leafs(b)))
    requires TreeClash(k, ListTree(a), ListTree(b)).NoClash?
    ensures ListTree(a) == ListTree(b)
  {
    hide Node, Root, TreeClash, ListTree, Hashes, Leafs;
    ListTreeHash(k, a);
    ListTreeHash(k, b);
    EqualHashFits(k, ListTree(a), ListTree(b));
    FullFitsItself(k, ListTree(a), ListTree(b));
  }

  /** Lists of one root are equal exactly when they are of one length. */
  lemma {:induction false} RootAndCountBind(k: Sha, a: seq<ByteString>, b: seq<ByteString>)
    requires a != [] && b != [] && Root(k, Hashes(k, Leafs(a))) == Root(k, Hashes(k, Leafs(b)))
    requires TreeClash(k, ListTree(a), ListTree(b)).NoClash?
    ensures a == b <==> |a| == |b|
  {
    hide Node, Root, TreeClash, ListTree, Hashes, Leafs;
    EqualRootsEqualTrees(k, a, b);
    if |a| == |b| {
      ListIsPrefix(k, a);
      ListIsPrefix(k, b);
    }
  }

  /** The leaves of a list's tree start with the list. */
  lemma ListIsPrefix(k: Sha, bodies: seq<ByteString>)
    requires bodies != []
    ensures |bodies| <= |ListTree(bodies).Leaves()| && bodies == ListTree(bodies).Leaves()[..|bodies|]
  {
    hide ListTree;
    ListTreeHash(k, bodies);
  }

  /** Without the count the root does not fix the list: repeating the last of an odd number keeps it. */
  lemma {:induction false} CountMatters(k: Sha, bodies: seq<ByteString>)
    requires |bodies| % 2 == 1 && |bodies| > 1
    ensures Root(k, Hashes(k, Leafs(bodies + [bodies[|bodies| - 1]]))) == Root(k, Hashes(k, Leafs(bodies)))
  {
    hide Node, Root, Hashes, Leafs;
    var digests := Hashes(k, Leafs(bodies));
    assert Hashes(k, Leafs(bodies + [bodies[|bodies| - 1]])) == digests + [digests[|digests| - 1]];
    RepeatedLast(k, digests);
  }

  /** The same for settlement leaves as records: what a redeemer can present is what was settled. */
  lemma RedeemedLeafWasSettled(k: Sha, leaves: seq<SettlementLeaf>, bodies: seq<ByteString>,
                               leaf: SettlementLeaf, path: seq<Digest>, idx: nat)
    requires leaves != [] && |bodies| == |leaves|
    requires forall i :: 0 <= i < |leaves| ==> leaves[i].Encodable() && bodies[i] == leaves[i].Body()
    requires leaf.LeafDigest(k).Some? && Climb(k, leaf.LeafDigest(k).value, path, idx) == Root(k, Hashes(k, Leafs(bodies)))
    requires TreeClash(k, PathTree(Leaf(leaf.Body()), path, idx), ListTree(bodies)).NoClash?
    ensures leaf in leaves
  {
    hide Node, Root, Climb, TreeClash, ListTree, PathTree, SettlementLeaf.Body, SettlementLeaf.Encodable, Hashes;
    LeafDigestIs(k, leaf);
    AcceptedLeafIsListed(k, bodies, leaf.Body(), path, idx);
    var i :| 0 <= i < |bodies| && bodies[i] == leaf.Body();
    BodyInjective(leaves[i], leaf);
  }

  lemma LeafDigestIs(k: Sha, leaf: SettlementLeaf)
    requires leaf.LeafDigest(k).Some?
    ensures leaf.Encodable() && leaf.LeafDigest(k).value == k(LEAF_TAG + leaf.Body())
  {
  }
}
