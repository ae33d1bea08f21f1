/**
 Namespaced Merkle trees: hashing with the smallest and largest namespace of each subtree, range
 proofs by siblings, and the check that no share of a namespace was left out.
 */
module Nmt {
  import opened Bytes
  import opened Numbers
  import opened Wrappers

  const NS_SIZE: nat := 29

  type Namespace = s: ByteString | |s| == NS_SIZE witness seq(NS_SIZE, _ => 0)
  type ShareBytes = s: ByteString | |s| >= NS_SIZE witness seq(NS_SIZE, _ => 0)

  datatype NmtError =
    | BadHashLength(length: nat)
    | BadShareLength(length: nat)
    | NamespaceNotSorted
    | RootMismatch
    | IncompleteNamespaceRange
    | EmptyProof

  datatype Unit = Unit

  datatype NHash = NHash(minNs: Namespace, maxNs: Namespace, digest: Digest) {
    function ToBytes(): ByteString { minNs + maxNs + digest }

    predicate Meets(ns: Namespace) { LexLe(minNs, ns) && LexLe(ns, maxNs) }
  }

  function FromBytes(b: ByteString): Result<NHash, NmtError> {
    if |b| != 2 * NS_SIZE + 32 then Err(BadHashLength(|b|))
    else Ok(NHash(b[..NS_SIZE], b[NS_SIZE..2 * NS_SIZE], b[2 * NS_SIZE..]))
  }

  /**
   The two byte conversions are inverse to each other, and no other length is read: smallest namespace,
   largest namespace, digest.
   */
  lemma BytesRoundTrip(h: NHash, b: ByteString)
    ensures |h.ToBytes()| == 90 && h.ToBytes()[..29] == h.minNs && h.ToBytes()[29..58] == h.maxNs && h.ToBytes()[58..] == h.digest
    ensures FromBytes(h.ToBytes()) == Ok(h)
    ensures FromBytes(b).Ok? <==> |b| == 90
    ensures FromBytes(b).Ok? ==> FromBytes(b).value.ToBytes() == b
  {
    var s := h.ToBytes();
    assert s[..29] == h.minNs && s[29..58] == h.maxNs && s[58..] == h.digest;
    if |b| == 90 {
      assert b == b[..29] + b[29..58] + b[58..];
    }
  }

  function Ns(share: ShareBytes): Namespace { share[..NS_SIZE] }

  function LeafPreimage(share: ByteString): ByteString { [0] + share }

  function LeafHash(sha: Sha, share: ByteString): Result<NHash, NmtError> {
    if |share| < NS_SIZE then Err(BadShareLength(|share|))
    else Ok(NHash(Ns(share), Ns(share), sha(LeafPreimage(share))))
  }

  function InnerPreimage(l: NHash, r: NHash): ByteString { [1] + l.ToBytes() + r.ToBytes() }

  function InnerHash(sha: Sha, l: NHash, r: NHash): NHash {
    NHash(if LexLe(l.minNs, r.minNs) then l.minNs else r.minNs,
          if LexLe(r.maxNs, l.maxNs) then l.maxNs else r.maxNs,
          sha(InnerPreimage(l, r)))
  }

  /** A node hashes a one, the left child and then the right child; a leaf a zero and the share. */
  lemma PreimageLayout(l: NHash, r: NHash, share: ByteString)
    ensures var b := InnerPreimage(l, r);
            |b| == 181 && b[0] == 1 && FromBytes(b[1..91]) == Ok(l) && FromBytes(b[91..]) == Ok(r)
    ensures LeafPreimage(share)[0] == 0 && LeafPreimage(share)[1..] == share
  {
    hide NHash.ToBytes, FromBytes;
    BytesRoundTrip(l, []);
    BytesRoundTrip(r, []);
    var b := InnerPreimage(l, r);
    assert b[1..91] == l.ToBytes() && b[91..] == r.ToBytes();
  }

  lemma InnerPreimageInjective(a: NHash, b: NHash, c: NHash, d: NHash)
    requires InnerPreimage(a, b) == InnerPreimage(c, d)
    ensures a == c && b == d
  {
    hide LexLe;
    SplitEqual([1] + a.ToBytes(), b.ToBytes(), [1] + c.ToBytes(), d.ToBytes());
    SplitEqual([1], a.ToBytes(), [1], c.ToBytes());
    BytesRoundTrip(a, []);
    BytesRoundTrip(b, []);
    BytesRoundTrip(c, []);
    BytesRoundTrip(d, []);
  }

  // --- trees ---------------------------------------------------------------------

  /** A tree whose subtrees may be known by their hash alone; an honest tree has none of those. */
  datatype Tree = Share(data: ShareBytes) | Pruned(hash: NHash) | Join(left: Tree, right: Tree) {
    predicate Full() {
      match this
      case Share(_) => true
      case Pruned(_) => false
      case Join(l, r) => l.Full() && r.Full()
    }

    function Leaves(): seq<ShareBytes> {
      match this
      case Share(d) => [d]
      case Pruned(_) => []
      case Join(l, r) => l.Leaves() + r.Leaves()
    }

    function Hash(sha: Sha): NHash {
      match this
      case Share(d) => LeafHash(sha, d).value
      case Pruned(h) => h
      case Join(l, r) => InnerHash(sha, l.Hash(sha), r.Hash(sha))
    }
  }

  function Hashes(sha: Sha, ts: seq<Tree>): (hs: seq<NHash>)
    ensures |hs| == |ts| && forall i :: 0 <= i < |ts| ==> hs[i] == ts[i].Hash(sha)
  {
    if ts == [] then [] else [ts[0].Hash(sha)] + Hashes(sha, ts[1..])
  }

  function AllLeaves(ts: seq<Tree>): seq<ShareBytes> {
    if ts == [] then [] else ts[0].Leaves() + AllLeaves(ts[1..])
  }

  /** Adjacent nodes are joined in pairs; an odd last node is carried up. */
  function JoinLevel(ts: seq<Tree>): (up: seq<Tree>)
    ensures |up| == (|ts| + 1) / 2
  {
    if |ts| < 2 then ts else [Join(ts[0], ts[1])] + JoinLevel(ts[2..])
  }

  /** The tree over a run: its left part is as long as the largest power of two below the run's length. */
  function RunTree(ts: seq<Tree>): Tree
    requires ts != []
    decreases |ts|
  {
    if |ts| == 1 then ts[0]
    else
      var k := Split(|ts|);
      Join(RunTree(ts[..k]), RunTree(ts[k..]))
  }

  /** Joining is local: an even prefix is joined on its own. */
  lemma {:induction false} JoinLevelSplits(a: seq<Tree>, b: seq<Tree>)
    requires |a| % 2 == 0
    ensures JoinLevel(a + b) == JoinLevel(a) + JoinLevel(b)
    decreases |a|
  {
    if a == [] {
      assert a + b == b;
    } else {
      assert (a + b)[0] == a[0] && (a + b)[1] == a[1] && (a + b)[2..] == a[2..] + b;
      JoinLevelSplits(a[2..], b);
    }
  }

  lemma RunTreeStep(ts: seq<Tree>, a: seq<Tree>, b: seq<Tree>)
    requires ts == a + b && |ts| >= 2 && |a| == Split(|ts|)
    ensures b != [] && RunTree(ts) == Join(RunTree(a), RunTree(b))
  {
    assert ts[..|a|] == a && ts[|a|..] == b;
  }

  /** Joining one level, an odd last node carried up, leaves the tree over a run as it is. */
  lemma {:induction false} RunTreeOfJoinLevel(ts: seq<Tree>)
    requires ts != []
    ensures JoinLevel(ts) != [] && RunTree(JoinLevel(ts)) == RunTree(ts)
    decreases |ts|
  {
    hide Split, JoinLevel, RunTree;
    if |ts| == 1 {
      JoinLevelEnd(ts, 0);
      assert ts[0..] == ts && [ts[0]] == ts;
    } else if |ts| == 2 {
      OnePair(ts);
    } else {
      var k := Split(|ts|);
      var a, b := ts[..k], ts[k..];
      assert ts == a + b;
      SplitHalves(|ts|);
      JoinLevelSplits(a, b);
      RunTreeStep(ts, a, b);
      RunTreeStep(JoinLevel(ts), JoinLevel(a), JoinLevel(b));
      RunTreeOfJoinLevel(a);
      RunTreeOfJoinLevel(b);
    }
  }

  lemma OnePair(ts: seq<Tree>)
    requires |ts| == 2
    ensures JoinLevel(ts) == [Join(ts[0], ts[1])] && RunTree(ts) == Join(ts[0], ts[1]) && RunTree(JoinLevel(ts)) == RunTree(ts)
  {
  }

  /** Every leaf lies `h` levels down. */
  predicate Perfect(t: Tree, h: nat) {
    if h == 0 then t.Share? else t.Join? && Perfect(t.left, h - 1) && Perfect(t.right, h - 1)
  }

  /** Of 2^h shares the tree is perfect; of more, up to twice as many, its left half is. */
  lemma {:induction false} RunShape(ts: seq<Tree>, h: nat)
    requires (forall t :: t in ts ==> t.Share?) && Pow2(h) <= |ts| <= 2 * Pow2(h)
    ensures |ts| == Pow2(h) ==> Perfect(RunTree(ts), h)
    ensures |ts| > Pow2(h) ==>
              RunTree(ts).Join? && Perfect(RunTree(ts).left, h)
              && RunTree(ts).left == RunTree(ts[..Pow2(h)]) && RunTree(ts).right == RunTree(ts[Pow2(h)..])
    decreases |ts|, h
  {
    hide Split, RunTree, Pow2;
    PowStep(h);
    if |ts| > Pow2(h) {
      SplitIs(|ts|, h);
      RunTreeStep(ts, ts[..Pow2(h)], ts[Pow2(h)..]);
      RunShape(ts[..Pow2(h)], h);
    } else if h > 0 {
      PowStep(h - 1);
      SplitIs(|ts|, h - 1);
      var a, b := ts[..Pow2(h - 1)], ts[Pow2(h - 1)..];
      RunTreeStep(ts, a, b);
      RunShape(a, h - 1);
      RunShape(b, h - 1);
    } else {
      OneTree(ts);
    }
  }

  lemma OneTree(ts: seq<Tree>)
    requires |ts| == 1
    ensures RunTree(ts) == ts[0]
  {
  }

  /** A sibling goes on the left when its namespaces do not exceed those of the node. */
  function Beside(sha: Sha, t: Tree, sibling: NHash): Tree {
    if LexLe(sibling.maxNs, t.Hash(sha).minNs) then Join(Pruned(sibling), t) else Join(t, Pruned(sibling))
  }

  function Attach(sha: Sha, t: Tree, siblings: seq<NHash>): Tree
    decreases |siblings|
  {
    if siblings == [] then t else Attach(sha, Beside(sha, t, siblings[0]), siblings[1..])
  }

  function Shares(shares: seq<ShareBytes>): (ts: seq<Tree>)
    ensures |ts| == |shares|
  {
    if shares == [] then [] else [Share(shares[0])] + Shares(shares[1..])
  }

  function ProofTree(sha: Sha, shares: seq<ShareBytes>, siblings: seq<NHash>): Tree
    requires shares != []
  {
    Attach(sha, RunTree(Shares(shares)), siblings)
  }

  // --- the verifier --------------------------------------------------------------

  predicate Sized(shares: seq<ByteString>) { forall s :: s in shares ==> |s| >= NS_SIZE }

  /** The first fault of the shares in order: too short, or a namespace below the one before. */
  function CheckShares(shares: seq<ByteString>): Result<Unit, NmtError>
  {
    if shares == [] then Ok(Unit)
    else
      var n := |shares| - 1;
      var before := CheckShares(shares[..n]);
      if before.Err? then before
      else if |shares[n]| < NS_SIZE then Err(BadShareLength(|shares[n]|))
      else if n > 0 && |shares[n - 1]| >= NS_SIZE && !LexLe(Ns(shares[n - 1]), Ns(shares[n])) then Err(NamespaceNotSorted)
      else Ok(Unit)
  }

  /** Exactly the sized lists in namespace order pass. */
  lemma {:induction false} CheckSharesMeans(shares: seq<ByteString>)
    ensures CheckShares(shares).Ok? <==>
              Sized(shares) && forall i :: 0 < i < |shares| ==> LexLe(Ns(shares[i - 1]), Ns(shares[i]))
    decreases |shares|
  {
    hide LexLe;
    if shares == [] {
    } else {
      var n := |shares| - 1;
      CheckSharesMeans(shares[..n]);
      assert shares == shares[..n] + [shares[n]];
    }
  }

  function InclusionResult(sha: Sha, shares: seq<ByteString>, siblings: seq<NHash>, root: NHash): Result<Unit, NmtError> {
    if shares == [] then Err(EmptyProof)
    else if CheckShares(shares).Err? then CheckShares(shares)
    else
      CheckSharesMeans(shares);
      if ProofTree(sha, shares, siblings).Hash(sha) == root then Ok(Unit) else Err(RootMismatch)
  }

  function NamespaceResult(sha: Sha, ns: Namespace, shares: seq<ByteString>, siblings: seq<NHash>, root: NHash): Result<Unit, NmtError> {
    var inclusion := InclusionResult(sha, shares, siblings, root);
    if inclusion.Err? then inclusion
    else if exists s :: s in siblings && s.Meets(ns) then Err(IncompleteNamespaceRange)
    else Ok(Unit)
  }

  lemma HashesAppend(sha: Sha, ts: seq<Tree>, t: Tree)
    ensures Hashes(sha, ts + [t]) == Hashes(sha, ts) + [t.Hash(sha)]
  {
    hide InnerHash, LexLe, Tree.Hash;
  }

  lemma NoHashes(sha: Sha)
    ensures Hashes(sha, []) == []
  {
  }

  lemma HashesOfJoin(sha: Sha, ts: seq<Tree>, i: nat)
    requires i + 1 < |ts|
    ensures InnerHash(sha, Hashes(sha, ts)[i], Hashes(sha, ts)[i + 1]) == Join(ts[i], ts[i + 1]).Hash(sha)
  {
    hide InnerHash, LexLe;
  }

  lemma JoinLevelStep(ts: seq<Tree>, i: nat)
    requires i + 1 < |ts|
    ensures JoinLevel(ts[i..]) == [Join(ts[i], ts[i + 1])] + JoinLevel(ts[i + 2..])
  {
    assert ts[i..][2..] == ts[i + 2..];
  }

  lemma JoinLevelEnd(ts: seq<Tree>, i: nat)
    requires i <= |ts| <= i + 1
    ensures JoinLevel(ts[i..]) == if i < |ts| then [ts[i]] else []
  {
  }

  method NextLevel(sha: Sha, nodes: seq<NHash>, ghost trees: seq<Tree>) returns (next: seq<NHash>)
    requires nodes == Hashes(sha, trees)
    ensures next == Hashes(sha, JoinLevel(trees))
  {
    hide InnerHash, LexLe, Tree.Hash, JoinLevel, Hashes;
    NoHashes(sha);
    next := [];
    var i := 0;
    ghost var done: seq<Tree> := [];
    assert trees[0..] == trees && done + JoinLevel(trees) == JoinLevel(trees);
    while i + 1 < |nodes|
      invariant i <= |nodes| && next == Hashes(sha, done)
      invariant JoinLevel(trees) == done + JoinLevel(trees[i..])
    {
      JoinLevelStep(trees, i);
      assert done + ([Join(trees[i], trees[i + 1])] + JoinLevel(trees[i + 2..]))
          == done + [Join(trees[i], trees[i + 1])] + JoinLevel(trees[i + 2..]);
      HashesOfJoin(sha, trees, i);
      HashesAppend(sha, done, Join(trees[i], trees[i + 1]));
      next := next + [InnerHash(sha, nodes[i], nodes[i + 1])];
      done := done + [Join(trees[i], trees[i + 1])];
      i := i + 2;
    }
    JoinLevelEnd(trees, i);
    if i < |nodes| {
      HashesAppend(sha, done, trees[i]);
      next := next + [nodes[i]];
    } else {
      assert done + [] == done;
    }
  }

  lemma BesideHash(sha: Sha, t: Tree, s: NHash)
    ensures Beside(sha, t, s).Hash(sha) ==
              if LexLe(s.maxNs, t.Hash(sha).minNs) then InnerHash(sha, s, t.Hash(sha)) else InnerHash(sha, t.Hash(sha), s)
  {
    hide InnerHash, LexLe;
  }

  /** Levels are hashed up to one node, then the siblings are taken in turn. */
  method FoldWithSiblings(sha: Sha, input: seq<NHash>, siblings: seq<NHash>, ghost trees: seq<Tree>) returns (root: NHash)
    requires input != [] && input == Hashes(sha, trees)
    ensures root == Attach(sha, RunTree(trees), siblings).Hash(sha)
  {
    hide InnerHash, LexLe, Tree.Hash, Beside, JoinLevel;
    var nodes := input;
    var si := 0;
    ghost var cur := trees;
    assert siblings[0..] == siblings;
    while |nodes| > 1 || si < |siblings|
      invariant nodes != [] && si <= |siblings| && nodes == Hashes(sha, cur)
      invariant Attach(sha, RunTree(cur), siblings[si..]) == Attach(sha, RunTree(trees), siblings)
      decreases |nodes| + |siblings| - si
    {
      if |nodes| == 1 && si < |siblings| {
        var sib := siblings[si];
        assert siblings[si..][1..] == siblings[si + 1..];
        BesideHash(sha, cur[0], sib);
        HashesAppend(sha, [], Beside(sha, cur[0], sib));
        assert [] + [Beside(sha, cur[0], sib)] == [Beside(sha, cur[0], sib)];
        cur := [Beside(sha, cur[0], sib)];
        nodes := [if LexLe(sib.maxNs, nodes[0].minNs) then InnerHash(sha, sib, nodes[0]) else InnerHash(sha, nodes[0], sib)];
        si := si + 1;
      } else {
        RunTreeOfJoinLevel(cur);
        nodes := NextLevel(sha, nodes, cur);
        cur := JoinLevel(cur);
      }
    }
    assert siblings[si..] == [];
    return nodes[0];
  }

  /** Hashes the shares in order, stopping at the first fault. */
  method HashShares(sha: Sha, shares: seq<ByteString>) returns (r: Result<seq<NHash>, NmtError>)
    ensures r.Err? ==> CheckShares(shares) == Err(r.error)
    ensures r.Ok? ==> CheckShares(shares).Ok? && Sized(shares) && r.value == Hashes(sha, Shares(shares))
  {
    hide LexLe, Tree.Hash, Hashes, Shares, CheckShares;
    assert CheckShares([]).Ok? by { CheckSharesMeans([]); }
    var leaves: seq<NHash> := [];
    var prev: Namespace := seq(NS_SIZE, _ => 0);
    NoShares(sha);
    for i := 0 to |shares|
      invariant CheckShares(shares[..i]).Ok? && Sized(shares[..i])
      invariant i > 0 ==> |shares[i - 1]| >= NS_SIZE && prev == Ns(shares[i - 1])
      invariant leaves == Hashes(sha, Shares(shares[..i]))
    {
      assert shares[..i + 1][..i] == shares[..i] && shares[..i + 1] == shares[..i] + [shares[i]];
      CheckPrefix(shares, i + 1);
      CheckStep(shares[..i], shares[i]);
      assert i > 0 ==> shares[..i][i - 1] == shares[i - 1];
      var lh := LeafHash(sha, shares[i]);
      if lh.Err? {
        return Err(lh.error);
      }
      if i > 0 && !LexLe(prev, lh.value.minNs) {
        return Err(NamespaceNotSorted);
      }
      prev := lh.value.maxNs;
      HashesOfAppend(sha, shares[..i], shares[i]);
      leaves := leaves + [lh.value];
    }
    assert shares[..|shares|] == shares;
    return Ok(leaves);
  }

  lemma {:induction false} CheckStep(shares: seq<ByteString>, s: ByteString)
    requires CheckShares(shares).Ok? && Sized(shares)
    ensures CheckShares(shares + [s]) ==
              if |s| < NS_SIZE then Err(BadShareLength(|s|))
              else if shares != [] && !LexLe(Ns(shares[|shares| - 1]), Ns(s)) then Err(NamespaceNotSorted)
              else Ok(Unit)
  {
    hide LexLe;
    var all := shares + [s];
    assert all[..|shares|] == shares && all[|shares|] == s;
    assert shares != [] ==> all[|shares| - 1] == shares[|shares| - 1] && shares[|shares| - 1] in shares;
  }

  lemma NoShares(sha: Sha)
    ensures Hashes(sha, Shares([])) == []
  {
  }

  lemma HashesOfAppend(sha: Sha, shares: seq<ShareBytes>, s: ShareBytes)
    ensures Hashes(sha, Shares(shares + [s])) == Hashes(sha, Shares(shares)) + [LeafHash(sha, s).value]
  {
    SharesAppend(shares, s);
    HashesAppend(sha, Shares(shares), Share(s));
  }

  method VerifyInclusion(sha: Sha, shares: seq<ByteString>, siblings: seq<NHash>, root: NHash) returns (r: Result<Unit, NmtError>)
    ensures r == InclusionResult(sha, shares, siblings, root)
  {
    hide LexLe, Tree.Hash, Hashes, CheckShares;
    if shares == [] {
      return Err(EmptyProof);
    }
    var leaves := HashShares(sha, shares);
    if leaves.Err? {
      return Err(leaves.error);
    }
    var found := FoldWithSiblings(sha, leaves.value, siblings, Shares(shares));
    if found != root {
      return Err(RootMismatch);
    }
    return Ok(Unit);
  }

  lemma {:induction false} SharesAppend(shares: seq<ShareBytes>, s: ShareBytes)
    ensures Shares(shares + [s]) == Shares(shares) + [Share(s)]
  {
    if shares == [] {
    } else {
      SharesAppend(shares[1..], s);
      assert (shares + [s])[1..] == shares[1..] + [s];
    }
  }

  /** A fault in a prefix is the fault of the whole list. */
  lemma {:induction false} CheckPrefix(shares: seq<ByteString>, n: nat)
    requires n <= |shares|
    ensures CheckShares(shares[..n]).Err? ==> CheckShares(shares) == CheckShares(shares[..n])
    decreases |shares|
  {
    hide LexLe;
    if n < |shares| {
      CheckPrefix(shares[..|shares| - 1], n);
      assert shares[..|shares| - 1][..n] == shares[..n];
    } else {
      assert shares[..n] == shares;
    }
  }

  /** Refuses when a sibling's namespaces meet the wanted one. */
  method VerifyCompleteness(ns: Namespace, siblings: seq<NHash>) returns (r: Result<Unit, NmtError>)
    ensures r == if exists s :: s in siblings && s.Meets(ns) then Err(IncompleteNamespaceRange) else Ok(Unit)
  {
    hide LexLe;
    for i := 0 to |siblings|
      invariant forall j :: 0 <= j < i ==> !siblings[j].Meets(ns)
    {
      if siblings[i].Meets(ns) {
        return Err(IncompleteNamespaceRange);
      }
    }
    return Ok(Unit);
  }

  method VerifyNamespaceComplete(sha: Sha, ns: Namespace, shares: seq<ByteString>, siblings: seq<NHash>, root: NHash) returns (r: Result<Unit, NmtError>)
    ensures r == NamespaceResult(sha, ns, shares, siblings, root)
  {
    r := VerifyInclusion(sha, shares, siblings, root);
    if r.Ok? {
      r := VerifyCompleteness(ns, siblings);
    }
  }

  // --- what acceptance means -----------------------------------------------------

  /** A proof tree fits an honest one: same shape, same shares, and every pruned part hashes right. */
  predicate Fits(sha: Sha, p: Tree, t: Tree)
    decreases p
  {
    match p
    case Share(_) => t == p
    case Pruned(h) => t.Hash(sha) == h
    case Join(l, r) => t.Join? && Fits(sha, l, t.left) && Fits(sha, r, t.right)
  }

  /** Compares the preimages of two trees from the top down; pruned parts are not opened. */
  function TreeClash(sha: Sha, p: Tree, t: Tree): (c: Clash)
    ensures c.Genuine(sha)
    decreases p
  {
    if p.Pruned? || t.Pruned? then NoClash
    else if p.Share? || t.Share? then Compare(sha, Preimage(sha, p), Preimage(sha, t))
    else
      Compare(sha, Preimage(sha, p), Preimage(sha, t))
      .Else(TreeClash(sha, p.left, t.left))
      .Else(TreeClash(sha, p.right, t.right))
  }

  function Preimage(sha: Sha, t: Tree): (b: ByteString)
    requires !t.Pruned?
    ensures b != [] && (b[0] == 0 <==> t.Share?) && t.Hash(sha).digest == sha(b)
  {
    match t
    case Share(d) => LeafPreimage(d)
    case Join(l, r) => InnerPreimage(l.Hash(sha), r.Hash(sha))
  }

  lemma {:induction false} EqualHashFits(sha: Sha, p: Tree, t: Tree)
    requires t.Full() && p.Hash(sha) == t.Hash(sha) && TreeClash(sha, p, t).NoClash?
    ensures Fits(sha, p, t)
    decreases p
  {
    hide InnerHash, InnerPreimage, LexLe, Compare;
    if p.Pruned? {
    } else {
      assert Compare(sha, Preimage(sha, p), Preimage(sha, t)).NoClash?;
      assert Preimage(sha, p) == Preimage(sha, t);
      if p.Share? {
        assert p.data == Preimage(sha, p)[1..] && t.data == Preimage(sha, t)[1..];
      } else {
        InnerPreimageInjective(p.left.Hash(sha), p.right.Hash(sha), t.left.Hash(sha), t.right.Hash(sha));
        EqualHashFits(sha, p.left, t.left);
        EqualHashFits(sha, p.right, t.right);
      }
    }
  }

  lemma {:induction false} FullFitsItself(sha: Sha, p: Tree, t: Tree)
    requires p.Full() && Fits(sha, p, t)
    ensures t == p
  {
    if !p.Join? {
    } else {
      FullFitsItself(sha, p.left, t.left);
      FullFitsItself(sha, p.right, t.right);
    }
  }

  /** An honest hash's namespaces bound every leaf below it. */
  lemma {:induction false} HashBounds(sha: Sha, t: Tree, s: ShareBytes)
    requires t.Full() && s in t.Leaves()
    ensures t.Hash(sha).Meets(Ns(s))
  {
    hide LexLe, InnerPreimage, LeafPreimage;
    match t
    case Share(_) => LexReflexive(Ns(s));
    case Join(l, r) =>
      var lh, rh := l.Hash(sha), r.Hash(sha);
      LexTotal(lh.minNs, rh.minNs);
      LexTotal(lh.maxNs, rh.maxNs);
      if s in l.Leaves() {
        HashBounds(sha, l, s);
        Widen(sha, lh, rh, Ns(s));
      } else {
        HashBounds(sha, r, s);
        Widen(sha, lh, rh, Ns(s));
      }
  }

  lemma Widen(sha: Sha, l: NHash, r: NHash, ns: Namespace)
    requires l.Meets(ns) || r.Meets(ns)
    ensures InnerHash(sha, l, r).Meets(ns)
  {
    hide LexLe, InnerPreimage;
    var h := InnerHash(sha, l, r);
    LexTotal(l.minNs, r.minNs);
    LexTotal(l.maxNs, r.maxNs);
    LexReflexive(h.minNs);
    LexReflexive(h.maxNs);
    if l.Meets(ns) {
      LexTransitive(h.minNs, l.minNs, ns);
      LexTransitive(ns, l.maxNs, h.maxNs);
    } else {
      LexTransitive(h.minNs, r.minNs, ns);
      LexTransitive(ns, r.maxNs, h.maxNs);
    }
  }

  predicate NoneOf(leaves: seq<ShareBytes>, ns: Namespace) { forall s :: s in leaves ==> Ns(s) != ns }

  predicate NoneMeet(siblings: seq<NHash>, ns: Namespace) { forall s :: s in siblings ==> !s.Meets(ns) }

  /** One level of an honest path: the neighbouring tree and its side. */
  datatype Step = Step(tree: Tree, onLeft: bool)

  function Grow(node: Tree, step: Step): Tree {
    if step.onLeft then Join(step.tree, node) else Join(node, step.tree)
  }

  /** The honest tree that has `node` at the bottom of the path. */
  function Plug(node: Tree, steps: seq<Step>): Tree
    decreases |steps|
  {
    if steps == [] then node else Plug(Grow(node, steps[0]), steps[1..])
  }

  function SiblingHashes(sha: Sha, steps: seq<Step>): (hs: seq<NHash>)
    ensures |hs| == |steps| && forall i :: 0 <= i < |steps| ==> hs[i] == steps[i].tree.Hash(sha)
  {
    if steps == [] then [] else [steps[0].tree.Hash(sha)] + SiblingHashes(sha, steps[1..])
  }

  predicate StepsFull(steps: seq<Step>) { forall s :: s in steps ==> s.tree.Full() }

  /** Whatever the siblings are, a proof that fits a tree follows one path up from one node of it. */
  lemma {:induction false} AttachIsPath(sha: Sha, c: Tree, siblings: seq<NHash>, t: Tree)
    returns (sub: Tree, steps: seq<Step>)
    requires t.Full() && Fits(sha, Attach(sha, c, siblings), t)
    ensures sub.Full() && Fits(sha, c, sub)
    ensures t == Plug(sub, steps) && StepsFull(steps) && SiblingHashes(sha, steps) == siblings
    decreases |siblings|
  {
    hide InnerHash, LexLe;
    if siblings == [] {
      sub, steps := t, [];
    } else {
      var outer, rest := AttachIsPath(sha, Beside(sha, c, siblings[0]), siblings[1..], t);
      var onLeft := LexLe(siblings[0].maxNs, c.Hash(sha).minNs);
      var step := Step(if onLeft then outer.left else outer.right, onLeft);
      sub := if onLeft then outer.right else outer.left;
      steps := [step] + rest;
      assert steps[0] == step && steps[1..] == rest && Grow(sub, step) == outer;
    }
  }

  /** Around the node lie the leaves of its neighbours, and none of them has a namespace they do not meet. */
  lemma {:induction false} PlugLeaves(sha: Sha, ns: Namespace, node: Tree, steps: seq<Step>)
    returns (pre: seq<ShareBytes>, post: seq<ShareBytes>)
    requires StepsFull(steps) && NoneMeet(SiblingHashes(sha, steps), ns)
    ensures Plug(node, steps).Leaves() == pre + node.Leaves() + post && NoneOf(pre, ns) && NoneOf(post, ns)
    decreases |steps|
  {
    hide InnerHash, LexLe, Tree.Hash, Tree.Leaves, NoneOf, NHash.Meets;
    NoneOfNothing(ns);
    if steps == [] {
      pre, post := [], [];
    } else {
      FirstStep(sha, ns, steps);
      var beside := steps[0].tree.Leaves();
      pre, post := PlugLeaves(sha, ns, Grow(node, steps[0]), steps[1..]);
      GrowLeaves(node, steps[0]);
      if steps[0].onLeft {
        Regroup(pre, beside, node.Leaves(), post);
        NoneOfBoth(pre, beside, ns);
        pre := pre + beside;
      } else {
        Regroup(pre, node.Leaves(), beside, post);
        NoneOfBoth(beside, post, ns);
        post := beside + post;
      }
    }
  }

  lemma Regroup(a: seq<ShareBytes>, b: seq<ShareBytes>, c: seq<ShareBytes>, d: seq<ShareBytes>)
    ensures a + (b + c) + d == (a + b) + c + d && a + (b + c) + d == a + b + (c + d)
  {
  }

  lemma GrowLeaves(node: Tree, step: Step)
    ensures Grow(node, step).Leaves()
            == if step.onLeft then step.tree.Leaves() + node.Leaves() else node.Leaves() + step.tree.Leaves()
  {
  }

  lemma FirstStep(sha: Sha, ns: Namespace, steps: seq<Step>)
    requires steps != [] && StepsFull(steps) && NoneMeet(SiblingHashes(sha, steps), ns)
    ensures NoneOf(steps[0].tree.Leaves(), ns)
    ensures StepsFull(steps[1..]) && NoneMeet(SiblingHashes(sha, steps[1..]), ns)
  {
    hide InnerHash, LexLe, Tree.Hash, Tree.Leaves, NHash.Meets;
    assert SiblingHashes(sha, steps) == [steps[0].tree.Hash(sha)] + SiblingHashes(sha, steps[1..]);
    assert steps[0] in steps && SiblingHashes(sha, steps)[0] in SiblingHashes(sha, steps);
    forall s | s in steps[0].tree.Leaves() ensures Ns(s) != ns {
      HashBounds(sha, steps[0].tree, s);
    }
  }

  lemma NoneOfNothing(ns: Namespace)
    ensures NoneOf([], ns)
  {
  }

  lemma NoneOfBoth(a: seq<ShareBytes>, b: seq<ShareBytes>, ns: Namespace)
    requires NoneOf(a, ns) && NoneOf(b, ns)
    ensures NoneOf(a + b, ns)
  {
  }

  lemma {:induction false} AllLeavesSplit(a: seq<Tree>, b: seq<Tree>)
    ensures AllLeaves(a + b) == AllLeaves(a) + AllLeaves(b)
  {
    hide Tree.Leaves;
    if a == [] {
      assert a + b == b;
    } else {
      assert (a + b)[0] == a[0] && (a + b)[1..] == a[1..] + b;
      AllLeavesSplit(a[1..], b);
      var first, inA, inB := a[0].Leaves(), AllLeaves(a[1..]), AllLeaves(b);
      assert first + (inA + inB) == first + inA + inB;
    }
  }

  lemma {:induction false} RunTreeLeaves(ts: seq<Tree>)
    requires ts != [] && forall t :: t in ts ==> t.Full()
    ensures RunTree(ts).Full() && RunTree(ts).Leaves() == AllLeaves(ts)
    decreases |ts|
  {
    hide Split;
    if |ts| == 1 {
      assert AllLeaves(ts[1..]) == [];
    } else {
      var k := Split(|ts|);
      assert ts == ts[..k] + ts[k..];
      RunTreeLeaves(ts[..k]);
      RunTreeLeaves(ts[k..]);
      AllLeavesSplit(ts[..k], ts[k..]);
    }
  }

  lemma {:induction false} SharesLeaves(shares: seq<ShareBytes>)
    ensures AllLeaves(Shares(shares)) == shares
    ensures forall t :: t in Shares(shares) ==> t.Full()
  {
    if shares == [] {
    } else {
      SharesLeaves(shares[1..]);
    }
  }

  /** Accepted shares are the leaves of one node of the tree, shaped as the verifier shapes them. */
  lemma AcceptedIsANode(sha: Sha, shares: seq<ByteString>, siblings: seq<NHash>, t: Tree)
    returns (steps: seq<Step>)
    requires t.Full() && InclusionResult(sha, shares, siblings, t.Hash(sha)).Ok?
    requires TreeClash(sha, Evidence(sha, shares, siblings), t).NoClash?
    ensures shares != [] && Sized(shares)
    ensures t == Plug(RunTree(Shares(shares)), steps) && StepsFull(steps) && SiblingHashes(sha, steps) == siblings
  {
    hide LexLe, Fits, TreeClash, CheckShares, Tree.Hash, InnerHash, Plug;
    CheckSharesMeans(shares);
    EqualHashFits(sha, ProofTree(sha, shares, siblings), t);
    var c := RunTree(Shares(shares));
    var sub;
    sub, steps := AttachIsPath(sha, c, siblings, t);
    SharesLeaves(shares);
    RunTreeLeaves(Shares(shares));
    FullFitsItself(sha, c, sub);
  }

  /**
   Namespace completeness: against the root of any honest tree, acceptance means that the shares are
   the leaves of one node, hence a contiguous run of the tree's leaves, and that no leaf outside the
   run has the namespace, unless two different preimages with one digest turn up.
   */
  lemma NamespaceComplete(sha: Sha, ns: Namespace, shares: seq<ByteString>, siblings: seq<NHash>, t: Tree)
    returns (steps: seq<Step>, pre: seq<ShareBytes>, post: seq<ShareBytes>)
    requires t.Full() && NamespaceResult(sha, ns, shares, siblings, t.Hash(sha)).Ok?
    requires TreeClash(sha, Evidence(sha, shares, siblings), t).NoClash?
    ensures shares != [] && Sized(shares) && t == Plug(RunTree(Shares(shares)), steps)
    ensures t.Leaves() == pre + shares + post
    ensures NoneOf(pre, ns) && NoneOf(post, ns)
    ensures WithNamespace(t.Leaves(), ns) == WithNamespace(shares, ns)
  {
    hide LexLe, Fits, TreeClash, InclusionResult, Tree.Hash, Tree.Leaves, InnerHash, WithNamespace, NoneOf, Plug;
    steps := AcceptedIsANode(sha, shares, siblings, t);
    pre, post := PlugLeaves(sha, ns, RunTree(Shares(shares)), steps);
    SharesLeaves(shares);
    RunTreeLeaves(Shares(shares));
    OnlyRunHasNamespace(pre, shares, post, ns);
  }

  /** A perfect tree is the tree the verifier builds over its leaves, and there are 2^h of them. */
  lemma {:induction false} PerfectIsRunTree(t: Tree, h: nat)
    requires Perfect(t, h)
    ensures t.Full() && |t.Leaves()| == Pow2(h) && t == RunTree(Shares(t.Leaves()))
  {
    hide RunTree, Pow2, Split;
    if h == 0 {
      PowStep(0);
      assert Shares(t.Leaves()) == [t];
      OneTree([t]);
    } else {
      PerfectIsRunTree(t.left, h - 1);
      PerfectIsRunTree(t.right, h - 1);
      PowStep(h - 1);
      SplitIs(Pow2(h), h - 1);
      SharesSplit(t.left.Leaves(), t.right.Leaves());
      RunTreeStep(Shares(t.Leaves()), Shares(t.left.Leaves()), Shares(t.right.Leaves()));
    }
  }

  lemma {:induction false} SharesSplit(a: seq<ShareBytes>, b: seq<ShareBytes>)
    ensures Shares(a + b) == Shares(a) + Shares(b)
  {
    if a == [] {
      assert a + b == b;
    } else {
      assert (a + b)[0] == a[0] && (a + b)[1..] == a[1..] + b;
      SharesSplit(a[1..], b);
    }
  }

  /** All leaves of a perfect tree in namespace order, and no sibling: accepted against its root. */
  lemma PerfectTreeVerifies(sha: Sha, t: Tree, h: nat)
    requires Perfect(t, h) && Sorted(t.Leaves())
    ensures InclusionResult(sha, t.Leaves(), [], t.Hash(sha)) == Ok(Unit)
  {
    hide LexLe, Tree.Hash, Tree.Leaves, RunTree, CheckShares, Shares;
    PerfectIsRunTree(t, h);
    CheckSharesMeans(t.Leaves());
  }

  /** So a run that is no node has no accepted proof: the middle two of four leaves. */
  lemma UnalignedRunRefused(sha: Sha, a: ShareBytes, b: ShareBytes, c: ShareBytes, d: ShareBytes, siblings: seq<NHash>)
    requires b != c
    requires TreeClash(sha, Evidence(sha, [b, c], siblings), Join(Join(Share(a), Share(b)), Join(Share(c), Share(d)))).NoClash?
    ensures InclusionResult(sha, [b, c], siblings, Join(Join(Share(a), Share(b)), Join(Share(c), Share(d))).Hash(sha)).Err?
  {
    hide LexLe, TreeClash, Tree.Hash, InnerHash, InclusionResult, Evidence, Plug, Shares, RunTree, NodeOf;
    var t := Join(Join(Share(a), Share(b)), Join(Share(c), Share(d)));
    assert t.left.Full() && t.right.Full();
    if InclusionResult(sha, [b, c], siblings, t.Hash(sha)).Ok? {
      var steps := AcceptedIsANode(sha, [b, c], siblings, t);
      PairShape(b, c);
      PlugNodes(Join(Share(b), Share(c)), steps);
      MiddleIsNoNode(a, b, c, d);
    }
  }

  lemma MiddleIsNoNode(a: ShareBytes, b: ShareBytes, c: ShareBytes, d: ShareBytes)
    requires b != c
    ensures !NodeOf(Join(Share(b), Share(c)), Join(Join(Share(a), Share(b)), Join(Share(c), Share(d))))
  {
    var node := Join(Share(b), Share(c));
    assert !NodeOf(node, Join(Share(a), Share(b))) && !NodeOf(node, Join(Share(c), Share(d)));
  }

  lemma PairShape(b: ShareBytes, c: ShareBytes)
    ensures Shares([b, c]) == [Share(b), Share(c)] && RunTree(Shares([b, c])) == Join(Share(b), Share(c))
  {
    assert [b, c][1..] == [c] && [c][1..] == [];
    assert JoinLevel([Share(b), Share(c)]) == [Join(Share(b), Share(c))];
  }

  /** The node at the bottom of a path is a node of the tree. */
  predicate NodeOf(node: Tree, t: Tree) {
    node == t || (t.Join? && (NodeOf(node, t.left) || NodeOf(node, t.right)))
  }

  lemma {:induction false} PlugNodes(node: Tree, steps: seq<Step>)
    ensures NodeOf(node, Plug(node, steps))
    decreases |steps|
  {
    if steps == [] {
    } else {
      PlugNodes(Grow(node, steps[0]), steps[1..]);
      BelowNode(node, Grow(node, steps[0]), Plug(node, steps));
    }
  }

  lemma {:induction false} BelowNode(node: Tree, up: Tree, t: Tree)
    requires NodeOf(up, t) && up.Join? && (node == up.left || node == up.right)
    ensures NodeOf(node, t)
    decreases t
  {
    if up == t {
      assert NodeOf(node, up.left) || NodeOf(node, up.right);
    } else if NodeOf(up, t.left) {
      BelowNode(node, up, t.left);
    } else {
      BelowNode(node, up, t.right);
    }
  }

  /** The leaves of one namespace, in order. */
  function WithNamespace(leaves: seq<ShareBytes>, ns: Namespace): seq<ShareBytes> {
    if leaves == [] then []
    else if Ns(leaves[0]) == ns then [leaves[0]] + WithNamespace(leaves[1..], ns)
    else WithNamespace(leaves[1..], ns)
  }

  lemma {:induction false} WithNamespaceOf(a: seq<ShareBytes>, b: seq<ShareBytes>, ns: Namespace)
    ensures WithNamespace(a + b, ns) == WithNamespace(a, ns) + WithNamespace(b, ns)
  {
    hide Ns;
    if a == [] {
      assert a + b == b;
    } else {
      WithNamespaceOf(a[1..], b, ns);
      assert (a + b)[0] == a[0] && (a + b)[1..] == a[1..] + b;
      var inA, inB := WithNamespace(a[1..], ns), WithNamespace(b, ns);
      assert [a[0]] + (inA + inB) == [a[0]] + inA + inB;
    }
  }

  lemma {:induction false} NoneWithNamespace(a: seq<ShareBytes>, ns: Namespace)
    requires NoneOf(a, ns)
    ensures WithNamespace(a, ns) == []
  {
    if a == [] {
    } else {
      NoneWithNamespace(a[1..], ns);
    }
  }

  lemma OnlyRunHasNamespace(pre: seq<ShareBytes>, run: seq<ShareBytes>, post: seq<ShareBytes>, ns: Namespace)
    requires NoneOf(pre, ns) && NoneOf(post, ns)
    ensures WithNamespace(pre + run + post, ns) == WithNamespace(run, ns)
  {
    hide WithNamespace, NoneOf;
    WithNamespaceOf(pre + run, post, ns);
    WithNamespaceOf(pre, run, ns);
    NoneWithNamespace(pre, ns);
    NoneWithNamespace(post, ns);
  }

  /** The tree a verifier rebuilds, when the shares can be hashed at all. */
  function Evidence(sha: Sha, shares: seq<ByteString>, siblings: seq<NHash>): Tree {
    if shares == [] || !Sized(shares) then Share(seq(NS_SIZE, _ => 0)) else ProofTree(sha, shares, siblings)
  }

  // --- what an honest prover gets accepted -----------------------------------------

  /** All along the path the side read off the namespaces is the true side, or the two hash alike anyway. */
  predicate AllPlacedOrTwins(sha: Sha, node: Tree, steps: seq<Step>)
    decreases |steps|
  {
    steps == [] ||
    (((LexLe(steps[0].tree.Hash(sha).maxNs, node.Hash(sha).minNs) <==> steps[0].onLeft)
      || steps[0].tree.Hash(sha) == node.Hash(sha)) &&
     AllPlacedOrTwins(sha, Grow(node, steps[0]), steps[1..]))
  }

  lemma {:induction false} PlacedPathVerifies(sha: Sha, c: Tree, node: Tree, steps: seq<Step>)
    requires c.Hash(sha) == node.Hash(sha) && AllPlacedOrTwins(sha, node, steps)
    ensures Attach(sha, c, SiblingHashes(sha, steps)).Hash(sha) == Plug(node, steps).Hash(sha)
    decreases |steps|
  {
    hide InnerHash, LexLe;
    if steps == [] {
    } else {
      PlacedPathVerifies(sha, Beside(sha, c, steps[0].tree.Hash(sha)), Grow(node, steps[0]), steps[1..]);
    }
  }

  /** Compares what the verifier hashes along the path with what the honest path hashes. */
  function PathClash(sha: Sha, c: Tree, node: Tree, steps: seq<Step>): (clash: Clash)
    ensures clash.Genuine(sha)
    decreases |steps|
  {
    if steps == [] then NoClash
    else
      var mine, honest := Beside(sha, c, steps[0].tree.Hash(sha)), Grow(node, steps[0]);
      PathClash(sha, mine, honest, steps[1..]).Else(Compare(sha, Preimage(sha, mine), Preimage(sha, honest)))
  }

  lemma {:induction false} VerifiedPathIsPlaced(sha: Sha, c: Tree, node: Tree, steps: seq<Step>)
    requires Attach(sha, c, SiblingHashes(sha, steps)).Hash(sha) == Plug(node, steps).Hash(sha)
    requires PathClash(sha, c, node, steps).NoClash?
    ensures c.Hash(sha) == node.Hash(sha) && AllPlacedOrTwins(sha, node, steps)
    decreases |steps|
  {
    hide InnerHash, InnerPreimage, LexLe, Compare, Preimage, Beside, Grow, Tree.Hash;
    if steps == [] {
    } else {
      var mine, honest := Beside(sha, c, steps[0].tree.Hash(sha)), Grow(node, steps[0]);
      VerifiedPathIsPlaced(sha, mine, honest, steps[1..]);
      VerifiedStepIsPlaced(sha, c, node, steps[0]);
    }
  }

  lemma {:induction false} VerifiedStepIsPlaced(sha: Sha, c: Tree, node: Tree, step: Step)
    requires Beside(sha, c, step.tree.Hash(sha)).Hash(sha) == Grow(node, step).Hash(sha)
    requires Compare(sha, Preimage(sha, Beside(sha, c, step.tree.Hash(sha))), Preimage(sha, Grow(node, step))).NoClash?
    ensures c.Hash(sha) == node.Hash(sha)
    ensures (LexLe(step.tree.Hash(sha).maxNs, node.Hash(sha).minNs) <==> step.onLeft) || step.tree.Hash(sha) == node.Hash(sha)
  {
    hide InnerPreimage, LexLe;
    var mine, honest := Beside(sha, c, step.tree.Hash(sha)), Grow(node, step);
    InnerPreimageInjective(mine.left.Hash(sha), mine.right.Hash(sha), honest.left.Hash(sha), honest.right.Hash(sha));
  }

  /**
   Which honest proofs pass, exactly: those whose every neighbour lies on the side its namespaces
   suggest, or hashes like the node it stands beside.  A right neighbour of one namespace only,
   shared with the whole node, is taken for a left one.
   */
  lemma InclusionExactly(sha: Sha, shares: seq<ByteString>, steps: seq<Step>)
    requires shares != [] && CheckShares(shares).Ok? && Sized(shares)
    requires PathClash(sha, RunTree(Shares(shares)), RunTree(Shares(shares)), steps).NoClash?
    ensures InclusionResult(sha, shares, SiblingHashes(sha, steps), Plug(RunTree(Shares(shares)), steps).Hash(sha)).Ok?
            <==> AllPlacedOrTwins(sha, RunTree(Shares(shares)), steps)
  {
    hide LexLe, PathClash, CheckShares, Tree.Hash, InnerHash, AllPlacedOrTwins, Plug;
    var c := RunTree(Shares(shares));
    if AllPlacedOrTwins(sha, c, steps) {
      PlacedPathVerifies(sha, c, c, steps);
    }
    if InclusionResult(sha, shares, SiblingHashes(sha, steps), Plug(c, steps).Hash(sha)).Ok? {
      VerifiedPathIsPlaced(sha, c, c, steps);
    }
  }

  /** Two different shares of one namespace side by side: the left one cannot be proved included. */
  lemma SameNamespaceNeighbour(sha: Sha, a: ShareBytes, b: ShareBytes)
    requires Ns(a) == Ns(b) && a != b
    requires Compare(sha, LeafPreimage(a), LeafPreimage(b)).NoClash?
    requires Compare(sha, InnerPreimage(Share(b).Hash(sha), Share(a).Hash(sha)), InnerPreimage(Share(a).Hash(sha), Share(b).Hash(sha))).NoClash?
    ensures InclusionResult(sha, [a], [Share(b).Hash(sha)], Join(Share(a), Share(b)).Hash(sha)) == Err(RootMismatch)
  {
    hide LexLe;
    LexReflexive(Ns(a));
    var ha, hb := Share(a).Hash(sha), Share(b).Hash(sha);
    CheckSharesMeans([a]);
    assert Shares([a]) == [Share(a)];
    assert Attach(sha, Share(a), [hb]) == Join(Pruned(hb), Share(a)) by {
      assert [hb][1..] == [];
    }
    assert LeafPreimage(a)[1..] == a && LeafPreimage(b)[1..] == b;
    if InnerHash(sha, hb, ha) == InnerHash(sha, ha, hb) {
      InnerPreimageInjective(hb, ha, ha, hb);
      assert false;
    }
    assert ProofTree(sha, [a], [hb]).Hash(sha) == InnerHash(sha, hb, ha) by {
      assert RunTree([Share(a)]) == Share(a);
    }
    assert Join(Share(a), Share(b)).Hash(sha) == InnerHash(sha, ha, hb);
    assert CheckShares([a]).Ok?;
  }

  predicate Sorted(leaves: seq<ShareBytes>) {
    forall i, j :: 0 <= i < j < |leaves| ==> LexLe(Ns(leaves[i]), Ns(leaves[j]))
  }

  predicate StepsNoneOf(steps: seq<Step>, ns: Namespace) { forall s :: s in steps ==> NoneOf(s.tree.Leaves(), ns) }

  /** Both namespaces of an honest hash belong to leaves below it. */
  lemma {:induction false} BoundsAttained(sha: Sha, t: Tree) returns (lo: ShareBytes, hi: ShareBytes)
    requires t.Full()
    ensures lo in t.Leaves() && hi in t.Leaves() && t.Hash(sha).minNs == Ns(lo) && t.Hash(sha).maxNs == Ns(hi)
  {
    hide LexLe, InnerPreimage, LeafPreimage;
    match t
    case Share(d) => lo, hi := d, d;
    case Join(l, r) =>
      var lo1, hi1 := BoundsAttained(sha, l);
      var lo2, hi2 := BoundsAttained(sha, r);
      lo := if LexLe(l.Hash(sha).minNs, r.Hash(sha).minNs) then lo1 else lo2;
      hi := if LexLe(r.Hash(sha).maxNs, l.Hash(sha).maxNs) then hi1 else hi2;
  }

  lemma SortedParts(a: seq<ShareBytes>, b: seq<ShareBytes>)
    requires Sorted(a + b)
    ensures Sorted(a) && Sorted(b)
    ensures forall x, y :: x in a && y in b ==> LexLe(Ns(x), Ns(y))
  {
    hide LexLe;
    forall i, j | 0 <= i < j < |a| ensures LexLe(Ns(a[i]), Ns(a[j])) {
      assert (a + b)[i] == a[i] && (a + b)[j] == a[j];
    }
    forall i, j | 0 <= i < j < |b| ensures LexLe(Ns(b[i]), Ns(b[j])) {
      assert (a + b)[|a| + i] == b[i] && (a + b)[|a| + j] == b[j];
    }
    forall x, y | x in a && y in b ensures LexLe(Ns(x), Ns(y)) {
      var i :| 0 <= i < |a| && a[i] == x;
      var j :| 0 <= j < |b| && b[j] == y;
      assert (a + b)[i] == x && (a + b)[|a| + j] == y;
    }
  }

  /** With leaves in order and none of the namespace outside the node, every neighbour is placed and none meets it. */
  lemma {:induction false} SortedPathIsPlaced(sha: Sha, ns: Namespace, node: Tree, steps: seq<Step>, mine: ShareBytes)
    requires node.Full() && StepsFull(steps) && Sorted(Plug(node, steps).Leaves())
    requires mine in node.Leaves() && Ns(mine) == ns && StepsNoneOf(steps, ns)
    ensures Plug(node, steps).Full() && Sorted(node.Leaves())
    ensures AllPlacedOrTwins(sha, node, steps) && NoneMeet(SiblingHashes(sha, steps), ns)
    decreases |steps|
  {
    hide LexLe, InnerHash, Tree.Hash;
    if steps == [] {
    } else {
      var step := steps[0];
      assert step in steps;
      SortedPathIsPlaced(sha, ns, Grow(node, step), steps[1..], mine);
      SortedParts(if step.onLeft then step.tree.Leaves() else node.Leaves(), if step.onLeft then node.Leaves() else step.tree.Leaves());
      StepIsPlaced(sha, ns, node, step, mine);
      forall s | s in SiblingHashes(sha, steps) ensures !s.Meets(ns) {
        if s != step.tree.Hash(sha) {
          assert s in SiblingHashes(sha, steps[1..]);
        }
      }
    }
  }

  lemma StepIsPlaced(sha: Sha, ns: Namespace, node: Tree, step: Step, mine: ShareBytes)
    requires node.Full() && step.tree.Full() && mine in node.Leaves() && Ns(mine) == ns
    requires NoneOf(step.tree.Leaves(), ns)
    requires step.onLeft ==> forall x, y :: x in step.tree.Leaves() && y in node.Leaves() ==> LexLe(Ns(x), Ns(y))
    requires !step.onLeft ==> forall x, y :: x in node.Leaves() && y in step.tree.Leaves() ==> LexLe(Ns(x), Ns(y))
    ensures LexLe(step.tree.Hash(sha).maxNs, node.Hash(sha).minNs) <==> step.onLeft
    ensures !step.tree.Hash(sha).Meets(ns)
  {
    hide LexLe, InnerHash, Tree.Hash;
    var lo, hi := BoundsAttained(sha, step.tree);
    var nlo, _ := BoundsAttained(sha, node);
    HashBounds(sha, node, mine);
    if step.onLeft {
      if LexLe(ns, Ns(hi)) { LexAntisymmetric(ns, Ns(hi)); }
    } else {
      if LexLe(Ns(lo), ns) { LexAntisymmetric(ns, Ns(lo)); }
      if LexLe(Ns(hi), Ns(nlo)) {
        LexTransitive(Ns(hi), Ns(nlo), ns);
        LexAntisymmetric(ns, Ns(hi));
      }
    }
  }

  /** A tree in namespace order: the honest proof of a node that holds all of a namespace is accepted. */
  lemma {:induction false} CompleteProofAccepted(sha: Sha, ns: Namespace, shares: seq<ByteString>, steps: seq<Step>)
    requires Sized(shares) && StepsFull(steps) && StepsNoneOf(steps, ns)
    requires exists s :: s in shares && Ns(s) == ns
    requires Sorted(Plug(RunTree(Shares(shares)), steps).Leaves())
    ensures NamespaceResult(sha, ns, shares, SiblingHashes(sha, steps), Plug(RunTree(Shares(shares)), steps).Hash(sha)) == Ok(Unit)
  {
    hide LexLe, InnerHash, Tree.Hash, RunTree, CheckShares, Plug;
    var c := RunTree(Shares(shares));
    var mine :| mine in shares && Ns(mine) == ns;
    SharesLeaves(shares);
    RunTreeLeaves(Shares(shares));
    SortedPathIsPlaced(sha, ns, c, steps, mine);
    CheckSharesMeans(shares);
    PlacedPathVerifies(sha, c, c, steps);
  }
}
