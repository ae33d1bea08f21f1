/**
 The data root over row and column roots: a level-by-level tree that carries an odd last node up,
 which is the recursive Merkle Tree Hash of section 2.1 of RFC 6962.
 */
module DataRoot {
  import opened Bytes
  import opened Nmt
  import opened Numbers

  function NodeHash(sha: Sha, a: Digest, b: Digest): Digest { sha([1] + a + b) }

  /** A node hashes a one, its left child and its right child. */
  lemma NodeLayout(sha: Sha, a: Digest, b: Digest) returns (preimage: ByteString)
    ensures NodeHash(sha, a, b) == sha(preimage) && |preimage| == 65
    ensures preimage[0] == 1 && preimage[1..33] == a && preimage[33..] == b
  {
    preimage := [1] + a + b;
  }

  function LeafDigests(sha: Sha, entries: seq<ByteString>): (leaves: seq<Digest>)
    ensures |leaves| == |entries|
  {
    if entries == [] then [] else [sha([0] + entries[0])] + LeafDigests(sha, entries[1..])
  }

  // --- the standard ------------------------------------------------------------

  /** Merkle Tree Hash of a non-empty list of entries. */
  function Mth(sha: Sha, entries: seq<ByteString>): Digest
    requires entries != []
    decreases |entries|
  {
    if |entries| == 1 then sha([0] + entries[0])
    else
      var k := Split(|entries|);
      NodeHash(sha, Mth(sha, entries[..k]), Mth(sha, entries[k..]))
  }

  /** The standard's Merkle Tree Hash of any list; of none it is the hash of the empty string. */
  function TreeHash(sha: Sha, entries: seq<ByteString>): Digest {
    if entries == [] then sha([]) else Mth(sha, entries)
  }

  // --- the level-by-level tree ---------------------------------------------------

  function LevelUp(sha: Sha, level: seq<Digest>): (up: seq<Digest>)
    ensures |up| == (|level| + 1) / 2
  {
    if |level| < 2 then level else [NodeHash(sha, level[0], level[1])] + LevelUp(sha, level[2..])
  }

  function LevelRoot(sha: Sha, level: seq<Digest>): Digest
    requires level != []
    decreases |level|
  {
    if |level| == 1 then level[0] else LevelRoot(sha, LevelUp(sha, level))
  }

  /** The recursive tree over digests. */
  function SplitRoot(sha: Sha, leaves: seq<Digest>): Digest
    requires leaves != []
    decreases |leaves|
  {
    if |leaves| == 1 then leaves[0]
    else
      var k := Split(|leaves|);
      NodeHash(sha, SplitRoot(sha, leaves[..k]), SplitRoot(sha, leaves[k..]))
  }

  /** Moving up is local: an even prefix moves up on its own. */
  lemma {:induction false} LevelUpSplits(sha: Sha, a: seq<Digest>, b: seq<Digest>)
    requires |a| % 2 == 0
    ensures LevelUp(sha, a + b) == LevelUp(sha, a) + LevelUp(sha, b)
    decreases |a|
  {
    if a == [] {
      assert a + b == b;
    } else {
      assert (a + b)[0] == a[0] && (a + b)[1] == a[1] && (a + b)[2..] == a[2..] + b;
      LevelUpSplits(sha, a[2..], b);
    }
  }

  lemma SplitRootStep(sha: Sha, leaves: seq<Digest>, a: seq<Digest>, b: seq<Digest>)
    requires leaves == a + b && |leaves| >= 2 && |a| == Split(|leaves|)
    ensures b != [] && SplitRoot(sha, leaves) == NodeHash(sha, SplitRoot(sha, a), SplitRoot(sha, b))
  {
    assert leaves[..|a|] == a && leaves[|a|..] == b;
  }

  /** One level up leaves the recursive root as it is. */
  lemma {:induction false} SplitRootOfLevelUp(sha: Sha, leaves: seq<Digest>)
    requires |leaves| >= 1
    ensures SplitRoot(sha, LevelUp(sha, leaves)) == SplitRoot(sha, leaves)
    decreases |leaves|
  {
    hide Split, NodeHash, LevelUp, SplitRoot;
    if |leaves| == 1 {
      SingleRoot(sha, leaves);
    } else if |leaves| == 2 {
      PairRoot(sha, leaves);
    } else {
      var k := Split(|leaves|);
      var a, b := leaves[..k], leaves[k..];
      assert leaves == a + b;
      SplitHalves(|leaves|);
      LevelUpSplits(sha, a, b);
      SplitRootStep(sha, leaves, a, b);
      SplitRootStep(sha, LevelUp(sha, leaves), LevelUp(sha, a), LevelUp(sha, b));
      SplitRootOfLevelUp(sha, a);
      SplitRootOfLevelUp(sha, b);
    }
  }

  lemma SingleRoot(sha: Sha, leaves: seq<Digest>)
    requires |leaves| == 1
    ensures LevelUp(sha, leaves) == leaves
  {
  }

  lemma PairRoot(sha: Sha, leaves: seq<Digest>)
    requires |leaves| == 2
    ensures SplitRoot(sha, LevelUp(sha, leaves)) == SplitRoot(sha, leaves)
  {
    assert LevelUp(sha, leaves) == [NodeHash(sha, leaves[0], leaves[1])];
  }

  lemma {:induction false} LevelRootIsSplitRoot(sha: Sha, leaves: seq<Digest>)
    requires leaves != []
    ensures LevelRoot(sha, leaves) == SplitRoot(sha, leaves)
    decreases |leaves|
  {
    hide Split, NodeHash;
    if |leaves| <= 1 {
    } else {
      SplitRootOfLevelUp(sha, leaves);
      LevelRootIsSplitRoot(sha, LevelUp(sha, leaves));
    }
  }

  lemma {:induction false} LeafDigestsSplit(sha: Sha, entries: seq<ByteString>, k: nat)
    requires k <= |entries|
    ensures LeafDigests(sha, entries)[..k] == LeafDigests(sha, entries[..k])
    ensures LeafDigests(sha, entries)[k..] == LeafDigests(sha, entries[k..])
  {
    if k == 0 {
    } else {
      LeafDigestsSplit(sha, entries[1..], k - 1);
      assert entries[..k][1..] == entries[1..][..k - 1] && entries[k..] == entries[1..][k - 1..];
    }
  }

  lemma {:induction false} MthIsSplitRoot(sha: Sha, entries: seq<ByteString>)
    requires entries != []
    ensures Mth(sha, entries) == SplitRoot(sha, LeafDigests(sha, entries))
    decreases |entries|
  {
    hide Split, NodeHash;
    if |entries| <= 1 {
    } else {
      var k := Split(|entries|);
      LeafDigestsSplit(sha, entries, k);
      MthIsSplitRoot(sha, entries[..k]);
      MthIsSplitRoot(sha, entries[k..]);
    }
  }

  /** The level-by-level loop computes the standard's tree hash, for every non-empty list. */
  lemma LevelRootIsMth(sha: Sha, entries: seq<ByteString>)
    requires entries != []
    ensures LevelRoot(sha, LeafDigests(sha, entries)) == Mth(sha, entries)
  {
    LevelRootIsSplitRoot(sha, LeafDigests(sha, entries));
    MthIsSplitRoot(sha, entries);
  }

  lemma {:induction false} LevelUpStep(sha: Sha, level: seq<Digest>, i: nat, done: seq<Digest>)
    requires i + 1 < |level|
    ensures done + LevelUp(sha, level[i..]) == done + [NodeHash(sha, level[i], level[i + 1])] + LevelUp(sha, level[i + 2..])
  {
    hide NodeHash;
    assert level[i..][2..] == level[i + 2..];
    var node, rest := NodeHash(sha, level[i], level[i + 1]), LevelUp(sha, level[i + 2..]);
    assert LevelUp(sha, level[i..]) == [node] + rest;
    assert done + ([node] + rest) == done + [node] + rest;
  }

  lemma {:induction false} LevelUpEnd(sha: Sha, level: seq<Digest>, i: nat, done: seq<Digest>)
    requires i <= |level| <= i + 1
    ensures done + LevelUp(sha, level[i..]) == if i < |level| then done + [level[i]] else done
  {
    assert level[i..] == if i < |level| then [level[i]] else [];
  }

  /** One pass of the loop: adjacent nodes are hashed in pairs and an odd last one is carried. */
  method NextLevel(sha: Sha, leaves: seq<Digest>) returns (next: seq<Digest>)
    ensures next == LevelUp(sha, leaves)
  {
    hide NodeHash, LevelUp;
    next := [];
    var i := 0;
    assert leaves[0..] == leaves && next + LevelUp(sha, leaves) == LevelUp(sha, leaves);
    while i + 1 < |leaves|
      invariant i <= |leaves|
      invariant LevelUp(sha, leaves) == next + LevelUp(sha, leaves[i..])
    {
      LevelUpStep(sha, leaves, i, next);
      next := next + [NodeHash(sha, leaves[i], leaves[i + 1])];
      i := i + 2;
    }
    LevelUpEnd(sha, leaves, i, next);
    if i < |leaves| {
      next := next + [leaves[i]];
    }
  }

  method BinaryMerkleRoot(sha: Sha, input: seq<Digest>) returns (root: Digest)
    ensures root == if input == [] then ZeroDigest() else LevelRoot(sha, input)
  {
    if input == [] {
      return ZeroDigest();
    }
    var leaves := input;
    while |leaves| > 1
      invariant leaves != [] && LevelRoot(sha, leaves) == LevelRoot(sha, input)
      decreases |leaves|
    {
      leaves := NextLevel(sha, leaves);
    }
    return leaves[0];
  }

  function Entries(roots: seq<NHash>): (entries: seq<ByteString>)
    ensures |entries| == |roots| && forall i :: 0 <= i < |roots| ==> entries[i] == roots[i].ToBytes()
  {
    if roots == [] then [] else [roots[0].ToBytes()] + Entries(roots[1..])
  }

  function ZeroDigest(): Digest { seq(32, _ => 0) }

  /** The data root a guest commits to; with nothing to hash it is the zero digest. */
  function DataRootOf(sha: Sha, rowRoots: seq<NHash>, colRoots: seq<NHash>): Digest {
    if rowRoots + colRoots == [] then ZeroDigest() else Mth(sha, Entries(rowRoots + colRoots))
  }

  /** It is the standard's tree hash exactly when there is something to hash, or nothing hashes to zeros. */
  lemma DataRootIsStandard(sha: Sha, rowRoots: seq<NHash>, colRoots: seq<NHash>)
    ensures DataRootOf(sha, rowRoots, colRoots) == TreeHash(sha, Entries(rowRoots + colRoots))
            <==> rowRoots + colRoots != [] || sha([]) == ZeroDigest()
  {
    hide Mth, NHash.ToBytes, ZeroDigest;
  }

  method ComputeDataRoot(sha: Sha, rowRoots: seq<NHash>, colRoots: seq<NHash>) returns (root: Digest)
    ensures root == DataRootOf(sha, rowRoots, colRoots)
  {
    hide LevelRoot, Mth, NHash.ToBytes, LeafDigests, Entries;
    var roots := rowRoots + colRoots;
    var leaves: seq<Digest> := [];
    for i := 0 to |roots|
      invariant leaves == LeafDigests(sha, Entries(roots))[..i]
    {
      LeafDigestsAt(sha, Entries(roots), i);
      leaves := leaves + [sha([0] + roots[i].ToBytes())];
    }
    assert leaves == LeafDigests(sha, Entries(roots));
    if roots != [] {
      LevelRootIsMth(sha, Entries(roots));
    }
    root := BinaryMerkleRoot(sha, leaves);
  }

  // --- binding -------------------------------------------------------------------

  /** What the root of a list is the digest of. */
  function RootPreimage(sha: Sha, entries: seq<ByteString>): (b: ByteString)
    requires entries != []
    ensures Mth(sha, entries) == sha(b) && b != [] && (b[0] == 0 <==> |entries| == 1)
  {
    if |entries| == 1 then [0] + entries[0]
    else
      var k := Split(|entries|);
      [1] + Mth(sha, entries[..k]) + Mth(sha, entries[k..])
  }

  /** Compares two lists' trees from the top down. */
  function MthClash(sha: Sha, a: seq<ByteString>, b: seq<ByteString>): (c: Clash)
    requires a != [] && b != []
    ensures c.Genuine(sha)
    decreases |a|
  {
    var top := Compare(sha, RootPreimage(sha, a), RootPreimage(sha, b));
    if |a| == 1 || |b| == 1 then top
    else
      var j, k := Split(|a|), Split(|b|);
      top.Else(MthClash(sha, a[..j], b[..k])).Else(MthClash(sha, a[j..], b[k..]))
  }

  lemma PreimageParts(sha: Sha, entries: seq<ByteString>)
    requires |entries| >= 2
    ensures var k := Split(|entries|);
            RootPreimage(sha, entries) == [1] + Mth(sha, entries[..k]) + Mth(sha, entries[k..])
  {
    hide Split, Mth;
  }

  lemma OneEntry(sha: Sha, entries: seq<ByteString>)
    requires |entries| == 1
    ensures entries == [RootPreimage(sha, entries)[1..]]
  {
  }

  lemma {:induction false} ClashParts(sha: Sha, a: seq<ByteString>, b: seq<ByteString>)
    requires |a| >= 2 && |b| >= 2 && MthClash(sha, a, b).NoClash?
    ensures var j, k := Split(|a|), Split(|b|);
            MthClash(sha, a[..j], b[..k]).NoClash? && MthClash(sha, a[j..], b[k..]).NoClash?
  {
    hide Split, Mth, RootPreimage;
  }

  lemma {:induction false} NoClashAtTheTop(sha: Sha, a: seq<ByteString>, b: seq<ByteString>)
    requires a != [] && b != [] && Mth(sha, a) == Mth(sha, b) && MthClash(sha, a, b).NoClash?
    ensures RootPreimage(sha, a) == RootPreimage(sha, b) && (|a| == 1 <==> |b| == 1)
  {
    hide Split, Mth;
    assert Compare(sha, RootPreimage(sha, a), RootPreimage(sha, b)).NoClash?;
  }

  lemma NodePreimageSplit(a: Digest, b: Digest, c: Digest, d: Digest)
    requires [1] + a + b == [1] + c + d
    ensures a == c && b == d
  {
    SplitEqual([1] + a, b, [1] + c, d);
    SplitEqual([1], a, [1], c);
  }

  /**
   Equal roots of non-empty lists, whatever their lengths, mean equal lists, or two preimages of one
   digest turn up: the leaf and node tags make the tree's shape part of the root.
   */
  lemma {:induction false} MthBinds(sha: Sha, a: seq<ByteString>, b: seq<ByteString>)
    requires a != [] && b != [] && Mth(sha, a) == Mth(sha, b) && MthClash(sha, a, b).NoClash?
    ensures a == b
    decreases |a|
  {
    hide Split, Mth, MthClash, RootPreimage;
    NoClashAtTheTop(sha, a, b);
    if |a| == 1 {
      OneEntry(sha, a);
      OneEntry(sha, b);
    } else {
      var j, k := Split(|a|), Split(|b|);
      PreimageParts(sha, a);
      PreimageParts(sha, b);
      ClashParts(sha, a, b);
      NodePreimageSplit(Mth(sha, a[..j]), Mth(sha, a[j..]), Mth(sha, b[..k]), Mth(sha, b[k..]));
      MthBinds(sha, a[..j], b[..k]);
      MthBinds(sha, a[j..], b[k..]);
      assert a == a[..j] + a[j..] && b == b[..k] + b[k..];
    }
  }

  /** Lifted to the guest: one data root commits to the sequence of row and column roots. */
  lemma DataRootBinds(sha: Sha, a: seq<NHash>, b: seq<NHash>)
    requires a != [] && b != [] && Mth(sha, Entries(a)) == Mth(sha, Entries(b))
    requires MthClash(sha, Entries(a), Entries(b)).NoClash?
    ensures a == b
  {
    hide Mth, NHash.ToBytes;
    MthBinds(sha, Entries(a), Entries(b));
    forall i | 0 <= i < |a| ensures a[i] == b[i] {
      BytesRoundTrip(a[i], []);
      BytesRoundTrip(b[i], []);
    }
  }

  lemma {:induction false} LeafDigestsAt(sha: Sha, entries: seq<ByteString>, i: nat)
    requires i < |entries|
    ensures LeafDigests(sha, entries)[i] == sha([0] + entries[i])
  {
    if i == 0 {
    } else {
      LeafDigestsAt(sha, entries[1..], i - 1);
    }
  }
}
