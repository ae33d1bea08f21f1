/** Verifying one cell: every deal the registry expects gets a verdict from the blob kept for it, if any. */
module ShardVerification {
  import opened Aggregate
  import opened Blobs
  import opened Bytes
  import opened Membership
  import opened Reconcile
  import opened Verdicts
  import opened Wrappers
  import KeccakTree

  const BUNDLE_SIZE: nat := 13776

  function First32(b: ByteString): ByteString { if |b| < 32 then b else b[..32] }

  /** A bundle of the right length that opens with the deal's sealed root. */
  predicate VerifyBundle(payload: ByteString, e: DealRecord) {
    |payload| == BUNDLE_SIZE && payload[..32] == First32(e.sealedRoot)
  }

  function Judge(kept: BestMap, e: DealRecord): Verdict {
    if e.Key() !in kept then ABSENT
    else if VerifyBundle(kept[e.Key()].payload, e) then PASS
    else FAIL
  }

  function VerdictsOver(kept: BestMap, expected: seq<DealRecord>): VerdictMap {
    if expected == [] then map[]
    else
      var n := |expected| - 1;
      VerdictsOver(kept, expected[..n])[expected[n].Key() := Judge(kept, expected[n])]
  }

  function KeySet(deals: seq<DealRecord>): set<DealKey> { set x | x in deals :: x.Key() }

  function VerdictDigest(k: Sha, key: DealKey, v: Verdict): Digest { k(key.0 + key.1 + [v.Rank()]) }

  ghost function VerdictDigests(k: Sha, verdicts: VerdictMap, keys: seq<DealKey>): (digests: seq<Digest>)
    requires forall key :: key in keys ==> key in verdicts
    ensures |digests| == |keys|
  {
    if keys == [] then []
    else
      var n := |keys| - 1;
      VerdictDigests(k, verdicts, keys[..n]) + [VerdictDigest(k, keys[n], verdicts[keys[n]])]
  }

  lemma SortedWithin(verdicts: VerdictMap)
    ensures forall key :: key in SortedKeys(verdicts.Keys) ==> key in verdicts
  {
    SortedKeysSorts(verdicts.Keys);
  }

  /** The root over the verdicts in key order. */
  ghost function CellRoot(k: Sha, verdicts: VerdictMap): Digest {
    SortedWithin(verdicts);
    KeccakTree.Root(k, VerdictDigests(k, verdicts, SortedKeys(verdicts.Keys)))
  }

  function CellWanted(expected: seq<DealRecord>, signerOf: map<ByteString, ByteString>, deadline: int, shard: int): Wanted {
    Wanted(KeySet(expected), signerOf, deadline, shard, BUNDLE_SIZE)
  }

  // --- what a cell's root commits to --------------------------------------------------------

  predicate KeysSized(verdicts: VerdictMap) { forall key :: key in verdicts ==> |key.0| == 20 && |key.1| == 32 }

  function VerdictPreimage(key: DealKey, v: Verdict): ByteString { key.0 + key.1 + [v.Rank()] }

  /** Provider, deal, and one byte: 0 for none, 1 for absent, 2 for failed, 3 for passed. */
  lemma VerdictLayout(k: Sha, key: DealKey, v: Verdict)
    requires |key.0| == 20 && |key.1| == 32
    ensures VerdictDigest(k, key, v) == k(VerdictPreimage(key, v))
    ensures var b := VerdictPreimage(key, v);
            |b| == 53 && b[..20] == key.0 && b[20..52] == key.1
            && b[52] == (match v case NONE => 0 case ABSENT => 1 case FAIL => 2 case PASS => 3)
  {
  }

  /** Compares what two lists of verdicts are the digests of. */
  function VerdictsClash(k: Sha, a: VerdictMap, ka: seq<DealKey>, b: VerdictMap, kb: seq<DealKey>): (c: Clash)
    requires |ka| == |kb| && (forall key :: key in ka ==> key in a) && (forall key :: key in kb ==> key in b)
    ensures c.Genuine(k)
  {
    if ka == [] then NoClash
    else
      var n := |ka| - 1;
      Compare(k, VerdictPreimage(ka[n], a[ka[n]]), VerdictPreimage(kb[n], b[kb[n]]))
      .Else(VerdictsClash(k, a, ka[..n], b, kb[..n]))
  }

  lemma {:induction false} VerdictDigestsBind(k: Sha, a: VerdictMap, ka: seq<DealKey>, b: VerdictMap, kb: seq<DealKey>)
    requires |ka| == |kb| && (forall key :: key in ka ==> key in a) && (forall key :: key in kb ==> key in b)
    requires KeysSized(a) && KeysSized(b)
    requires VerdictDigests(k, a, ka) == VerdictDigests(k, b, kb) && VerdictsClash(k, a, ka, b, kb).NoClash?
    ensures ka == kb && forall key :: key in ka ==> a[key] == b[key]
    decreases |ka|
  {
    hide Verdict.Rank, Compare, VerdictPreimage, VerdictDigest, KeysSized;
    if ka == [] {
    } else {
      var n := |ka| - 1;
      var x, y := VerdictDigests(k, a, ka), VerdictDigests(k, b, kb);
      assert x[..n] == VerdictDigests(k, a, ka[..n]) && y[..n] == VerdictDigests(k, b, kb[..n]);
      assert x[n] == VerdictDigest(k, ka[n], a[ka[n]]) && y[n] == VerdictDigest(k, kb[n], b[kb[n]]);
      VerdictDigestsBind(k, a, ka[..n], b, kb[..n]);
      assert Compare(k, VerdictPreimage(ka[n], a[ka[n]]), VerdictPreimage(kb[n], b[kb[n]])).NoClash?;
      OneVerdict(k, a, ka[n], b, kb[n]);
      assert ka == ka[..n] + [ka[n]] && kb == kb[..n] + [kb[n]];
    }
  }

  lemma OneVerdict(k: Sha, a: VerdictMap, x: DealKey, b: VerdictMap, y: DealKey)
    requires KeysSized(a) && KeysSized(b) && x in a && y in b
    requires VerdictDigest(k, x, a[x]) == VerdictDigest(k, y, b[y])
    requires Compare(k, VerdictPreimage(x, a[x]), VerdictPreimage(y, b[y])).NoClash?
    ensures x == y && a[x] == b[y]
  {
    VerdictLayout(k, x, a[x]);
    VerdictLayout(k, y, b[y]);
  }

  /** Compares two cells' trees from the root down to the verdicts. */
  ghost function CellClash(k: Sha, a: VerdictMap, b: VerdictMap): (c: Clash)
    requires |a| == |b|
    ensures c.Genuine(k)
  {
    SortedWithin(a);
    SortedWithin(b);
    var ka, kb := SortedKeys(a.Keys), SortedKeys(b.Keys);
    KeccakTree.RootClash(k, VerdictDigests(k, a, ka), VerdictDigests(k, b, kb)).Else(VerdictsClash(k, a, ka, b, kb))
  }

  /** A cell's results root commits to its verdicts: of as many verdicts, equal roots mean equal verdicts, or a collision shows. */
  lemma CellRootBinds(k: Sha, a: VerdictMap, b: VerdictMap)
    requires |a| == |b| && KeysSized(a) && KeysSized(b) && CellClash(k, a, b).NoClash?
    ensures CellRoot(k, a) == CellRoot(k, b) <==> a == b
  {
    hide KeccakTree.Root, KeccakTree.RootClash, VerdictDigests, VerdictsClash, SortedKeys, KeysSized, KeyLe;
    SortedWithin(a);
    SortedWithin(b);
    var ka, kb := SortedKeys(a.Keys), SortedKeys(b.Keys);
    if CellRoot(k, a) == CellRoot(k, b) {
      KeccakTree.RootBinds(k, VerdictDigests(k, a, ka), VerdictDigests(k, b, kb));
      VerdictDigestsBind(k, a, ka, b, kb);
      SortedKeysSorts(a.Keys);
      SortedKeysSorts(b.Keys);
    }
  }

  /** The result of a cell, from what was expected and what was read. */
  ghost function Verified(k: Sha, epoch: int, d: int, shard: int, snapshotId: ByteString, expected: seq<DealRecord>,
                          observed: seq<ObservedBlob>, signerOf: map<ByteString, ByteString>): ShardResult
  {
    var deadline := epoch * DEADLINE_STRIDE + d;
    var kept := Best(CellWanted(expected, signerOf, deadline, shard), observed);
    var verdicts := VerdictsOver(kept, SortDeals(expected));
    ShardResult(deadline, shard, snapshotId, |expected|, verdicts, Some(0), CellRoot(k, verdicts))
  }

  method RootOverVerdicts(k: Sha, verdicts: VerdictMap) returns (root: Digest)
    ensures root == CellRoot(k, verdicts)
  {
    hide SortedKeys, VerdictDigest, KeccakTree.Root;
    SortedWithin(verdicts);
    var keys := SortKeys(verdicts.Keys);
    var digests: seq<Digest> := [];
    for i := 0 to |keys|
      invariant digests == VerdictDigests(k, verdicts, keys[..i])
    {
      assert keys[..i + 1][..i] == keys[..i];
      digests := digests + [VerdictDigest(k, keys[i], verdicts[keys[i]])];
    }
    assert keys[..|keys|] == keys;
    root := KeccakTree.MerkleRoot(k, digests);
  }

  method VerifyShard(k: Sha, epoch: int, d: int, shard: int, snapshotId: ByteString, expected: seq<DealRecord>,
                     observed: seq<ObservedBlob>, signerOf: map<ByteString, ByteString>)
    returns (r: ShardResult)
    ensures r == Verified(k, epoch, d, shard, snapshotId, expected, observed, signerOf)
  {
    hide Best, CellRoot, SortDeals;
    var deadline := epoch * DEADLINE_STRIDE + d;
    var kept, _ := FilterBlobs(observed, KeySet(expected), signerOf, deadline, shard, BUNDLE_SIZE);
    var sorted := SortDeals(expected);
    var verdicts: VerdictMap := map[];
    for i := 0 to |sorted|
      invariant verdicts == VerdictsOver(kept, sorted[..i])
    {
      assert sorted[..i + 1][..i] == sorted[..i];
      var e := sorted[i];
      if e.Key() !in kept {
        verdicts := verdicts[e.Key() := ABSENT];
        continue;
      }
      var ok := VerifyBundle(kept[e.Key()].payload, e);
      verdicts := verdicts[e.Key() := if ok then PASS else FAIL];
    }
    assert sorted[..|sorted|] == sorted;
    var root := RootOverVerdicts(k, verdicts);
    return ShardResult(deadline, shard, snapshotId, |expected|, verdicts, Some(0), root);
  }

  /** The expected list comes from a registry that replays to the value on chain, or not at all. */
  method ExpectedFromRegistry(k: Sha, registry: MembershipRegistry, onchainSnapshotId: ByteString, epoch: int, d: int, shard: int)
    returns (r: Result<seq<DealRecord>, Failure>)
    ensures r.Ok? <==> registry.epoch == epoch && registry.SnapshotId(k) == onchainSnapshotId
    ensures r.Ok? ==> r.value == registry.ExpectedFor(d, shard)
  {
    var check := VerifyRegistry(k, registry, onchainSnapshotId, epoch);
    if check.Err? {
      return Err(check.error);
    }
    return Ok(registry.ExpectedFor(d, shard));
  }

  // --- what a cell's verdicts are ---------------------------------------------------------

  lemma {:induction false} VerdictsOverKeys(kept: BestMap, expected: seq<DealRecord>)
    ensures VerdictsOver(kept, expected).Keys == KeySet(expected)
    decreases |expected|
  {
    hide Judge, DealRecord.Key;
    if expected == [] {
    } else {
      var n := |expected| - 1;
      VerdictsOverKeys(kept, expected[..n]);
      assert expected == expected[..n] + [expected[n]];
      assert KeySet(expected) == KeySet(expected[..n]) + {expected[n].Key()};
    }
  }

  /** No later deal has the key of deal `i`. */
  predicate LastOfKey(expected: seq<DealRecord>, i: nat)
    requires i < |expected|
  {
    forall j :: i < j < |expected| ==> expected[j].Key() != expected[i].Key()
  }

  lemma {:induction false} LastDecides(kept: BestMap, expected: seq<DealRecord>, i: nat)
    requires i < |expected| && LastOfKey(expected, i)
    ensures expected[i].Key() in VerdictsOver(kept, expected)
    ensures VerdictsOver(kept, expected)[expected[i].Key()] == Judge(kept, expected[i])
    decreases |expected|
  {
    hide Judge, DealRecord.Key;
    var n := |expected| - 1;
    if i == n {
    } else {
      assert expected[n].Key() != expected[i].Key();
      LastDecides(kept, expected[..n], i);
    }
  }

  /** Of deals that share a key the last in the list decides; with distinct keys each decides its own. */
  lemma VerdictsOverMeans(kept: BestMap, expected: seq<DealRecord>)
    ensures VerdictsOver(kept, expected).Keys == KeySet(expected)
    ensures forall i :: 0 <= i < |expected| && LastOfKey(expected, i) ==>
              VerdictsOver(kept, expected)[expected[i].Key()] == Judge(kept, expected[i])
  {
    hide Judge, DealRecord.Key, LastOfKey, VerdictsOver;
    VerdictsOverKeys(kept, expected);
    assert forall i :: 0 <= i < |expected| ==> expected[i].Key() in KeySet(expected);
    forall i | 0 <= i < |expected| && LastOfKey(expected, i)
      ensures VerdictsOver(kept, expected)[expected[i].Key()] == Judge(kept, expected[i])
    {
      LastDecides(kept, expected, i);
    }
  }

  lemma SameMembersSameKeys(a: seq<DealRecord>, b: seq<DealRecord>)
    requires multiset(a) == multiset(b)
    ensures KeySet(a) == KeySet(b)
  {
    forall x ensures x in a <==> x in b {
      assert x in a <==> x in multiset(a);
    }
  }

  /** A cell answers for exactly the keys of its expected deals. */
  lemma VerifiedKeys(k: Sha, epoch: int, d: int, shard: int, snapshotId: ByteString, expected: seq<DealRecord>,
                     observed: seq<ObservedBlob>, signerOf: map<ByteString, ByteString>)
    ensures Verified(k, epoch, d, shard, snapshotId, expected, observed, signerOf).verdicts.Keys == KeySet(expected)
  {
    hide Best, CellRoot, VerdictsOver, SortDeals, KeySet;
    VerdictsOverMeans(Best(CellWanted(expected, signerOf, epoch * DEADLINE_STRIDE + d, shard), observed), SortDeals(expected));
    SameMembersSameKeys(SortDeals(expected), expected);
  }

  predicate DistinctKeys(deals: seq<DealRecord>) { forall i, j :: 0 <= i < j < |deals| ==> deals[i].Key() != deals[j].Key() }

  lemma {:induction false} KeySetCount(deals: seq<DealRecord>)
    ensures |KeySet(deals)| <= |deals| && (|KeySet(deals)| == |deals| <==> DistinctKeys(deals))
    decreases |deals|
  {
    hide DealRecord.Key;
    if deals == [] {
      assert KeySet(deals) == {};
    } else {
      var n := |deals| - 1;
      KeySetCount(deals[..n]);
      KeySetSnoc(deals);
      DistinctSnoc(deals);
    }
  }

  lemma KeySetSnoc(deals: seq<DealRecord>)
    requires deals != []
    ensures KeySet(deals) == KeySet(deals[..|deals| - 1]) + {deals[|deals| - 1].Key()}
  {
    hide DealRecord.Key;
    assert deals == deals[..|deals| - 1] + [deals[|deals| - 1]];
  }

  lemma DistinctSnoc(deals: seq<DealRecord>)
    requires deals != []
    ensures DistinctKeys(deals) <==>
              DistinctKeys(deals[..|deals| - 1]) && deals[|deals| - 1].Key() !in KeySet(deals[..|deals| - 1])
  {
    hide DealRecord.Key;
    var n := |deals| - 1;
    if DistinctKeys(deals[..n]) && deals[n].Key() !in KeySet(deals[..n]) {
      forall i, j | 0 <= i < j < |deals| ensures deals[i].Key() != deals[j].Key() {
        assert deals[..n][i] == deals[i] && deals[i] in deals[..n];
        if j < n {
          assert deals[..n][j] == deals[j];
        }
      }
    }
    if DistinctKeys(deals) {
      forall x | x in deals[..n] ensures x.Key() != deals[n].Key() {
        var i :| 0 <= i < n && deals[..n][i] == x;
      }
    }
  }

  /** With distinct keys every expected deal is judged on the blob kept for it. */
  lemma VerifiedJudges(k: Sha, epoch: int, d: int, shard: int, snapshotId: ByteString, expected: seq<DealRecord>,
                       observed: seq<ObservedBlob>, signerOf: map<ByteString, ByteString>, e: DealRecord)
    requires DistinctKeys(expected) && e in expected
    ensures var r := Verified(k, epoch, d, shard, snapshotId, expected, observed, signerOf);
            var kept := Best(CellWanted(expected, signerOf, epoch * DEADLINE_STRIDE + d, shard), observed);
            e.Key() in r.verdicts && r.verdicts[e.Key()] == Judge(kept, e)
  {
    hide Best, CellRoot, VerdictsOver, SortDeals, KeySet, Judge, DealRecord.Key;
    var sorted := SortDeals(expected);
    VerdictsOverMeans(Best(CellWanted(expected, signerOf, epoch * DEADLINE_STRIDE + d, shard), observed), sorted);
    SameMembersSameKeys(sorted, expected);
    KeySetCount(expected);
    KeySetCount(sorted);
    assert e in multiset(sorted);
    var i :| 0 <= i < |sorted| && sorted[i] == e;
    assert e.Key() in KeySet(sorted) by { MemberKey(sorted, e); }
  }

  lemma MemberKey(deals: seq<DealRecord>, e: DealRecord)
    requires e in deals
    ensures e.Key() in KeySet(deals)
  {
  }
}
