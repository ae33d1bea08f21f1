/**
 Aggregating an epoch: full coverage of the grid of cells, one settlement leaf per verdict, and the
 public values; at once over all results, or from one fold per deadline.
 */
module Aggregate {
  import opened Bytes
  import opened Lists
  import opened Numbers
  import opened Reconcile
  import opened Verdicts
  import opened Wrappers
  import KeccakTree
  import SettlementTree

  type Leaf = SettlementTree.SettlementLeaf

  const DEADLINE_STRIDE: int := 1_000_000

  datatype Params = Params(
    epoch: U64, deadlinesPerEpoch: int, nShards: int, prevStateRoot: ByteString, daCommitment: ByteString,
    daNonce: int, submitter: ByteString, storageVkDigest: ByteString, requireFullCoverage: bool)

  datatype PublicValues = PublicValues(
    epoch: int, batchRoot: Digest, daCommitment: ByteString, daNonce: int, resultsRoot: Digest,
    resultsDataRoot: Digest, storageVkDigest: ByteString, snapshotId: ByteString, submitter: ByteString,
    prevStateRoot: ByteString, newStateRoot: Digest, numVerified: int, windowSaturation: int)

  datatype Aggregate = Aggregate(pv: PublicValues, leaves: seq<Leaf>)

  function Range(n: int): (s: set<int>)
    ensures forall i :: i in s <==> 0 <= i < n
  {
    if n <= 0 then {} else Range(n - 1) + {n - 1}
  }

  /** Every cell of the epoch: its deadlines by its shards. */
  function Grid(epoch: int, deadlines: int, shards: int): set<Cell> {
    set d, s | d in Range(deadlines) && s in Range(shards) :: (epoch * DEADLINE_STRIDE + d, s)
  }

  lemma InGrid(epoch: int, deadlines: int, shards: int, c: Cell)
    ensures c in Grid(epoch, deadlines, shards) <==>
              0 <= c.0 - epoch * DEADLINE_STRIDE < deadlines && 0 <= c.1 < shards
  {
    if 0 <= c.0 - epoch * DEADLINE_STRIDE < deadlines && 0 <= c.1 < shards {
      var d := c.0 - epoch * DEADLINE_STRIDE;
      assert d in Range(deadlines) && c.1 in Range(shards) && c == (epoch * DEADLINE_STRIDE + d, c.1);
    }
  }

  // --- keys in order -----------------------------------------------------------------

  predicate KeyLe(a: DealKey, b: DealKey) { LexLe(a.0, b.0) && (a.0 == b.0 ==> LexLe(a.1, b.1)) }

  /** `s` lists the keys once each, in increasing order. */
  ghost predicate IsSorting(keys: set<DealKey>, s: seq<DealKey>) {
    && (forall k :: k in keys <==> k in s)
    && (forall i, j :: 0 <= i < j < |s| ==> KeyLe(s[i], s[j]) && s[i] != s[j])
  }

  lemma KeyOrder(a: DealKey, b: DealKey, c: DealKey)
    ensures KeyLe(a, b) || KeyLe(b, a)
    ensures KeyLe(a, b) && KeyLe(b, a) ==> a == b
    ensures KeyLe(a, b) && KeyLe(b, c) ==> KeyLe(a, c)
  {
    LexTotal(a.0, b.0);
    LexTotal(a.1, b.1);
    if LexLe(a.0, b.0) && LexLe(b.0, a.0) { LexAntisymmetric(a.0, b.0); }
    if LexLe(a.1, b.1) && LexLe(b.1, a.1) { LexAntisymmetric(a.1, b.1); }
    if LexLe(a.0, b.0) && LexLe(b.0, c.0) {
      LexTransitive(a.0, b.0, c.0);
      if a.0 == c.0 { LexAntisymmetric(a.0, b.0); }
    }
    if LexLe(a.1, b.1) && LexLe(b.1, c.1) { LexTransitive(a.1, b.1, c.1); }
  }

  lemma {:induction false} LeastKey(keys: set<DealKey>) returns (m: DealKey)
    requires keys != {}
    ensures m in keys && forall k :: k in keys ==> KeyLe(m, k)
    decreases |keys|
  {
    hide KeyLe;
    m :| m in keys;
    KeyOrder(m, m, m);
    if keys != {m} {
      var rest := LeastKey(keys - {m});
      KeyOrder(m, rest, m);
      if KeyLe(rest, m) {
        m := rest;
      } else {
        forall k | k in keys ensures KeyLe(m, k) {
          if k != m { KeyOrder(m, rest, k); }
        }
      }
    }
  }

  ghost function SortedKeys(keys: set<DealKey>): (s: seq<DealKey>)
    ensures |s| == |keys|
    decreases |keys|
  {
    if keys == {} then []
    else
      var m := Least(keys);
      [m] + SortedKeys(keys - {m})
  }

  ghost function Least(keys: set<DealKey>): (m: DealKey)
    requires keys != {}
    ensures m in keys && forall k :: k in keys ==> KeyLe(m, k)
  {
    LeastExists(keys);
    var m :| m in keys && forall k :: k in keys ==> KeyLe(m, k);
    m
  }

  lemma LeastExists(keys: set<DealKey>)
    requires keys != {}
    ensures exists m :: m in keys && forall k :: k in keys ==> KeyLe(m, k)
  {
    var m := LeastKey(keys);
  }

  lemma SortingCons(m: DealKey, rest: set<DealKey>, s: seq<DealKey>)
    requires IsSorting(rest, s) && m !in rest && forall k :: k in rest ==> KeyLe(m, k)
    ensures IsSorting(rest + {m}, [m] + s)
  {
    hide KeyLe;
    assert forall j :: 0 <= j < |s| ==> s[j] in rest;
  }

  lemma {:induction false} SortedKeysSorts(keys: set<DealKey>)
    ensures IsSorting(keys, SortedKeys(keys))
    decreases |keys|
  {
    hide KeyLe, IsSorting;
    if keys == {} {
      NothingSorted();
    } else {
      var m := Least(keys);
      SortedKeysSorts(keys - {m});
      SortingCons(m, keys - {m}, SortedKeys(keys - {m}));
      assert keys - {m} + {m} == keys;
    }
  }

  lemma NothingSorted()
    ensures IsSorting({}, [])
  {
  }

  /** Picks the least remaining key each time. */
  method SortKeys(keys: set<DealKey>) returns (s: seq<DealKey>)
    ensures s == SortedKeys(keys)
  {
    hide KeyLe;
    s := [];
    var rest := keys;
    assert [] + SortedKeys(keys) == SortedKeys(keys);
    while rest != {}
      invariant SortedKeys(keys) == s + SortedKeys(rest)
      decreases |rest|
    {
      LeastExists(rest);
      var m :| m in rest && forall k :: k in rest ==> KeyLe(m, k);
      KeyOrder(m, Least(rest), m);
      assert s + ([m] + SortedKeys(rest - {m})) == s + [m] + SortedKeys(rest - {m});
      s, rest := s + [m], rest - {m};
    }
    assert s + [] == s;
  }

  // --- leaves ----------------------------------------------------------------------------

  function LeafFor(epoch: nat, key: DealKey, v: Verdict): Leaf {
    SettlementTree.SettlementLeaf(
      epoch, key.0, key.1, v, 16, if v == PASS then 16 else 0,
      if v == PASS then 1_000_000_000_000 else 0, if v == FAIL then 10_000_000_000_000 else 0)
  }

  function LeavesOf(epoch: nat, verdicts: VerdictMap, keys: seq<DealKey>): (leaves: seq<Leaf>)
    requires forall k :: k in keys ==> k in verdicts
    ensures |leaves| == |keys|
    ensures forall i :: 0 <= i < |keys| ==> leaves[i] == LeafFor(epoch, keys[i], verdicts[keys[i]])
  {
    if keys == [] then [] else [LeafFor(epoch, keys[0], verdicts[keys[0]])] + LeavesOf(epoch, verdicts, keys[1..])
  }

  ghost function EpochLeaves(epoch: nat, verdicts: VerdictMap): seq<Leaf> {
    SortedKeysSorts(verdicts.Keys);
    LeavesOf(epoch, verdicts, SortedKeys(verdicts.Keys))
  }

  predicate WellFormed(leaves: seq<Leaf>) { forall l :: l in leaves ==> l.Encodable() }

  function Bodies(leaves: seq<Leaf>): (bodies: seq<ByteString>)
    ensures |bodies| == |leaves| && forall i :: 0 <= i < |leaves| ==> bodies[i] == leaves[i].Body()
  {
    if leaves == [] then [] else Bodies(leaves[..|leaves| - 1]) + [leaves[|leaves| - 1].Body()]
  }

  function ResultsRoot(k: Sha, leaves: seq<Leaf>): Digest {
    KeccakTree.Root(k, SettlementTree.Hashes(k, SettlementTree.Leafs(Bodies(leaves))))
  }

  lemma DigestsSnoc(k: Sha, leaves: seq<Leaf>, leaf: Leaf)
    requires leaf.Encodable()
    ensures SettlementTree.Hashes(k, SettlementTree.Leafs(Bodies(leaves + [leaf])))
         == SettlementTree.Hashes(k, SettlementTree.Leafs(Bodies(leaves))) + [leaf.LeafDigest(k).value]
  {
    hide SettlementTree.SettlementLeaf.Body, SettlementTree.SettlementLeaf.Encodable;
    var all := leaves + [leaf];
    assert all[..|leaves|] == leaves && Bodies(all) == Bodies(leaves) + [leaf.Body()];
  }

  /** The root over the leaves' digests, unless some leaf cannot be hashed. */
  method HashLeaves(k: Sha, leaves: seq<Leaf>) returns (root: Result<Digest, Failure>)
    ensures root == if WellFormed(leaves) then Ok(ResultsRoot(k, leaves)) else Err(Malformed)
  {
    hide SettlementTree.SettlementLeaf.Body, SettlementTree.SettlementLeaf.Encodable, Bodies, SettlementTree.Hashes,
         SettlementTree.Leafs, KeccakTree.Root;
    var digests: seq<Digest> := [];
    NoDigests(k);
    for i := 0 to |leaves|
      invariant forall j :: 0 <= j < i ==> leaves[j].Encodable()
      invariant digests == SettlementTree.Hashes(k, SettlementTree.Leafs(Bodies(leaves[..i])))
    {
      var d := leaves[i].LeafDigest(k);
      if d.None? {
        return Err(Malformed);
      }
      DigestsSnoc(k, leaves[..i], leaves[i]);
      assert leaves[..i + 1] == leaves[..i] + [leaves[i]];
      digests := digests + [d.value];
    }
    assert leaves[..|leaves|] == leaves;
    var r := KeccakTree.MerkleRoot(k, digests);
    return Ok(r);
  }

  lemma NoDigests(k: Sha)
    ensures SettlementTree.Hashes(k, SettlementTree.Leafs(Bodies([]))) == []
  {
  }

  // --- sums and maxima -----------------------------------------------------------------------

  ghost function Sum(m: map<Cell, int>): int
    decreases |m.Keys|
  {
    if m.Keys == {} then 0
    else
      var c :| c in m.Keys;
      assert (m - {c}).Keys == m.Keys - {c};
      m[c] + Sum(m - {c})
  }

  /** Which entry is added first does not matter. */
  lemma {:induction false} SumFrom(m: map<Cell, int>, c: Cell)
    requires c in m
    ensures Sum(m) == m[c] + Sum(m - {c})
    decreases |m.Keys|
  {
    var first :| first in m.Keys && Sum(m) == m[first] + Sum(m - {first});
    if first != c {
      assert (m - {first}).Keys == m.Keys - {first} && (m - {c}).Keys == m.Keys - {c};
      SumFrom(m - {first}, c);
      SumFrom(m - {c}, first);
      assert m - {first} - {c} == m - {c} - {first};
    }
  }

  method SumSizes(m: map<Cell, int>) returns (total: int)
    ensures total == Sum(m)
  {
    total := 0;
    var rest := m;
    while rest.Keys != {}
      invariant total + Sum(rest) == Sum(m)
      decreases |rest.Keys|
    {
      var c :| c in rest.Keys;
      SumFrom(rest, c);
      assert (rest - {c}).Keys == rest.Keys - {c};
      total, rest := total + rest[c], rest - {c};
    }
  }

  /** The largest saturation any result reports. */
  function MaxSaturation(results: seq<ShardResult>): Option<int>
    decreases |results|
  {
    if results == [] then None
    else
      var n := |results| - 1;
      var before := MaxSaturation(results[..n]);
      match results[n].windowSaturation
      case None => before
      case Some(w) => if before.Some? && before.value >= w then before else Some(w)
  }

  lemma {:induction false} MaxSaturationMeans(results: seq<ShardResult>)
    ensures forall r :: r in results && r.windowSaturation.Some? ==>
              MaxSaturation(results).Some? && r.windowSaturation.value <= MaxSaturation(results).value
    ensures MaxSaturation(results).Some? ==> exists r :: r in results && r.windowSaturation == MaxSaturation(results)
    decreases |results|
  {
    if results == [] {
    } else {
      var n := |results| - 1;
      MaxSaturationMeans(results[..n]);
      assert results == results[..n] + [results[n]];
    }
  }

  function OrZero(o: Option<int>): int { if o.Some? then o.value else 0 }

  method Saturation(results: seq<ShardResult>) returns (w: int)
    ensures w == OrZero(MaxSaturation(results))
  {
    var best: Option<int> := None;
    for i := 0 to |results|
      invariant best == MaxSaturation(results[..i])
    {
      assert results[..i + 1][..i] == results[..i];
      if results[i].windowSaturation.Some? && !(best.Some? && best.value >= results[i].windowSaturation.value) {
        best := results[i].windowSaturation;
      }
    }
    assert results[..|results|] == results;
    return OrZero(best);
  }

  function RootsOf(results: seq<ShardResult>): (roots: seq<Digest>)
    ensures |roots| == |results| && forall i :: 0 <= i < |results| ==> roots[i] == results[i].resultsRoot
  {
    if results == [] then [] else [results[0].resultsRoot] + RootsOf(results[1..])
  }

  // --- the epoch -----------------------------------------------------------------------------

  /** The next link of the state chain. */
  function StateRoot(k: Sha, prev: ByteString, epoch: U64, resultsRoot: Digest, daCommitment: ByteString, snapshotId: ByteString): Digest {
    k(StatePreimage(prev, epoch, resultsRoot, daCommitment, snapshotId))
  }

  function StatePreimage(prev: ByteString, epoch: U64, resultsRoot: Digest, daCommitment: ByteString, snapshotId: ByteString): ByteString {
    prev + (LeBytes(epoch, 8) + (resultsRoot + (daCommitment + snapshotId)))
  }

  function NewStateRoot(k: Sha, p: Params, snapshotId: ByteString, resultsRoot: Digest): Digest {
    StateRoot(k, p.prevStateRoot, p.epoch, resultsRoot, p.daCommitment, snapshotId)
  }

  /** "RESULTS_DA" */
  const RESULTS_DA: ByteString := [82, 69, 83, 85, 76, 84, 83, 95, 68, 65]

  function Values(k: Sha, p: Params, snapshotId: ByteString, results: seq<ShardResult>, resultsRoot: Digest, numVerified: int): PublicValues {
    PublicValues(
      p.epoch, KeccakTree.Root(k, RootsOf(results)), p.daCommitment, p.daNonce, resultsRoot,
      k(RESULTS_DA + resultsRoot), p.storageVkDigest, snapshotId, p.submitter, p.prevStateRoot,
      NewStateRoot(k, p, snapshotId, resultsRoot), numVerified, OrZero(MaxSaturation(results)))
  }

  /** The checks after reconciliation, in order, and the outcome when all pass. */
  ghost function Settled(k: Sha, p: Params, snapshotId: ByteString, results: seq<ShardResult>, ev: EpochVerdicts): Result<Aggregate, Failure> {
    var grid := Grid(p.epoch, p.deadlinesPerEpoch, p.nShards);
    var leaves := EpochLeaves(p.epoch, ev.verdicts);
    if p.requireFullCoverage && ev.coveredCells != grid then Err(CoverageGap)
    else if !WellFormed(leaves) then Err(Malformed)
    else if ev.snapshotId.Some? && ev.snapshotId.value != snapshotId then Err(SnapshotMismatch)
    else if Sum(ev.cellExpected) != |leaves| then Err(CoverageGap)
    else Ok(Aggregate(Values(k, p, snapshotId, results, ResultsRoot(k, leaves), Sum(ev.cellExpected)), leaves))
  }

  ghost function Aggregated(k: Sha, p: Params, snapshotId: ByteString, results: seq<ShardResult>): Result<Aggregate, Failure> {
    var ev := Reconciled(results);
    if ev.Err? then Err(ev.error) else Settled(k, p, snapshotId, results, ev.value)
  }

  lemma EpochLeavesIs(epoch: nat, verdicts: VerdictMap)
    ensures forall k :: k in SortedKeys(verdicts.Keys) ==> k in verdicts
    ensures EpochLeaves(epoch, verdicts) == LeavesOf(epoch, verdicts, SortedKeys(verdicts.Keys))
  {
    SortedKeysSorts(verdicts.Keys);
  }

  method SettleLeaves(epoch: nat, verdicts: VerdictMap) returns (leaves: seq<Leaf>)
    ensures leaves == EpochLeaves(epoch, verdicts)
  {
    hide SortedKeys, LeafFor, LeavesOf, EpochLeaves;
    EpochLeavesIs(epoch, verdicts);
    var keys := SortKeys(verdicts.Keys);
    leaves := [];
    for i := 0 to |keys|
      invariant leaves == LeavesOf(epoch, verdicts, keys)[..i]
    {
      leaves := leaves + [LeafFor(epoch, keys[i], verdicts[keys[i]])];
    }
  }

  method AggregateEpoch(k: Sha, p: Params, snapshotId: ByteString, results: seq<ShardResult>) returns (r: Result<Aggregate, Failure>)
    ensures r == Aggregated(k, p, snapshotId, results)
  {
    hide Reconciled, Grid, EpochLeaves, WellFormed, ResultsRoot, Sum, MaxSaturation, RootsOf, NewStateRoot, KeccakTree.Root;
    var reconciled := ReconcileShardResults(results);
    if reconciled.Err? {
      return Err(reconciled.error);
    }
    var ev := reconciled.value;
    var expectedCells := Grid(p.epoch, p.deadlinesPerEpoch, p.nShards);
    if p.requireFullCoverage {
      var missing := expectedCells - ev.coveredCells;
      if missing != {} {
        return Err(CoverageGap);
      }
      var extra := ev.coveredCells - expectedCells;
      if extra != {} {
        return Err(CoverageGap);
      }
    }
    var leaves := SettleLeaves(p.epoch, ev.verdicts);
    var root := HashLeaves(k, leaves);
    if root.Err? {
      return Err(root.error);
    }
    if ev.snapshotId.Some? && ev.snapshotId.value != snapshotId {
      return Err(SnapshotMismatch);
    }
    var numVerified := SumSizes(ev.cellExpected);
    if numVerified != |leaves| {
      return Err(CoverageGap);
    }
    var saturation := Saturation(results);
    var batchRoot := KeccakTree.MerkleRoot(k, RootsOf(results));
    var pv := PublicValues(
      p.epoch, batchRoot, p.daCommitment, p.daNonce, root.value, k(RESULTS_DA + root.value), p.storageVkDigest,
      snapshotId, p.submitter, p.prevStateRoot, NewStateRoot(k, p, snapshotId, root.value), numVerified, saturation);
    return Ok(Aggregate(pv, leaves));
  }

  // --- what an accepted epoch says -------------------------------------------------------------

  /**
   With full coverage asked for, an accepted epoch has results for the cells of the grid and for no
   others, and counts as many deals as the cells answer for and as there are leaves; the leaves are
   one per key, in key order, with the strongest verdict any result gives.
   */
  lemma AcceptedCoversGrid(k: Sha, p: Params, snapshotId: ByteString, results: seq<ShardResult>)
    requires Aggregated(k, p, snapshotId, results).Ok? && p.requireFullCoverage
    ensures Consistent(results) && CellsOf(results) == Grid(p.epoch, p.deadlinesPerEpoch, p.nShards)
    ensures var a := Aggregated(k, p, snapshotId, results).value;
            var ev := Reconciled(results).value;
            a.pv.numVerified == Sum(ev.cellExpected) == |a.leaves| == |KeysOf(results)|
            && SizesRecorded(results, ev.cellExpected)
            && IsSorting(KeysOf(results), SortedKeys(KeysOf(results)))
            && (forall i :: 0 <= i < |a.leaves| ==>
                  var key := SortedKeys(KeysOf(results))[i];
                  a.leaves[i].providerId == key.0 && a.leaves[i].dealId == key.1
                  && Strongest(results, key, a.leaves[i].verdict))
    ensures forall r :: r in results ==> r.snapshotId == snapshotId
  {
    hide Grid, Strongest, WellFormed, ResultsRoot, Sum, Reconciled, SortedKeys, IsSorting, SizesRecorded,
         KeccakTree.Root, RootsOf, MaxSaturation, NewStateRoot;
    ReconciledMeans(results);
    SortedKeysSorts(KeysOf(results));
    SnapshotIsShared(results, snapshotId);
    SortingMembers(KeysOf(results), SortedKeys(KeysOf(results)));
  }

  /** Each leaf of an accepted epoch carries the strongest verdict any result gives its key. */
  lemma LeafIsStrongest(k: Sha, p: Params, snapshotId: ByteString, results: seq<ShardResult>, l: Leaf)
    requires Aggregated(k, p, snapshotId, results).Ok?
    requires l in Aggregated(k, p, snapshotId, results).value.leaves
    ensures Strongest(results, (l.providerId, l.dealId), l.verdict)
  {
    hide Grid, Strongest, Reconciled, SizesRecorded, Sum, Consistent, CellsOf, KeysOf, EpochLeaves, Values, ResultsRoot, WellFormed;
    ReconciledMeans(results);
    var verdicts := Reconciled(results).value.verdicts;
    var key := LeafOfVerdict(p.epoch, verdicts, l);
  }

  /** Every leaf of an epoch carries the verdict of its key. */
  lemma {:induction false} LeafOfVerdict(epoch: nat, verdicts: VerdictMap, l: Leaf) returns (key: DealKey)
    requires l in EpochLeaves(epoch, verdicts)
    ensures key in verdicts && key == (l.providerId, l.dealId) && l == LeafFor(epoch, key, verdicts[key])
  {
    hide SortedKeys, KeyLe, LeavesOf;
    EpochLeavesIs(epoch, verdicts);
    var leaves := EpochLeaves(epoch, verdicts);
    var i :| 0 <= i < |leaves| && leaves[i] == l;
    key := SortedKeys(verdicts.Keys)[i];
  }

  /** Some result gives the key this verdict. */
  predicate Says(results: seq<ShardResult>, key: DealKey, v: Verdict) {
    exists r :: r in results && key in r.verdicts && r.verdicts[key] == v
  }

  lemma StrongestSays(results: seq<ShardResult>, key: DealKey, v: Verdict)
    requires Strongest(results, key, v)
    ensures v == PASS <==> Says(results, key, PASS)
    ensures v == FAIL <==> !Says(results, key, PASS) && Says(results, key, FAIL)
  {
  }

  /** What a leaf pays and takes, when some result passes its key and when none does but some fails it. */
  predicate Pays(l: Leaf, passed: bool, failed: bool) {
    && l.challengesTotal == 16
    && l.challengesPassed == (if passed then 16 else 0)
    && l.rewardWei == (if passed then 1_000_000_000_000 else 0)
    && l.slashWei == (if !passed && failed then 10_000_000_000_000 else 0)
  }

  /**
   Each leaf of an accepted epoch, read off the results: its deal is paid exactly if some result
   passes it, and slashed exactly if none does and some result fails it.
   */
  lemma LeafPays(k: Sha, p: Params, snapshotId: ByteString, results: seq<ShardResult>, l: Leaf)
    requires Aggregated(k, p, snapshotId, results).Ok?
    requires l in Aggregated(k, p, snapshotId, results).value.leaves
    ensures var key := (l.providerId, l.dealId);
            l.epoch == p.epoch && Pays(l, Says(results, key, PASS), Says(results, key, FAIL))
  {
    hide Grid, Strongest, Reconciled, SizesRecorded, Sum, Consistent, CellsOf, KeysOf, EpochLeaves, Values, ResultsRoot, WellFormed, Says;
    LeafIsStrongest(k, p, snapshotId, results, l);
    StrongestSays(results, (l.providerId, l.dealId), l.verdict);
    var key := LeafOfVerdict(p.epoch, Reconciled(results).value.verdicts, l);
  }

  function Rewards(leaves: seq<Leaf>): int { if leaves == [] then 0 else leaves[0].rewardWei + Rewards(leaves[1..]) }

  function Slashes(leaves: seq<Leaf>): int { if leaves == [] then 0 else leaves[0].slashWei + Slashes(leaves[1..]) }

  function Having(verdicts: VerdictMap, keys: seq<DealKey>, v: Verdict): set<DealKey>
    requires forall k :: k in keys ==> k in verdicts
  {
    set k | k in keys && verdicts[k] == v
  }

  lemma HavingCons(verdicts: VerdictMap, keys: seq<DealKey>, v: Verdict)
    requires keys != [] && (forall k :: k in keys ==> k in verdicts) && keys[0] !in keys[1..]
    ensures |Having(verdicts, keys, v)| == |Having(verdicts, keys[1..], v)| + if verdicts[keys[0]] == v then 1 else 0
  {
    var rest := Having(verdicts, keys[1..], v);
    assert keys == [keys[0]] + keys[1..];
    if verdicts[keys[0]] == v {
      assert Having(verdicts, keys, v) == rest + {keys[0]};
    } else {
      assert Having(verdicts, keys, v) == rest;
    }
  }

  lemma {:induction false} LeavesPay(epoch: nat, verdicts: VerdictMap, keys: seq<DealKey>)
    requires (forall k :: k in keys ==> k in verdicts) && forall i, j :: 0 <= i < j < |keys| ==> keys[i] != keys[j]
    ensures Rewards(LeavesOf(epoch, verdicts, keys)) == 1_000_000_000_000 * |Having(verdicts, keys, PASS)|
    ensures Slashes(LeavesOf(epoch, verdicts, keys)) == 10_000_000_000_000 * |Having(verdicts, keys, FAIL)|
  {
    hide Having;
    if keys == [] {
      NoneHaving(verdicts);
    } else {
      HavingCons(verdicts, keys, PASS);
      HavingCons(verdicts, keys, FAIL);
      LeavesPay(epoch, verdicts, keys[1..]);
      assert LeavesOf(epoch, verdicts, keys)[1..] == LeavesOf(epoch, verdicts, keys[1..]);
    }
  }

  lemma NoneHaving(verdicts: VerdictMap)
    ensures Having(verdicts, [], PASS) == {} && Having(verdicts, [], FAIL) == {}
  {
  }

  function PassedKeys(results: seq<ShardResult>): set<DealKey> {
    set key | key in KeysOf(results) && Says(results, key, PASS)
  }

  function FailedKeys(results: seq<ShardResult>): set<DealKey> {
    set key | key in KeysOf(results) && !Says(results, key, PASS) && Says(results, key, FAIL)
  }

  lemma HavingIsSaid(results: seq<ShardResult>, verdicts: VerdictMap, keys: seq<DealKey>)
    requires AllStrongest(results, verdicts) && forall k :: k in keys <==> k in verdicts
    ensures Having(verdicts, keys, PASS) == PassedKeys(results) && Having(verdicts, keys, FAIL) == FailedKeys(results)
  {
    hide Strongest, Says, KeysOf;
    forall key | key in verdicts
      ensures verdicts[key] == PASS <==> Says(results, key, PASS)
      ensures verdicts[key] == FAIL <==> !Says(results, key, PASS) && Says(results, key, FAIL)
    {
      StrongestSays(results, key, verdicts[key]);
    }
  }

  /** An accepted epoch pays 10^12 wei for each key some result passes, and takes 10^13 for each that is failed and never passed. */
  lemma EpochPays(k: Sha, p: Params, snapshotId: ByteString, results: seq<ShardResult>)
    requires Aggregated(k, p, snapshotId, results).Ok?
    ensures var leaves := Aggregated(k, p, snapshotId, results).value.leaves;
            Rewards(leaves) == 1_000_000_000_000 * |PassedKeys(results)|
            && Slashes(leaves) == 10_000_000_000_000 * |FailedKeys(results)|
  {
    hide Grid, Reconciled, SizesRecorded, Sum, CellsOf, Values, ResultsRoot, WellFormed, AllStrongest, KeyLe,
         SortedKeys, LeavesOf, Having, PassedKeys, FailedKeys, Rewards, Slashes;
    ReconciledMeans(results);
    var verdicts := Reconciled(results).value.verdicts;
    EpochLeavesIs(p.epoch, verdicts);
    SortedKeysSorts(verdicts.Keys);
    LeavesPay(p.epoch, verdicts, SortedKeys(verdicts.Keys));
    HavingIsSaid(results, verdicts, SortedKeys(verdicts.Keys));
  }

  lemma SortingMembers(keys: set<DealKey>, s: seq<DealKey>)
    requires IsSorting(keys, s)
    ensures forall i :: 0 <= i < |s| ==> s[i] in keys
  {
  }

  lemma SnapshotIsShared(results: seq<ShardResult>, snapshotId: ByteString)
    requires OneSnapshot(results) && (SnapshotOf(results).Some? ==> SnapshotOf(results).value == snapshotId)
    ensures forall r :: r in results ==> r.snapshotId == snapshotId
  {
    if results != [] {
      assert results[0] in results;
    }
  }

  /** What was asked with each in its own field, the root over the leaves, and how many they are. */
  predicate Carries(k: Sha, p: Params, a: Aggregate) {
    && a.pv.epoch == p.epoch && a.pv.daCommitment == p.daCommitment && a.pv.daNonce == p.daNonce && a.pv.submitter == p.submitter
    && a.pv.storageVkDigest == p.storageVkDigest && a.pv.prevStateRoot == p.prevStateRoot
    && a.pv.resultsRoot == ResultsRoot(k, a.leaves) && a.pv.numVerified == |a.leaves|
  }

  /** What an accepted epoch publishes. */
  lemma PublishedValues(k: Sha, p: Params, snapshotId: ByteString, results: seq<ShardResult>)
    requires Aggregated(k, p, snapshotId, results).Ok?
    ensures var a := Aggregated(k, p, snapshotId, results).value;
            && Carries(k, p, a) && a.pv.snapshotId == snapshotId
            && a.pv.batchRoot == KeccakTree.Root(k, RootsOf(results)) && a.pv.resultsDataRoot == k(RESULTS_DA + a.pv.resultsRoot)
            && a.pv.newStateRoot == StateRoot(k, p.prevStateRoot, p.epoch, a.pv.resultsRoot, p.daCommitment, snapshotId)
  {
    hide Reconciled, EpochLeaves, Grid, WellFormed, ResultsRoot, Sum, MaxSaturation, RootsOf, KeccakTree.Root, StateRoot;
  }

  // --- order and repetition -----------------------------------------------------------------

  lemma SameSaturation(a: seq<ShardResult>, b: seq<ShardResult>)
    requires SameResults(a, b)
    ensures MaxSaturation(a) == MaxSaturation(b)
  {
    MaxSaturationMeans(a);
    MaxSaturationMeans(b);
  }

  /**
   Permuting or repeating the results changes neither acceptance nor anything settled: only the root
   over the results themselves sees the order.
   */
  lemma AggregatedIgnoresOrder(k: Sha, p: Params, snapshotId: ByteString, a: seq<ShardResult>, b: seq<ShardResult>)
    requires SameResults(a, b)
    ensures Aggregated(k, p, snapshotId, a).Ok? <==> Aggregated(k, p, snapshotId, b).Ok?
    ensures Aggregated(k, p, snapshotId, a).Ok? ==>
              var x, y := Aggregated(k, p, snapshotId, a).value, Aggregated(k, p, snapshotId, b).value;
              x.leaves == y.leaves && x.pv == y.pv.(batchRoot := x.pv.batchRoot)
  {
    hide Grid, EpochLeaves, WellFormed, ResultsRoot, Sum, MaxSaturation, Reconciled, RootsOf, KeccakTree.Root, NewStateRoot;
    ReconciledIgnoresOrder(a, b);
    SameSaturation(a, b);
  }

  /** The batch root of lists of one length is one exactly when the results' roots are, in their order. */
  lemma BatchRootExactly(k: Sha, a: seq<ShardResult>, b: seq<ShardResult>)
    requires |a| == |b| && KeccakTree.RootClash(k, RootsOf(a), RootsOf(b)).NoClash?
    ensures KeccakTree.Root(k, RootsOf(a)) == KeccakTree.Root(k, RootsOf(b))
            <==> forall i :: 0 <= i < |a| ==> a[i].resultsRoot == b[i].resultsRoot
  {
    hide KeccakTree.Root, KeccakTree.RootClash;
    KeccakTree.RootBinds(k, RootsOf(a), RootsOf(b));
    if RootsOf(a) == RootsOf(b) {
      forall i | 0 <= i < |a| ensures a[i].resultsRoot == b[i].resultsRoot {
        assert RootsOf(a)[i] == RootsOf(b)[i];
      }
    }
  }

  /** So it does see the order: swapping two results of different roots, anywhere, changes it. */
  lemma BatchRootSeesOrder(k: Sha, results: seq<ShardResult>, i: nat, j: nat)
    requires i < |results| && j < |results| && results[i].resultsRoot != results[j].resultsRoot
    requires KeccakTree.RootClash(k, RootsOf(results), RootsOf(results[i := results[j]][j := results[i]])).NoClash?
    ensures KeccakTree.Root(k, RootsOf(results)) != KeccakTree.Root(k, RootsOf(results[i := results[j]][j := results[i]]))
  {
    hide KeccakTree.Root, KeccakTree.RootClash, RootsOf;
    var swapped := results[i := results[j]][j := results[i]];
    BatchRootExactly(k, results, swapped);
    assert swapped[j].resultsRoot != results[j].resultsRoot;
  }

  // --- one fold per deadline -------------------------------------------------------------------

  datatype DeadlineFold = DeadlineFold(deadline: int, snapshotId: ByteString, shardResults: seq<ShardResult>)

  /** What folding a deadline requires of its results. */
  function Folded(deadline: int, snapshotId: ByteString, results: seq<ShardResult>, nShards: int): Result<DeadlineFold, Failure> {
    var fault := FirstFault(deadline, snapshotId, results);
    if fault.Some? then Err(fault.value)
    else if Range(nShards) <= ShardsOf(results) then Ok(DeadlineFold(deadline, snapshotId, results))
    else Err(CoverageGap)
  }

  /** The first result of another deadline or another registry. */
  function FirstFault(deadline: int, snapshotId: ByteString, results: seq<ShardResult>): Option<Failure>
    decreases |results|
  {
    if results == [] then None
    else if results[0].deadline != deadline then Some(CoverageGap)
    else if results[0].snapshotId != snapshotId then Some(SnapshotMismatch)
    else FirstFault(deadline, snapshotId, results[1..])
  }

  lemma {:induction false} FirstFaultMeans(deadline: int, snapshotId: ByteString, results: seq<ShardResult>)
    ensures FirstFault(deadline, snapshotId, results) == None <==>
              forall r :: r in results ==> r.deadline == deadline && r.snapshotId == snapshotId
    decreases |results|
  {
    if results == [] {
    } else {
      FirstFaultMeans(deadline, snapshotId, results[1..]);
      assert results == [results[0]] + results[1..];
    }
  }

  /** The fault is that of the first result that is not of the deadline and the registry: the deadline is looked at first. */
  lemma {:induction false} FirstFaultAt(deadline: int, snapshotId: ByteString, results: seq<ShardResult>) returns (i: nat)
    requires FirstFault(deadline, snapshotId, results).Some?
    ensures i < |results| && forall j :: 0 <= j < i ==> results[j].deadline == deadline && results[j].snapshotId == snapshotId
    ensures results[i].deadline != deadline || results[i].snapshotId != snapshotId
    ensures FirstFault(deadline, snapshotId, results).value == if results[i].deadline != deadline then CoverageGap else SnapshotMismatch
    decreases |results|
  {
    i := 0;
    if results[0].deadline == deadline && results[0].snapshotId == snapshotId {
      i := FirstFaultAt(deadline, snapshotId, results[1..]);
      i := i + 1;
    }
  }

  method FoldDeadline(deadline: int, snapshotId: ByteString, results: seq<ShardResult>, nShards: int) returns (r: Result<DeadlineFold, Failure>)
    ensures r == Folded(deadline, snapshotId, results, nShards)
  {
    assert results[0..] == results;
    for i := 0 to |results|
      invariant FirstFault(deadline, snapshotId, results[i..]) == FirstFault(deadline, snapshotId, results)
    {
      assert results[i..][1..] == results[i + 1..];
      if results[i].deadline != deadline {
        return Err(CoverageGap);
      }
      if results[i].snapshotId != snapshotId {
        return Err(SnapshotMismatch);
      }
    }
    assert results[|results|..] == [] && FirstFault(deadline, snapshotId, results) == None;
    var covered := ShardsOf(results);
    var missing := Range(nShards) - covered;
    if missing != {} {
      assert exists s :: s in missing;
      return Err(CoverageGap);
    }
    assert Range(nShards) <= covered;
    return Ok(DeadlineFold(deadline, snapshotId, results));
  }

  function Flatten(folds: seq<DeadlineFold>): seq<ShardResult> {
    if folds == [] then [] else Flatten(folds[..|folds| - 1]) + folds[|folds| - 1].shardResults
  }

  ghost function AggregatedFolds(k: Sha, p: Params, folds: seq<DeadlineFold>): Result<Aggregate, Failure> {
    if folds == [] then Err(CoverageGap)
    else if exists f :: f in folds && f.snapshotId != folds[0].snapshotId then Err(SnapshotMismatch)
    else Aggregated(k, p, folds[0].snapshotId, Flatten(folds))
  }

  method AggregateEpochIncremental(k: Sha, p: Params, folds: seq<DeadlineFold>) returns (r: Result<Aggregate, Failure>)
    ensures r == AggregatedFolds(k, p, folds)
  {
    hide Aggregated;
    if folds == [] {
      return Err(CoverageGap);
    }
    var sid := folds[0].snapshotId;
    for i := 0 to |folds|
      invariant forall j :: 0 <= j < i ==> folds[j].snapshotId == sid
    {
      if folds[i].snapshotId != sid {
        return Err(SnapshotMismatch);
      }
    }
    var flat: seq<ShardResult> := [];
    for i := 0 to |folds|
      invariant flat == Flatten(folds[..i])
    {
      assert folds[..i + 1][..i] == folds[..i];
      flat := flat + folds[i].shardResults;
    }
    assert folds[..|folds|] == folds;
    r := AggregateEpoch(k, p, sid, flat);
  }

  // --- incremental equals batch -------------------------------------------------------------------

  function Concat(groups: seq<seq<ShardResult>>): seq<ShardResult> {
    if groups == [] then [] else Concat(groups[..|groups| - 1]) + groups[|groups| - 1]
  }

  /** Folds of the groups in order, one deadline after the other; the first failure ends it. */
  function FoldAll(epoch: int, snapshotId: ByteString, groups: seq<seq<ShardResult>>, nShards: int): (folds: Result<seq<DeadlineFold>, Failure>)
    ensures folds.Ok? ==> |folds.value| == |groups|
    decreases |groups|
  {
    if groups == [] then Ok([])
    else
      var n := |groups| - 1;
      var before := FoldAll(epoch, snapshotId, groups[..n], nShards);
      if before.Err? then before
      else
        var fold := Folded(epoch * DEADLINE_STRIDE + n, snapshotId, groups[n], nShards);
        if fold.Err? then Err(fold.error) else Ok(before.value + [fold.value])
  }

  /** Group `d` holds results of the epoch's deadline `d` only. */
  predicate Grouped(epoch: int, groups: seq<seq<ShardResult>>) {
    forall d :: 0 <= d < |groups| ==> forall r :: r in groups[d] ==> r.deadline == epoch * DEADLINE_STRIDE + d
  }

  /** One group folds exactly when its results are of the registry and cover every shard. */
  predicate GroupFolds(group: seq<ShardResult>, snapshotId: ByteString, nShards: int) {
    (forall r :: r in group ==> r.snapshotId == snapshotId) && Range(nShards) <= ShardsOf(group)
  }

  lemma {:induction false} FoldedMeans(deadline: int, snapshotId: ByteString, group: seq<ShardResult>, nShards: int)
    requires forall r :: r in group ==> r.deadline == deadline
    ensures Folded(deadline, snapshotId, group, nShards).Ok? <==> GroupFolds(group, snapshotId, nShards)
    ensures Folded(deadline, snapshotId, group, nShards).Ok? ==>
              Folded(deadline, snapshotId, group, nShards).value == DeadlineFold(deadline, snapshotId, group)
  {
    hide ShardsOf, Range, FirstFault;
    FirstFaultMeans(deadline, snapshotId, group);
  }

  lemma {:induction false} FoldAllMeans(epoch: int, snapshotId: ByteString, groups: seq<seq<ShardResult>>, nShards: int)
    requires Grouped(epoch, groups)
    ensures FoldAll(epoch, snapshotId, groups, nShards).Ok? <==>
              forall d :: 0 <= d < |groups| ==> GroupFolds(groups[d], snapshotId, nShards)
    decreases |groups|
  {
    hide GroupFolds, Folded;
    if groups == [] {
    } else {
      var n := |groups| - 1;
      FoldAllMeans(epoch, snapshotId, groups[..n], nShards);
      FoldedMeans(epoch * DEADLINE_STRIDE + n, snapshotId, groups[n], nShards);
      if FoldAll(epoch, snapshotId, groups, nShards).Ok? {
        forall d | 0 <= d < |groups| ensures GroupFolds(groups[d], snapshotId, nShards) {
          if d < n {
            assert groups[..n][d] == groups[d];
          }
        }
      }
    }
  }

  lemma {:induction false} FoldAllFlattens(epoch: int, snapshotId: ByteString, groups: seq<seq<ShardResult>>, nShards: int)
    requires Grouped(epoch, groups) && FoldAll(epoch, snapshotId, groups, nShards).Ok?
    ensures Flatten(FoldAll(epoch, snapshotId, groups, nShards).value) == Concat(groups)
    ensures forall f :: f in FoldAll(epoch, snapshotId, groups, nShards).value ==> f.snapshotId == snapshotId
    decreases |groups|
  {
    hide GroupFolds, Folded;
    if groups == [] {
    } else {
      var n := |groups| - 1;
      FoldAllFlattens(epoch, snapshotId, groups[..n], nShards);
      FoldedMeans(epoch * DEADLINE_STRIDE + n, snapshotId, groups[n], nShards);
      var all := FoldAll(epoch, snapshotId, groups, nShards).value;
      assert all[..n] == FoldAll(epoch, snapshotId, groups[..n], nShards).value;
    }
  }

  lemma {:induction false} ConcatMembers(groups: seq<seq<ShardResult>>)
    ensures forall r :: r in Concat(groups) <==> exists d :: 0 <= d < |groups| && r in groups[d]
    decreases |groups|
  {
    if groups == [] {
    } else {
      var n := |groups| - 1;
      ConcatMembers(groups[..n]);
      assert forall d :: 0 <= d < n ==> groups[..n][d] == groups[d];
    }
  }

  /** A covered grid has every shard in every group. */
  lemma {:induction false} CoveredGroups(epoch: int, groups: seq<seq<ShardResult>>, nShards: int)
    requires Grouped(epoch, groups) && CellsOf(Concat(groups)) == Grid(epoch, |groups|, nShards)
    ensures forall d :: 0 <= d < |groups| ==> Range(nShards) <= ShardsOf(groups[d])
  {
    ConcatMembers(groups);
    forall d, s | 0 <= d < |groups| && s in Range(nShards) ensures s in ShardsOf(groups[d]) {
      InGrid(epoch, |groups|, nShards, (epoch * DEADLINE_STRIDE + d, s));
      var r :| r in Concat(groups) && r.Cell() == (epoch * DEADLINE_STRIDE + d, s);
      var e :| 0 <= e < |groups| && r in groups[e];
      assert e == d;
    }
  }

  predicate GroupsCover(groups: seq<seq<ShardResult>>, nShards: int) {
    forall d :: 0 <= d < |groups| ==> Range(nShards) <= ShardsOf(groups[d])
  }

  /** Whatever coverage is asked for, an accepted epoch has results of one registry only. */
  lemma AcceptedSnapshot(k: Sha, p: Params, snapshotId: ByteString, results: seq<ShardResult>)
    requires Aggregated(k, p, snapshotId, results).Ok?
    ensures forall r :: r in results ==> r.snapshotId == snapshotId
  {
    hide Grid, AllStrongest, WellFormed, ResultsRoot, Sum, Reconciled, EpochLeaves, SizesRecorded, Values, Complete, SizesAgree;
    ReconciledMeans(results);
    SnapshotIsShared(results, snapshotId);
  }

  /**
   Folding deadline by deadline and aggregating the folds, for any list of groups and whether or not
   full coverage is asked for: it succeeds exactly when there is a group, aggregating the concatenation
   at once succeeds, and every group covers every shard; and then with one and the same outcome.
   */
  lemma IncrementalExactly(k: Sha, p: Params, snapshotId: ByteString, groups: seq<seq<ShardResult>>)
    requires Grouped(p.epoch, groups)
    ensures var folds := FoldAll(p.epoch, snapshotId, groups, p.nShards);
            var batch := Aggregated(k, p, snapshotId, Concat(groups));
            (folds.Ok? && AggregatedFolds(k, p, folds.value).Ok? <==> groups != [] && batch.Ok? && GroupsCover(groups, p.nShards))
            && (folds.Ok? && groups != [] ==> AggregatedFolds(k, p, folds.value) == batch)
  {
    hide Aggregated, FoldAll, Flatten, Concat, Grouped, Range, ShardsOf;
    var folds := FoldAll(p.epoch, snapshotId, groups, p.nShards);
    FoldAllMeans(p.epoch, snapshotId, groups, p.nShards);
    if Aggregated(k, p, snapshotId, Concat(groups)).Ok? && GroupsCover(groups, p.nShards) {
      AcceptedSnapshot(k, p, snapshotId, Concat(groups));
      ConcatMembers(groups);
      forall d | 0 <= d < |groups| ensures GroupFolds(groups[d], snapshotId, p.nShards) {
        assert forall r :: r in groups[d] ==> r in Concat(groups);
      }
    }
    if folds.Ok? {
      FoldAllFlattens(p.epoch, snapshotId, groups, p.nShards);
      forall d | 0 <= d < |groups| ensures Range(p.nShards) <= ShardsOf(groups[d]) {
        assert GroupFolds(groups[d], snapshotId, p.nShards);
      }
      if groups != [] {
        assert folds.value[0] in folds.value;
      }
    }
  }

  /** With full coverage asked for, an epoch of at least one deadline comes out the same either way. */
  lemma IncrementalEqualsBatch(k: Sha, p: Params, snapshotId: ByteString, groups: seq<seq<ShardResult>>)
    requires p.requireFullCoverage && |groups| == p.deadlinesPerEpoch && p.deadlinesPerEpoch >= 1
    requires Grouped(p.epoch, groups)
    ensures var folds := FoldAll(p.epoch, snapshotId, groups, p.nShards);
            var batch := Aggregated(k, p, snapshotId, Concat(groups));
            (folds.Ok? && AggregatedFolds(k, p, folds.value).Ok? <==> batch.Ok?)
            && (batch.Ok? ==> folds.Ok? && AggregatedFolds(k, p, folds.value) == batch)
  {
    hide Aggregated, AggregatedFolds, FoldAll, Concat, Grouped, CellsOf, Grid, Sum, Strongest, SortedKeys, IsSorting, Reconciled, Range, ShardsOf;
    IncrementalExactly(k, p, snapshotId, groups);
    if Aggregated(k, p, snapshotId, Concat(groups)).Ok? {
      AcceptedCoversGrid(k, p, snapshotId, Concat(groups));
      CoveredGroups(p.epoch, groups, p.nShards);
    }
  }

  /** Without it they differ on a deadline nobody answered for: at once that is accepted, as a fold it is not. */
  lemma UnansweredDeadline(k: Sha, p: Params, snapshotId: ByteString)
    requires !p.requireFullCoverage && p.nShards >= 1
    ensures Aggregated(k, p, snapshotId, Concat([[]])).Ok?
    ensures FoldAll(p.epoch, snapshotId, [[]], p.nShards) == Err(CoverageGap)
  {
    var groups: seq<seq<ShardResult>> := [[]];
    assert groups[..0] == [] && Concat(groups) == [];
    assert SortedKeys({}) == [];
    assert EpochLeaves(p.epoch, map[]) == [];
    assert 0 in Range(p.nShards) && 0 !in ShardsOf([]);
  }

  /** In an epoch of no deadlines they differ: at once nothing is missing, from no folds nothing is accepted. */
  lemma NoDeadlines(k: Sha, p: Params, snapshotId: ByteString)
    requires p.deadlinesPerEpoch <= 0
    ensures Aggregated(k, p, snapshotId, []).Ok? && AggregatedFolds(k, p, []) == Err(CoverageGap)
  {
    assert Grid(p.epoch, p.deadlinesPerEpoch, p.nShards) == {};
    assert SortedKeys({}) == [];
    assert EpochLeaves(p.epoch, map[]) == [];
  }

  // --- what can be redeemed ---------------------------------------------------------------------

  /** A leaf that verifies against the results root of an accepted epoch is one of its leaves, or a collision shows. */
  lemma OnlySettledLeavesRedeem(k: Sha, p: Params, snapshotId: ByteString, results: seq<ShardResult>,
                                leaf: Leaf, path: seq<Digest>, idx: nat)
    requires Aggregated(k, p, snapshotId, results).Ok? && Aggregated(k, p, snapshotId, results).value.leaves != []
    requires leaf.LeafDigest(k).Some?
    requires KeccakTree.Climb(k, leaf.LeafDigest(k).value, path, idx) == Aggregated(k, p, snapshotId, results).value.pv.resultsRoot
    requires SettlementTree.TreeClash(k, SettlementTree.PathTree(SettlementTree.Leaf(leaf.Body()), path, idx),
               SettlementTree.ListTree(Bodies(Aggregated(k, p, snapshotId, results).value.leaves))).NoClash?
    ensures leaf in Aggregated(k, p, snapshotId, results).value.leaves
  {
    hide Reconciled, EpochLeaves, Sum, SettlementTree.TreeClash, SettlementTree.PathTree, SettlementTree.ListTree, KeccakTree.Climb,
         KeccakTree.Root, SettlementTree.SettlementLeaf.Body, SettlementTree.SettlementLeaf.Encodable, SettlementTree.SettlementLeaf.LeafDigest;
    var leaves := Aggregated(k, p, snapshotId, results).value.leaves;
    SettlementTree.RedeemedLeafWasSettled(k, leaves, Bodies(leaves), leaf, path, idx);
  }

  /** The public values fix the leaves: equal results roots and equal counts mean equal leaves, or a collision shows. */
  lemma PublicValuesBindLeaves(k: Sha, x: Aggregate, y: Aggregate)
    requires WellFormed(x.leaves) && WellFormed(y.leaves)
    requires x.pv.resultsRoot == ResultsRoot(k, x.leaves) && y.pv.resultsRoot == ResultsRoot(k, y.leaves)
    requires x.pv.numVerified == |x.leaves| && y.pv.numVerified == |y.leaves|
    requires x.pv.resultsRoot == y.pv.resultsRoot && x.pv.numVerified == y.pv.numVerified
    requires x.leaves != [] ==>
      SettlementTree.TreeClash(k, SettlementTree.ListTree(Bodies(x.leaves)), SettlementTree.ListTree(Bodies(y.leaves))).NoClash?
    ensures x.leaves == y.leaves
  {
    hide SettlementTree.TreeClash, SettlementTree.ListTree, SettlementTree.SettlementLeaf.Body, SettlementTree.SettlementLeaf.Encodable,
         KeccakTree.Root;
    if x.leaves != [] {
      SettlementTree.RootAndCountBind(k, Bodies(x.leaves), Bodies(y.leaves));
      forall i | 0 <= i < |x.leaves| ensures x.leaves[i] == y.leaves[i] {
        SettlementTree.BodyInjective(x.leaves[i], y.leaves[i]);
      }
    }
  }

  // --- the state chain ----------------------------------------------------------------------------

  /** What one epoch contributes to the state chain. */
  datatype EpochRecord = EpochRecord(epoch: U64, resultsRoot: Digest, daCommitment: Digest, snapshotId: Digest)

  function StateChain(k: Sha, genesis: Digest, records: seq<EpochRecord>): Digest {
    if records == [] then genesis
    else
      var n := |records| - 1;
      var r := records[n];
      StateRoot(k, StateChain(k, genesis, records[..n]), r.epoch, r.resultsRoot, r.daCommitment, r.snapshotId)
  }

  /** The fields in the order they are hashed. */
  lemma StateLayout(prev: Digest, x: EpochRecord)
    ensures var b := StatePreimage(prev, x.epoch, x.resultsRoot, x.daCommitment, x.snapshotId);
            |b| == 136 && b[..32] == prev && LeValue(b[32..40]) == x.epoch && b[40..72] == x.resultsRoot
            && b[72..104] == x.daCommitment && b[104..] == x.snapshotId
  {
    hide LeBytes, LeValue;
    LeBytesValue64(x.epoch);
    var b := StatePreimage(prev, x.epoch, x.resultsRoot, x.daCommitment, x.snapshotId);
    assert b[32..40] == LeBytes(x.epoch, 8);
  }

  lemma StatePreimageBinds(p: Digest, x: EpochRecord, q: Digest, y: EpochRecord)
    requires StatePreimage(p, x.epoch, x.resultsRoot, x.daCommitment, x.snapshotId)
          == StatePreimage(q, y.epoch, y.resultsRoot, y.daCommitment, y.snapshotId)
    ensures p == q && x == y
  {
    hide LeBytes;
    SplitEqual(p, LeBytes(x.epoch, 8) + (x.resultsRoot + (x.daCommitment + x.snapshotId)),
               q, LeBytes(y.epoch, 8) + (y.resultsRoot + (y.daCommitment + y.snapshotId)));
    SplitEqual(LeBytes(x.epoch, 8), x.resultsRoot + (x.daCommitment + x.snapshotId),
               LeBytes(y.epoch, 8), y.resultsRoot + (y.daCommitment + y.snapshotId));
    SplitEqual(x.resultsRoot, x.daCommitment + x.snapshotId, y.resultsRoot, y.daCommitment + y.snapshotId);
    SplitEqual(x.daCommitment, x.snapshotId, y.daCommitment, y.snapshotId);
    LeBytesValue64(x.epoch);
    LeBytesValue64(y.epoch);
  }

  lemma LeBytesValue64(n: U64)
    ensures LeValue(LeBytes(n, 8)) == n
  {
    hide Pow2, LeBytes, LeValue;
    PowByte();
    Pow2Sum(8, 8);
    Pow2Sum(16, 16);
    Pow2Sum(32, 32);
    LeBytesValue(n, 8);
  }

  /** Compares two chains from their last epochs back. */
  function ChainClash(k: Sha, genesis: Digest, a: seq<EpochRecord>, b: seq<EpochRecord>): (c: Clash)
    ensures c.Genuine(k)
    decreases |a|
  {
    if a == [] || b == [] then NoClash
    else
      var m, n := |a| - 1, |b| - 1;
      var x, y := a[m], b[n];
      Compare(k, StatePreimage(StateChain(k, genesis, a[..m]), x.epoch, x.resultsRoot, x.daCommitment, x.snapshotId),
                 StatePreimage(StateChain(k, genesis, b[..n]), y.epoch, y.resultsRoot, y.daCommitment, y.snapshotId))
      .Else(ChainClash(k, genesis, a[..m], b[..n]))
  }

  /** The shorter history ends the longer one, and what the longer one has before that leads back to genesis. */
  ghost predicate SameHistoryTail(k: Sha, genesis: Digest, a: seq<EpochRecord>, b: seq<EpochRecord>)
    requires |a| <= |b|
  {
    a == b[|b| - |a|..] && StateChain(k, genesis, b[..|b| - |a|]) == genesis
  }

  /**
   What a state root commits to, exactly: two histories, whatever their lengths, have one root when and
   only when the shorter one ends the longer one and the rest of it leads back to the genesis root, or
   a collision shows. Histories of one length are therefore equal.
   */
  lemma {:induction false} StateChainBinds(k: Sha, genesis: Digest, a: seq<EpochRecord>, b: seq<EpochRecord>)
    requires |a| <= |b| && ChainClash(k, genesis, a, b).NoClash?
    ensures StateChain(k, genesis, a) == StateChain(k, genesis, b) <==> SameHistoryTail(k, genesis, a, b)
    ensures |a| == |b| && StateChain(k, genesis, a) == StateChain(k, genesis, b) ==> a == b
    decreases |a|
  {
    hide StatePreimage, Compare;
    if a == [] {
      assert b[..|b|] == b && b[|b|..] == [];
    } else {
      var m, n := |a| - 1, |b| - 1;
      StateChainBinds(k, genesis, a[..m], b[..n]);
      if StateChain(k, genesis, a) == StateChain(k, genesis, b) {
        StatePreimageBinds(StateChain(k, genesis, a[..m]), a[m], StateChain(k, genesis, b[..n]), b[n]);
      }
      HistoryTailSnoc(k, genesis, a, b);
    }
  }

  lemma {:induction false} HistoryTailSnoc(k: Sha, genesis: Digest, a: seq<EpochRecord>, b: seq<EpochRecord>)
    requires a != [] && |a| <= |b|
    ensures SameHistoryTail(k, genesis, a, b)
            <==> SameHistoryTail(k, genesis, a[..|a| - 1], b[..|b| - 1]) && a[|a| - 1] == b[|b| - 1]
  {
    hide StateChain;
    var m, n := |a| - 1, |b| - 1;
    TailOfFront(b, n - m);
    FrontOfFront(b, n - m);
    assert a == a[..m] + [a[m]];
  }

  /** One epoch as it was aggregated. */
  datatype Epoch = Epoch(p: Params, snapshotId: Digest, results: seq<ShardResult>)

  /** It was accepted, and what it puts into the chain has 32 bytes a field. */
  ghost predicate Accepted(k: Sha, e: Epoch) { Aggregated(k, e.p, e.snapshotId, e.results).Ok? && |e.p.daCommitment| == 32 }

  ghost function ValuesOf(k: Sha, e: Epoch): PublicValues
    requires Accepted(k, e)
  {
    Aggregated(k, e.p, e.snapshotId, e.results).value.pv
  }

  /** The state root published last. */
  ghost function LatestRoot(k: Sha, genesis: Digest, es: seq<Epoch>): Digest
    requires forall i :: 0 <= i < |es| ==> Accepted(k, es[i])
  {
    if es == [] then genesis else ValuesOf(k, es[|es| - 1]).newStateRoot
  }

  /** Accepted epochs, each started from the state root the one before had published. */
  ghost predicate History(k: Sha, genesis: Digest, es: seq<Epoch>) {
    && (forall i :: 0 <= i < |es| ==> Accepted(k, es[i]))
    && forall i :: 0 <= i < |es| ==> es[i].p.prevStateRoot == LatestRoot(k, genesis, es[..i])
  }

  /** What the epochs put into the chain. */
  ghost function RecordsOf(k: Sha, es: seq<Epoch>): (records: seq<EpochRecord>)
    requires forall i :: 0 <= i < |es| ==> Accepted(k, es[i])
    ensures |records| == |es|
  {
    if es == [] then []
    else
      var e := es[|es| - 1];
      RecordsOf(k, es[..|es| - 1]) + [EpochRecord(e.p.epoch, ValuesOf(k, e).resultsRoot, e.p.daCommitment, e.snapshotId)]
  }

  lemma EpochLinks(k: Sha, e: Epoch)
    requires Accepted(k, e)
    ensures ValuesOf(k, e).newStateRoot
         == StateRoot(k, e.p.prevStateRoot, e.p.epoch, ValuesOf(k, e).resultsRoot, e.p.daCommitment, e.snapshotId)
  {
    hide Aggregated, StateRoot;
    PublishedValues(k, e.p, e.snapshotId, e.results);
  }

  lemma HistoryFront(k: Sha, genesis: Digest, es: seq<Epoch>)
    requires History(k, genesis, es) && es != []
    ensures History(k, genesis, es[..|es| - 1])
  {
    hide Accepted, ValuesOf;
    var front := es[..|es| - 1];
    assert forall i :: 0 <= i < |front| ==> front[..i] == es[..i];
  }

  /** The state roots that accepted epochs publish are the state chain over their records. */
  lemma {:induction false} HistoryIsChain(k: Sha, genesis: Digest, es: seq<Epoch>)
    requires History(k, genesis, es)
    ensures LatestRoot(k, genesis, es) == StateChain(k, genesis, RecordsOf(k, es))
    decreases |es|
  {
    hide Accepted, ValuesOf, StateRoot;
    if es == [] {
    } else {
      var n := |es| - 1;
      HistoryFront(k, genesis, es);
      HistoryIsChain(k, genesis, es[..n]);
      EpochLinks(k, es[n]);
      assert RecordsOf(k, es)[..n] == RecordsOf(k, es[..n]);
    }
  }

  /** So two histories of as many accepted epochs that publish one state root settled the same results roots, or a collision shows. */
  lemma OneRootOneHistory(k: Sha, genesis: Digest, a: seq<Epoch>, b: seq<Epoch>)
    requires History(k, genesis, a) && History(k, genesis, b) && |a| == |b|
    requires LatestRoot(k, genesis, a) == LatestRoot(k, genesis, b)
    requires ChainClash(k, genesis, RecordsOf(k, a), RecordsOf(k, b)).NoClash?
    ensures RecordsOf(k, a) == RecordsOf(k, b)
  {
    hide Accepted, LatestRoot, RecordsOf, StateChain, ChainClash;
    HistoryIsChain(k, genesis, a);
    HistoryIsChain(k, genesis, b);
    StateChainBinds(k, genesis, RecordsOf(k, a), RecordsOf(k, b));
  }
}
