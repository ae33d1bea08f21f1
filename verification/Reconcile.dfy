/**
 Joining the results of several workers into the verdicts of an epoch. A result is dropped for no
 reason but a fault, and a fault anywhere fails the whole epoch.
 */
module Reconcile {
  import opened Bytes
  import opened Lists
  import opened Verdicts
  import opened Wrappers

  type DealKey = (ByteString, ByteString)
  type Cell = (int, int)
  type VerdictMap = map<DealKey, Verdict>

  datatype Failure = SnapshotMismatch | CardinalityMismatch | CoverageGap | Malformed

  /** What one worker proved about one cell. */
  datatype ShardResult = ShardResult(
    deadline: int, shard: int, snapshotId: ByteString, expectedCount: int, verdicts: VerdictMap,
    windowSaturation: Option<int>, resultsRoot: Digest)
  {
    function Cell(): Cell { (deadline, shard) }
  }

  datatype EpochVerdicts = EpochVerdicts(
    verdicts: VerdictMap, snapshotId: Option<ByteString>, coveredCells: set<Cell>,
    coveredShards: set<int>, cellExpected: map<Cell, int>)

  const NOTHING: EpochVerdicts := EpochVerdicts(map[], None, {}, {}, map[])

  /** Verdicts of both, the stronger one where both have one; of the second only those in `ks`. */
  function MergeOn(a: VerdictMap, b: VerdictMap, ks: set<DealKey>): VerdictMap
    requires ks <= b.Keys
  {
    map k | k in a.Keys + ks :: if k !in ks then a[k] else if k !in a then b[k] else Verdicts.Reconcile(a[k], b[k])
  }

  function Merge(a: VerdictMap, b: VerdictMap): VerdictMap { MergeOn(a, b, b.Keys) }

  /** Takes one more result in, or says what is wrong with it. */
  function Step(out: EpochVerdicts, res: ShardResult): Result<EpochVerdicts, Failure> {
    if out.snapshotId.Some? && out.snapshotId.value != res.snapshotId then Err(SnapshotMismatch)
    else if res.Cell() in out.cellExpected && out.cellExpected[res.Cell()] != res.expectedCount then Err(CardinalityMismatch)
    else if |res.verdicts| != res.expectedCount then Err(CardinalityMismatch)
    else Ok(EpochVerdicts(
      Merge(out.verdicts, res.verdicts), Some(res.snapshotId), out.coveredCells + {res.Cell()},
      out.coveredShards + {res.shard}, out.cellExpected[res.Cell() := res.expectedCount]))
  }

  function Reconciled(results: seq<ShardResult>): Result<EpochVerdicts, Failure>
    decreases |results|
  {
    if results == [] then Ok(NOTHING)
    else
      var before := Reconciled(results[..|results| - 1]);
      if before.Err? then before else Step(before.value, results[|results| - 1])
  }

  lemma MergeOne(a: VerdictMap, b: VerdictMap, ks: set<DealKey>, k: DealKey)
    requires ks <= b.Keys && k in b && k !in ks
    ensures MergeOn(a, b, ks + {k}) == MergeOn(a, b, ks)[k := if k in a then Verdicts.Reconcile(a[k], b[k]) else b[k]]
    ensures k in MergeOn(a, b, ks) <==> k in a
    ensures k in a ==> MergeOn(a, b, ks)[k] == a[k]
  {
  }

  method MergeInto(a: VerdictMap, b: VerdictMap) returns (merged: VerdictMap)
    ensures merged == Merge(a, b)
  {
    hide MergeOn, Verdicts.Reconcile;
    NothingMerged(a, b);
    merged := a;
    var keys := b.Keys;
    while keys != {}
      invariant keys <= b.Keys && merged == MergeOn(a, b, b.Keys - keys)
      decreases |keys|
    {
      var key :| key in keys;
      MergeOne(a, b, b.Keys - keys, key);
      merged := merged[key := if key in merged then Verdicts.Reconcile(merged[key], b[key]) else b[key]];
      assert b.Keys - keys + {key} == b.Keys - (keys - {key});
      keys := keys - {key};
    }
    assert b.Keys - {} == b.Keys;
  }

  lemma NothingMerged(a: VerdictMap, b: VerdictMap)
    ensures b.Keys - b.Keys == {} && MergeOn(a, b, {}) == a
  {
  }

  method ReconcileShardResults(results: seq<ShardResult>) returns (r: Result<EpochVerdicts, Failure>)
    ensures r == Reconciled(results)
  {
    hide Merge, Step;
    var out := NOTHING;
    for i := 0 to |results|
      invariant Reconciled(results[..i]) == Ok(out)
    {
      var res := results[i];
      assert results[..i + 1][..i] == results[..i];
      ErrorStays(results, i + 1);
      StepIs(out, res);
      if out.snapshotId.Some? && out.snapshotId.value != res.snapshotId {
        return Err(SnapshotMismatch);
      }
      if res.Cell() in out.cellExpected && out.cellExpected[res.Cell()] != res.expectedCount {
        return Err(CardinalityMismatch);
      }
      if |res.verdicts| != res.expectedCount {
        return Err(CardinalityMismatch);
      }
      var merged := MergeInto(out.verdicts, res.verdicts);
      out := EpochVerdicts(merged, Some(res.snapshotId), out.coveredCells + {res.Cell()},
                           out.coveredShards + {res.shard}, out.cellExpected[res.Cell() := res.expectedCount]);
    }
    assert results[..|results|] == results;
    return Ok(out);
  }

  lemma StepIs(out: EpochVerdicts, res: ShardResult)
    ensures Step(out, res) ==
            if out.snapshotId.Some? && out.snapshotId.value != res.snapshotId then Err(SnapshotMismatch)
            else if res.Cell() in out.cellExpected && out.cellExpected[res.Cell()] != res.expectedCount then Err(CardinalityMismatch)
            else if |res.verdicts| != res.expectedCount then Err(CardinalityMismatch)
            else Ok(EpochVerdicts(
              Merge(out.verdicts, res.verdicts), Some(res.snapshotId), out.coveredCells + {res.Cell()},
              out.coveredShards + {res.shard}, out.cellExpected[res.Cell() := res.expectedCount]))
  {
  }

  lemma {:induction false} ErrorStays(results: seq<ShardResult>, n: nat)
    requires n <= |results|
    ensures Reconciled(results[..n]).Err? ==> Reconciled(results) == Reconciled(results[..n])
    decreases |results|
  {
    hide Step;
    if n < |results| {
      ErrorStays(results[..|results| - 1], n);
      assert results[..|results| - 1][..n] == results[..n];
    } else {
      assert results[..n] == results;
    }
  }

  // --- what acceptance and the result mean, whatever the order ------------------------

  predicate Complete(results: seq<ShardResult>) { forall r :: r in results ==> |r.verdicts| == r.expectedCount }

  predicate OneSnapshot(results: seq<ShardResult>) {
    forall r, s :: r in results && s in results ==> r.snapshotId == s.snapshotId
  }

  predicate SizesAgree(results: seq<ShardResult>) {
    forall r, s :: r in results && s in results && r.Cell() == s.Cell() ==> r.expectedCount == s.expectedCount
  }

  /** Each result answers for all it should, and no two of them disagree on the registry or on a cell's size. */
  predicate Consistent(results: seq<ShardResult>) { Complete(results) && OneSnapshot(results) && SizesAgree(results) }

  function CellsOf(results: seq<ShardResult>): set<Cell> { set r | r in results :: r.Cell() }

  function ShardsOf(results: seq<ShardResult>): set<int> { set r | r in results :: r.shard }

  function KeysOf(results: seq<ShardResult>): set<DealKey> { set r, k | r in results && k in r.verdicts :: k }

  /** The verdict on a key is the strongest any result gives. */
  predicate Strongest(results: seq<ShardResult>, k: DealKey, v: Verdict) {
    && (forall r :: r in results && k in r.verdicts ==> r.verdicts[k].AtMost(v))
    && (exists r :: r in results && k in r.verdicts && r.verdicts[k] == v)
  }

  predicate AllStrongest(results: seq<ShardResult>, verdicts: VerdictMap) {
    verdicts.Keys == KeysOf(results) && forall k :: k in verdicts ==> Strongest(results, k, verdicts[k])
  }

  predicate SizesRecorded(results: seq<ShardResult>, sizes: map<Cell, int>) {
    sizes.Keys == CellsOf(results) && forall r :: r in results ==> r.Cell() in sizes && sizes[r.Cell()] == r.expectedCount
  }

  function SnapshotOf(results: seq<ShardResult>): Option<ByteString> {
    if results == [] then None else Some(results[0].snapshotId)
  }

  /** An epoch's verdicts sum up a collection of results. */
  predicate Sums(results: seq<ShardResult>, ev: EpochVerdicts) {
    && AllStrongest(results, ev.verdicts)
    && ev.snapshotId == SnapshotOf(results)
    && ev.coveredCells == CellsOf(results)
    && ev.coveredShards == ShardsOf(results)
    && SizesRecorded(results, ev.cellExpected)
  }

  lemma MembersSnoc(before: seq<ShardResult>, res: ShardResult)
    ensures forall r :: r in before + [res] <==> r in before || r == res
    ensures CellsOf(before + [res]) == CellsOf(before) + {res.Cell()}
    ensures ShardsOf(before + [res]) == ShardsOf(before) + {res.shard}
    ensures KeysOf(before + [res]) == KeysOf(before) + res.verdicts.Keys
  {
    var all := before + [res];
    assert res in all && forall r :: r in before ==> r in all;
    forall k | k in KeysOf(before) + res.verdicts.Keys ensures k in KeysOf(all) {
      if k in KeysOf(before) {
        var r :| r in before && k in r.verdicts;
      }
    }
  }

  lemma SnapshotStep(before: seq<ShardResult>, res: ShardResult)
    requires OneSnapshot(before)
    ensures OneSnapshot(before + [res]) <==> SnapshotOf(before) == None || SnapshotOf(before).value == res.snapshotId
  {
    var all := before + [res];
    assert res in all && forall r :: r in before ==> r in all;
    if before != [] {
      assert before[0] in before;
    }
  }

  lemma SizesStep(before: seq<ShardResult>, res: ShardResult, sizes: map<Cell, int>)
    requires SizesAgree(before) && SizesRecorded(before, sizes)
    ensures SizesAgree(before + [res]) <==> !(res.Cell() in sizes && sizes[res.Cell()] != res.expectedCount)
    ensures SizesAgree(before + [res]) ==> SizesRecorded(before + [res], sizes[res.Cell() := res.expectedCount])
  {
    var all, after := before + [res], sizes[res.Cell() := res.expectedCount];
    MembersSnoc(before, res);
    if res.Cell() in sizes && sizes[res.Cell()] != res.expectedCount {
      var r :| r in before && r.Cell() == res.Cell();
      assert r in all && res in all;
    } else {
      assert SizesRecorded(all, after);
      RecordedAgree(all, after);
    }
  }

  lemma RecordedAgree(results: seq<ShardResult>, sizes: map<Cell, int>)
    requires SizesRecorded(results, sizes)
    ensures SizesAgree(results)
  {
    forall r, s | r in results && s in results && r.Cell() == s.Cell() ensures r.expectedCount == s.expectedCount {
      assert sizes[r.Cell()] == r.expectedCount;
      assert sizes[s.Cell()] == s.expectedCount;
    }
  }

  lemma CompleteStep(before: seq<ShardResult>, res: ShardResult)
    ensures Complete(before + [res]) <==> Complete(before) && |res.verdicts| == res.expectedCount
  {
    var all := before + [res];
    assert res in all && forall r :: r in before ==> r in all;
  }

  lemma StrongestStep(before: seq<ShardResult>, res: ShardResult, verdicts: VerdictMap)
    requires AllStrongest(before, verdicts)
    ensures AllStrongest(before + [res], Merge(verdicts, res.verdicts))
  {
    hide Strongest, Verdicts.Reconcile, KeysOf;
    MembersSnoc(before, res);
    var merged := Merge(verdicts, res.verdicts);
    forall k | k in merged ensures Strongest(before + [res], k, merged[k]) {
      StrongestWith(before, res, verdicts, k);
    }
  }

  lemma StrongestWith(before: seq<ShardResult>, res: ShardResult, verdicts: VerdictMap, k: DealKey)
    requires AllStrongest(before, verdicts) && k in verdicts.Keys + res.verdicts.Keys
    ensures k in Merge(verdicts, res.verdicts) && Strongest(before + [res], k, Merge(verdicts, res.verdicts)[k])
  {
    hide Verdicts.Reconcile, Strongest, KeysOf;
    if k in verdicts {
      StrongestOld(before, res, k, verdicts[k]);
    } else {
      assert k !in KeysOf(before);
      StrongestNew(before, res, k);
    }
  }

  lemma StrongestOld(before: seq<ShardResult>, res: ShardResult, k: DealKey, v: Verdict)
    requires Strongest(before, k, v)
    ensures Strongest(before + [res], k, if k in res.verdicts then Verdicts.Reconcile(v, res.verdicts[k]) else v)
  {
    hide Verdicts.Reconcile, Verdict.Rank;
    var all := before + [res];
    assert res in all && forall r :: r in before ==> r in all;
    var r :| r in before && k in r.verdicts && r.verdicts[k] == v;
    assert r in all;
    if k in res.verdicts {
      JoinIsOne(v, res.verdicts[k]);
    }
  }

  lemma StrongestNew(before: seq<ShardResult>, res: ShardResult, k: DealKey)
    requires k !in KeysOf(before) && k in res.verdicts
    ensures Strongest(before + [res], k, res.verdicts[k])
  {
    var all := before + [res];
    assert res in all;
    assert forall r :: r in before && k in r.verdicts ==> k in KeysOf(before);
  }

  lemma JoinIsOne(a: Verdict, b: Verdict)
    ensures Verdicts.Reconcile(a, b) == a || Verdicts.Reconcile(a, b) == b
    ensures a.AtMost(Verdicts.Reconcile(a, b)) && b.AtMost(Verdicts.Reconcile(a, b))
  {
  }

  lemma StepSums(before: seq<ShardResult>, res: ShardResult, out: EpochVerdicts)
    requires Consistent(before) && Sums(before, out)
    ensures Step(out, res).Ok? <==> Consistent(before + [res])
    ensures Step(out, res).Ok? ==> Sums(before + [res], Step(out, res).value)
  {
    hide Complete, OneSnapshot, SizesAgree, AllStrongest, SizesRecorded, CellsOf, ShardsOf, KeysOf, Merge;
    MembersSnoc(before, res);
    CompleteStep(before, res);
    SnapshotStep(before, res);
    SizesStep(before, res, out.cellExpected);
    StrongestStep(before, res, out.verdicts);
    if Step(out, res).Ok? && before != [] {
      assert (before + [res])[0] == before[0];
    }
  }

  lemma ConsistentPrefix(before: seq<ShardResult>, res: ShardResult)
    requires Consistent(before + [res])
    ensures Consistent(before)
  {
    assert forall r :: r in before ==> r in before + [res];
  }

  /** Results are accepted exactly when they are consistent, and then the outcome sums them up. */
  lemma {:induction false} ReconciledMeans(results: seq<ShardResult>)
    ensures Reconciled(results).Ok? <==> Consistent(results)
    ensures Reconciled(results).Ok? ==> Sums(results, Reconciled(results).value)
    decreases |results|
  {
    hide Step, Sums, Consistent;
    if results == [] {
      NothingSums();
    } else {
      var n := |results| - 1;
      ReconciledMeans(results[..n]);
      assert results == results[..n] + [results[n]];
      if Reconciled(results[..n]).Ok? {
        StepSums(results[..n], results[n], Reconciled(results[..n]).value);
      } else if Consistent(results) {
        ConsistentPrefix(results[..n], results[n]);
      }
    }
  }

  /** Results of one registry are only ever refused for their counts. */
  lemma {:induction false} OneSnapshotFailure(results: seq<ShardResult>)
    requires OneSnapshot(results) && Reconciled(results).Err?
    ensures Reconciled(results) == Err(CardinalityMismatch)
    decreases |results|
  {
    hide Consistent, Complete, SizesAgree, AllStrongest, SizesRecorded;
    var n := |results| - 1;
    var before := results[..n];
    assert results == before + [results[n]];
    assert forall r :: r in before ==> r in results;
    if Reconciled(before).Err? {
      OneSnapshotFailure(before);
    } else {
      ReconciledMeans(before);
      SnapshotStep(before, results[n]);
    }
  }

  /**
   Which refusal: at the first result that is not consistent with those before it, another registry
   than the first result's is a snapshot mismatch, and anything else a mismatch of counts.
   */
  lemma {:induction false} Refusal(results: seq<ShardResult>) returns (n: nat)
    requires Reconciled(results).Err?
    ensures n < |results| && Consistent(results[..n]) && !Consistent(results[..n + 1])
    ensures Reconciled(results).error == if results[n].snapshotId != results[0].snapshotId then SnapshotMismatch else CardinalityMismatch
    decreases |results|
  {
    hide Consistent, Complete, SizesAgree, AllStrongest, SizesRecorded, OneSnapshot, CellsOf, ShardsOf;
    n := |results| - 1;
    var before := results[..n];
    ReconciledMeans(before);
    if Reconciled(before).Err? {
      n := Refusal(before);
      FrontOfFront(results, n);
      assert before[..n] == results[..n] && before[..n + 1] == results[..n + 1];
    } else {
      ReconciledMeans(results);
      assert results[..n + 1] == results;
    }
  }

  lemma NothingSums()
    ensures Consistent([]) && Sums([], NOTHING)
  {
  }

  /** The same results up to order and repetition. */
  ghost predicate SameResults(a: seq<ShardResult>, b: seq<ShardResult>) { forall r :: r in a <==> r in b }

  lemma StrongestUnique(a: seq<ShardResult>, k: DealKey, v: Verdict, w: Verdict)
    requires Strongest(a, k, v) && Strongest(a, k, w)
    ensures v == w
  {
  }

  lemma SameStrongest(a: seq<ShardResult>, b: seq<ShardResult>, k: DealKey, v: Verdict)
    requires SameResults(a, b) && Strongest(a, k, v)
    ensures Strongest(b, k, v)
  {
  }

  lemma SameSets(a: seq<ShardResult>, b: seq<ShardResult>)
    requires SameResults(a, b)
    ensures CellsOf(a) == CellsOf(b) && ShardsOf(a) == ShardsOf(b) && KeysOf(a) == KeysOf(b)
    ensures Consistent(a) <==> Consistent(b)
    ensures OneSnapshot(a) ==> SnapshotOf(a) == SnapshotOf(b)
  {
    if a != [] {
      assert a[0] in a;
    }
    if b != [] {
      assert b[0] in b;
    }
  }

  lemma SameVerdicts(a: seq<ShardResult>, b: seq<ShardResult>, x: VerdictMap, y: VerdictMap)
    requires SameResults(a, b) && AllStrongest(a, x) && AllStrongest(b, y)
    ensures x == y
  {
    hide Strongest, KeysOf;
    SameSets(a, b);
    forall k | k in x ensures x[k] == y[k] {
      SameStrongest(a, b, k, x[k]);
      StrongestUnique(b, k, x[k], y[k]);
    }
  }

  lemma SameSizes(a: seq<ShardResult>, b: seq<ShardResult>, x: map<Cell, int>, y: map<Cell, int>)
    requires SameResults(a, b) && SizesRecorded(a, x) && SizesRecorded(b, y)
    ensures x == y
  {
    SameSets(a, b);
    forall c | c in x ensures x[c] == y[c] {
      var r :| r in a && r.Cell() == c;
      assert r in b;
    }
  }

  /** Order and repetition of the results do not matter, to acceptance or to the outcome. */
  lemma ReconciledIgnoresOrder(a: seq<ShardResult>, b: seq<ShardResult>)
    requires SameResults(a, b)
    ensures Reconciled(a).Ok? <==> Reconciled(b).Ok?
    ensures Reconciled(a).Ok? ==> Reconciled(a) == Reconciled(b)
  {
    hide Reconciled, SameResults, AllStrongest, SizesRecorded, CellsOf, ShardsOf, Complete, OneSnapshot, SizesAgree;
    ReconciledMeans(a);
    ReconciledMeans(b);
    SameSets(a, b);
    if Reconciled(a).Ok? {
      var x, y := Reconciled(a).value, Reconciled(b).value;
      SameVerdicts(a, b, x.verdicts, y.verdicts);
      SameSizes(a, b, x.cellExpected, y.cellExpected);
    }
  }

  /** One truthful worker is enough, as long as nobody can claim more than the truth. */
  lemma OneTruthfulSuffices(results: seq<ShardResult>, truthful: ShardResult, k: DealKey, truth: Verdict)
    requires Reconciled(results).Ok? && truthful in results
    requires k in truthful.verdicts && truthful.verdicts[k] == truth
    requires forall r :: r in results && k in r.verdicts ==> r.verdicts[k].AtMost(truth)
    ensures k in Reconciled(results).value.verdicts && Reconciled(results).value.verdicts[k] == truth
  {
    hide Reconciled, SizesRecorded, CellsOf, ShardsOf, Consistent;
    ReconciledMeans(results);
    assert k in KeysOf(results);
    StrongestUnique(results, k, truth, Reconciled(results).value.verdicts[k]);
  }
}
