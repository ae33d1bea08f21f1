/**
 Aggregation over results that were verified against one registry: exactly when it succeeds, and that
 it then settles every deal of the grid once.
 */
module EpochCoverage {
  import opened Aggregate
  import opened Blobs
  import opened Bytes
  import opened Membership
  import opened Reconcile
  import opened ShardVerification
  import opened Verdicts
  import opened Wrappers
  import SettlementTree

  /** One worker's job: a cell, what it read, and the signers it knows. */
  datatype Work = Work(d: int, shard: int, observed: seq<ObservedBlob>, signerOf: map<ByteString, ByteString>)

  ghost function ResultOf(k: Sha, registry: MembershipRegistry, w: Work): ShardResult {
    Verified(k, registry.epoch, w.d, w.shard, registry.SnapshotId(k), registry.ExpectedFor(w.d, w.shard), w.observed, w.signerOf)
  }

  ghost function ResultsOf(k: Sha, registry: MembershipRegistry, works: seq<Work>): (results: seq<ShardResult>)
    ensures |results| == |works|
    ensures forall i :: 0 <= i < |works| ==> results[i] == ResultOf(k, registry, works[i])
  {
    if works == [] then [] else [ResultOf(k, registry, works[0])] + ResultsOf(k, registry, works[1..])
  }

  function CellOf(epoch: int, x: DealRecord): Cell { (epoch * DEADLINE_STRIDE + x.deadlineIdx, x.shard) }

  /** The deals whose cell is among those given. */
  function InCells(deals: seq<DealRecord>, epoch: int, cells: set<Cell>): seq<DealRecord> {
    if deals == [] then []
    else
      var n := |deals| - 1;
      InCells(deals[..n], epoch, cells) + if CellOf(epoch, deals[n]) in cells then [deals[n]] else []
  }

  lemma {:induction false} InCellsMembers(deals: seq<DealRecord>, epoch: int, cells: set<Cell>)
    ensures forall x :: x in InCells(deals, epoch, cells) <==> x in deals && CellOf(epoch, x) in cells
    decreases |deals|
  {
    hide CellOf;
    if deals == [] {
    } else {
      InCellsMembers(deals[..|deals| - 1], epoch, cells);
      assert deals == deals[..|deals| - 1] + [deals[|deals| - 1]];
    }
  }

  lemma {:induction false} OneCell(deals: seq<DealRecord>, epoch: int, d: int, s: int)
    ensures InCells(deals, epoch, {(epoch * DEADLINE_STRIDE + d, s)}) == DealsIn(deals, d, s)
    decreases |deals|
  {
    if deals == [] {
    } else {
      OneCell(deals[..|deals| - 1], epoch, d, s);
    }
  }

  lemma {:induction false} CellsAdd(deals: seq<DealRecord>, epoch: int, cells: set<Cell>, c: Cell)
    requires c in cells
    ensures |InCells(deals, epoch, cells)| == |InCells(deals, epoch, {c})| + |InCells(deals, epoch, cells - {c})|
    decreases |deals|
  {
    hide CellOf;
    if deals == [] {
    } else {
      CellsAdd(deals[..|deals| - 1], epoch, cells, c);
    }
  }

  /** Adding up the cells' sizes counts the deals of those cells. */
  lemma {:induction false} SizesAddUp(deals: seq<DealRecord>, epoch: int, m: map<Cell, int>)
    requires forall c :: c in m ==> m[c] == |InCells(deals, epoch, {c})|
    ensures Sum(m) == |InCells(deals, epoch, m.Keys)|
    decreases |m.Keys|
  {
    hide Sum;
    if m.Keys == {} {
      SumOfNone(m);
      NoCells(deals, epoch);
    } else {
      var c :| c in m.Keys;
      assert (m - {c}).Keys == m.Keys - {c};
      SumFrom(m, c);
      SizesAddUp(deals, epoch, m - {c});
      CellsAdd(deals, epoch, m.Keys, c);
    }
  }

  lemma SumOfNone(m: map<Cell, int>)
    requires m.Keys == {}
    ensures Sum(m) == 0
  {
  }

  lemma {:induction false} NoCells(deals: seq<DealRecord>, epoch: int)
    ensures InCells(deals, epoch, {}) == []
    decreases |deals|
  {
    if deals == [] {
    } else {
      NoCells(deals[..|deals| - 1], epoch);
    }
  }

  /** Deals with distinct keys have distinct keys in fewer cells too. */
  lemma {:induction false} FewerCellsDistinct(deals: seq<DealRecord>, epoch: int, few: set<Cell>, many: set<Cell>)
    requires few <= many && DistinctKeys(InCells(deals, epoch, many))
    ensures DistinctKeys(InCells(deals, epoch, few))
    decreases |deals|
  {
    hide CellOf, DealRecord.Key, KeySet, DistinctKeys;
    if deals == [] {
    } else {
      var n := |deals| - 1;
      InCellsSnoc(deals, epoch, few);
      InCellsSnoc(deals, epoch, many);
      var below := InCells(deals[..n], epoch, many);
      if CellOf(epoch, deals[n]) in many {
        assert InCells(deals, epoch, many)[..|below|] == below;
        DistinctSnoc(InCells(deals, epoch, many));
      }
      FewerCellsDistinct(deals[..n], epoch, few, many);
      if CellOf(epoch, deals[n]) in few {
        var mine := InCells(deals[..n], epoch, few);
        assert InCells(deals, epoch, few)[..|mine|] == mine;
        FewerKeys(deals[..n], epoch, few, many);
        DistinctSnoc(InCells(deals, epoch, few));
      }
    }
  }

  lemma InCellsSnoc(deals: seq<DealRecord>, epoch: int, cells: set<Cell>)
    requires deals != []
    ensures var n := |deals| - 1;
            InCells(deals, epoch, cells) ==
            if CellOf(epoch, deals[n]) in cells then InCells(deals[..n], epoch, cells) + [deals[n]] else InCells(deals[..n], epoch, cells)
  {
    hide CellOf;
    var n := |deals| - 1;
    assert InCells(deals[..n], epoch, cells) + [] == InCells(deals[..n], epoch, cells);
  }

  lemma FewerKeys(deals: seq<DealRecord>, epoch: int, few: set<Cell>, many: set<Cell>)
    requires few <= many
    ensures KeySet(InCells(deals, epoch, few)) <= KeySet(InCells(deals, epoch, many))
  {
    hide CellOf, DealRecord.Key, InCells;
    InCellsMembers(deals, epoch, few);
    InCellsMembers(deals, epoch, many);
  }

  // --- results of one registry ----------------------------------------------------------------

  ghost predicate CoversGrid(p: Params, registry: MembershipRegistry, works: seq<Work>) {
    && (forall w :: w in works ==> 0 <= w.d < p.deadlinesPerEpoch && 0 <= w.shard < p.nShards)
    && (forall d, s :: 0 <= d < p.deadlinesPerEpoch && 0 <= s < p.nShards ==> HasWork(works, d, s))
  }

  predicate HasWork(works: seq<Work>, d: int, s: int) { exists w :: w in works && w.d == d && w.shard == s }

  function GridDeals(p: Params, registry: MembershipRegistry): seq<DealRecord> {
    InCells(registry.deals, registry.epoch, Grid(p.epoch, p.deadlinesPerEpoch, p.nShards))
  }

  /** A result answers for its cell's deals, and completely exactly when their keys are distinct. */
  ghost predicate Fits(k: Sha, registry: MembershipRegistry, r: ShardResult) {
    var mine := InCells(registry.deals, registry.epoch, {r.Cell()});
    && r.snapshotId == registry.SnapshotId(k)
    && r.expectedCount == |mine|
    && r.verdicts.Keys == KeySet(mine)
    && (|r.verdicts| == r.expectedCount <==> DistinctKeys(mine))
  }

  lemma ResultIs(k: Sha, registry: MembershipRegistry, w: Work)
    ensures var r := ResultOf(k, registry, w);
            r.Cell() == (registry.epoch * DEADLINE_STRIDE + w.d, w.shard) && Fits(k, registry, r)
  {
    hide KeySet, DistinctKeys, Replay, CellRoot, Best, InCells, DealsIn, VerdictsOver;
    var expected := registry.ExpectedFor(w.d, w.shard);
    VerifiedKeys(k, registry.epoch, w.d, w.shard, registry.SnapshotId(k), expected, w.observed, w.signerOf);
    OneCell(registry.deals, registry.epoch, w.d, w.shard);
    SameMembersSameKeys(expected, DealsIn(registry.deals, w.d, w.shard));
    KeySetCount(DealsIn(registry.deals, w.d, w.shard));
    assert |ResultOf(k, registry, w).verdicts| == |ResultOf(k, registry, w).verdicts.Keys|;
  }

  ghost predicate AllFit(k: Sha, registry: MembershipRegistry, results: seq<ShardResult>) {
    forall r :: r in results ==> Fits(k, registry, r)
  }

  lemma ResultsFit(k: Sha, registry: MembershipRegistry, works: seq<Work>)
    ensures AllFit(k, registry, ResultsOf(k, registry, works))
  {
    hide Fits, ResultOf;
    var results := ResultsOf(k, registry, works);
    forall r | r in results ensures Fits(k, registry, r) {
      var i :| 0 <= i < |results| && results[i] == r;
      ResultIs(k, registry, works[i]);
    }
  }

  lemma FittingAgree(k: Sha, registry: MembershipRegistry, results: seq<ShardResult>)
    requires AllFit(k, registry, results)
    ensures OneSnapshot(results) && SizesAgree(results)
    ensures Complete(results) <==> forall r :: r in results ==> DistinctKeys(InCells(registry.deals, registry.epoch, {r.Cell()}))
    ensures SnapshotOf(results).Some? ==> SnapshotOf(results).value == registry.SnapshotId(k)
  {
    hide KeySet, DistinctKeys, InCells, Replay;
    if results != [] {
      assert results[0] in results;
    }
  }

  lemma GridIsCovered(k: Sha, p: Params, registry: MembershipRegistry, works: seq<Work>)
    requires registry.epoch == p.epoch && CoversGrid(p, registry, works)
    ensures CellsOf(ResultsOf(k, registry, works)) == Grid(p.epoch, p.deadlinesPerEpoch, p.nShards)
  {
    hide Grid, CoversGrid, CellsOf, ResultsOf;
    var cells, grid := CellsOf(ResultsOf(k, registry, works)), Grid(p.epoch, p.deadlinesPerEpoch, p.nShards);
    forall c | c in cells ensures c in grid {
      CoveredIsInGrid(k, p, registry, works, c);
    }
    forall c | c in grid ensures c in cells {
      GridCellIsCovered(k, p, registry, works, c);
    }
  }

  lemma CoveredIsInGrid(k: Sha, p: Params, registry: MembershipRegistry, works: seq<Work>, c: Cell)
    requires registry.epoch == p.epoch && CoversGrid(p, registry, works) && c in CellsOf(ResultsOf(k, registry, works))
    ensures c in Grid(p.epoch, p.deadlinesPerEpoch, p.nShards)
  {
    hide ResultOf, Grid;
    var results := ResultsOf(k, registry, works);
    var r :| r in results && r.Cell() == c;
    var i :| 0 <= i < |results| && results[i] == r;
    ResultIs(k, registry, works[i]);
    assert works[i] in works;
    InGrid(p.epoch, p.deadlinesPerEpoch, p.nShards, c);
  }

  lemma WorkFor(p: Params, registry: MembershipRegistry, works: seq<Work>, c: Cell) returns (w: Work)
    requires CoversGrid(p, registry, works) && c in Grid(p.epoch, p.deadlinesPerEpoch, p.nShards)
    ensures w in works && (p.epoch * DEADLINE_STRIDE + w.d, w.shard) == c
  {
    hide Grid;
    InGrid(p.epoch, p.deadlinesPerEpoch, p.nShards, c);
    assert HasWork(works, c.0 - p.epoch * DEADLINE_STRIDE, c.1);
    w :| w in works && w.d == c.0 - p.epoch * DEADLINE_STRIDE && w.shard == c.1;
  }

  lemma {:induction false} GridCellIsCovered(k: Sha, p: Params, registry: MembershipRegistry, works: seq<Work>, c: Cell)
    requires registry.epoch == p.epoch && CoversGrid(p, registry, works) && c in Grid(p.epoch, p.deadlinesPerEpoch, p.nShards)
    ensures c in CellsOf(ResultsOf(k, registry, works))
  {
    hide ResultOf, Grid, Fits, CoversGrid;
    var results := ResultsOf(k, registry, works);
    var w := WorkFor(p, registry, works, c);
    var i :| 0 <= i < |works| && works[i] == w;
    ResultIs(k, registry, w);
    assert results[i] in results;
  }

  /** The keys the results answer for are the keys of the grid's deals. */
  lemma KeysAreGridKeys(k: Sha, p: Params, registry: MembershipRegistry, results: seq<ShardResult>)
    requires registry.epoch == p.epoch && AllFit(k, registry, results)
    requires CellsOf(results) == Grid(p.epoch, p.deadlinesPerEpoch, p.nShards)
    ensures KeysOf(results) == KeySet(GridDeals(p, registry))
  {
    hide Grid, InCells, DealRecord.Key, Replay, DistinctKeys;
    var deals, grid := registry.deals, Grid(p.epoch, p.deadlinesPerEpoch, p.nShards);
    InCellsMembers(deals, p.epoch, grid);
    forall key | key in KeysOf(results) ensures key in KeySet(GridDeals(p, registry)) {
      var r :| r in results && key in r.verdicts;
      assert key in r.verdicts.Keys && r.Cell() in CellsOf(results);
      FewerKeys(deals, p.epoch, {r.Cell()}, grid);
    }
    forall key | key in KeySet(GridDeals(p, registry)) ensures key in KeysOf(results) {
      var x :| x in GridDeals(p, registry) && x.Key() == key;
      var c := CellOf(p.epoch, x);
      var r :| r in results && r.Cell() == c;
      InCellsMembers(deals, p.epoch, {c});
      assert x in InCells(deals, p.epoch, {c});
      assert key in r.verdicts.Keys;
    }
  }

  predicate KeysWellFormed(keys: set<DealKey>) { forall key :: key in keys ==> |key.0| == 20 && |key.1| == 32 }

  lemma LeavesWellFormed(epoch: nat, verdicts: VerdictMap)
    requires epoch < 0x1_0000_0000_0000_0000
    ensures WellFormed(EpochLeaves(epoch, verdicts)) <==> KeysWellFormed(verdicts.Keys)
  {
    hide SortedKeys;
    SortedKeysSorts(verdicts.Keys);
    var keys := SortedKeys(verdicts.Keys);
    forall i | 0 <= i < |keys| ensures EpochLeaves(epoch, verdicts)[i].Encodable() <==> |keys[i].0| == 20 && |keys[i].1| == 32 {
      LeafEncodable(epoch, keys[i], verdicts[keys[i]]);
    }
    forall i | 0 <= i < |keys| ensures EpochLeaves(epoch, verdicts)[i] in EpochLeaves(epoch, verdicts) && keys[i] in verdicts.Keys {
    }
  }

  lemma LeafEncodable(epoch: nat, key: DealKey, v: Verdict)
    requires epoch < 0x1_0000_0000_0000_0000
    ensures LeafFor(epoch, key, v).Encodable() <==> |key.0| == 20 && |key.1| == 32
  {
    PowersBig();
    hide SettlementTree.Pow256;
  }

  lemma PowersBig()
    ensures SettlementTree.Pow256(8) == 0x1_0000_0000_0000_0000 && SettlementTree.Pow256(4) == 0x1_0000_0000
    ensures SettlementTree.Pow256(32) > 10_000_000_000_000
  {
    assert SettlementTree.Pow256(1) == 256;
    assert SettlementTree.Pow256(2) == 65536;
    assert SettlementTree.Pow256(4) == 0x1_0000_0000;
    assert SettlementTree.Pow256(6) == 0x1_0000_0000_0000;
    assert SettlementTree.Pow256(8) == 0x1_0000_0000_0000_0000;
    Pow256Grows(8, 32);
  }

  lemma {:induction false} Pow256Grows(a: nat, b: nat)
    requires a <= b
    ensures SettlementTree.Pow256(a) <= SettlementTree.Pow256(b)
    decreases b
  {
    if a >= b {
    } else {
      Pow256Grows(a, b - 1);
    }
  }

  /** Sizes recorded from results of one registry add up to the grid's deals. */
  lemma SizesAreGridDeals(k: Sha, p: Params, registry: MembershipRegistry, results: seq<ShardResult>, sizes: map<Cell, int>)
    requires registry.epoch == p.epoch && AllFit(k, registry, results) && SizesRecorded(results, sizes)
    requires CellsOf(results) == Grid(p.epoch, p.deadlinesPerEpoch, p.nShards)
    ensures Sum(sizes) == |GridDeals(p, registry)|
  {
    hide Grid, InCells, Replay, DistinctKeys, KeySet, Sum;
    forall c | c in sizes ensures sizes[c] == |InCells(registry.deals, registry.epoch, {c})| {
      var r :| r in results && r.Cell() == c;
    }
    SizesAddUp(registry.deals, registry.epoch, sizes);
  }

  /** No cell of the grid has two deals of one key. */
  ghost predicate CellsDistinct(p: Params, registry: MembershipRegistry) {
    forall c :: c in Grid(p.epoch, p.deadlinesPerEpoch, p.nShards) ==> DistinctKeys(InCells(registry.deals, registry.epoch, {c}))
  }

  /**
   Exact coverage: what becomes of results verified against one registry that cover the grid, whatever
   each worker read. A key twice in one cell is a count mismatch; a key whose parts have the wrong
   length cannot be settled; a key in two cells passes every check but the last; and everything else
   is accepted, counting the grid's deals and settling each of them with one leaf.
   */
  lemma CoverageIsExact(k: Sha, p: Params, registry: MembershipRegistry, works: seq<Work>)
    requires registry.epoch == p.epoch && p.requireFullCoverage && CoversGrid(p, registry, works)
    ensures var outcome := Aggregated(k, p, registry.SnapshotId(k), ResultsOf(k, registry, works));
            var wellFormed, distinct := KeysWellFormed(KeySet(GridDeals(p, registry))), DistinctKeys(GridDeals(p, registry));
            (outcome == Err(CardinalityMismatch) <==> !CellsDistinct(p, registry))
            && (outcome == Err(Malformed) <==> CellsDistinct(p, registry) && !wellFormed)
            && (outcome == Err(CoverageGap) <==> CellsDistinct(p, registry) && wellFormed && !distinct)
            && (outcome.Ok? <==> wellFormed && distinct)
            && (outcome.Ok? ==>
                  outcome.value.pv.numVerified == |outcome.value.leaves| == |GridDeals(p, registry)|
                  && SettledOnce(outcome.value.leaves, KeySet(GridDeals(p, registry))))
  {
    hide Grid, InCells, Fits, ResultsOf, KeySet, KeysWellFormed, DistinctKeys, CoversGrid, Sums, Replay, Settled, AllFit, Reconciled, CellsOf,
         Consistent, SettledOnce, GridDeals, CellsDistinct, OneSnapshot;
    var results := ResultsOf(k, registry, works);
    ResultsFit(k, registry, works);
    GridIsCovered(k, p, registry, works);
    ReconciledMeans(results);
    KeySetCount(GridDeals(p, registry));
    ConsistentMeansDistinct(k, p, registry, results);
    if Reconciled(results).Ok? {
      SettledExactly(k, p, registry, results, Reconciled(results).value);
    } else {
      OneSnapshotFailure(results);
    }
  }

  /** Results of one registry are consistent exactly when the keys are distinct cell by cell. */
  lemma ConsistentMeansDistinct(k: Sha, p: Params, registry: MembershipRegistry, results: seq<ShardResult>)
    requires registry.epoch == p.epoch && AllFit(k, registry, results)
    requires CellsOf(results) == Grid(p.epoch, p.deadlinesPerEpoch, p.nShards)
    ensures OneSnapshot(results) && (Consistent(results) <==> CellsDistinct(p, registry))
    ensures DistinctKeys(GridDeals(p, registry)) ==> CellsDistinct(p, registry)
  {
    hide Grid, InCells, Fits, KeySet, DistinctKeys, Replay, AllFit, Complete, OneSnapshot, SizesAgree;
    FittingAgree(k, registry, results);
    var grid := Grid(p.epoch, p.deadlinesPerEpoch, p.nShards);
    if DistinctKeys(GridDeals(p, registry)) {
      forall c | c in grid ensures DistinctKeys(InCells(registry.deals, registry.epoch, {c})) {
        FewerCellsDistinct(registry.deals, registry.epoch, {c}, grid);
      }
    }
    if CellsDistinct(p, registry) {
      forall r | r in results ensures DistinctKeys(InCells(registry.deals, registry.epoch, {r.Cell()})) {
        CellOfResult(results, r);
      }
    }
    if Complete(results) {
      forall c | c in grid ensures DistinctKeys(InCells(registry.deals, registry.epoch, {c})) {
        var r :| r in results && r.Cell() == c;
      }
    }
  }

  /** The last check is reached: one key in two cells, each verified in full. */
  lemma OneKeyInTwoCells(k: Sha, p: Params, registry: MembershipRegistry, works: seq<Work>, x: DealRecord, y: DealRecord)
    requires registry.epoch == p.epoch && p.requireFullCoverage && CoversGrid(p, registry, works)
    requires p.deadlinesPerEpoch == 1 && p.nShards == 2 && registry.deals == [x, y]
    requires x.Key() == y.Key() && |x.providerId| == 20 && |x.dealId| == 32
    requires x.InCell(0, 0) && y.InCell(0, 1)
    ensures Aggregated(k, p, registry.SnapshotId(k), ResultsOf(k, registry, works)) == Err(CoverageGap)
  {
    hide Aggregated, ResultsOf, Grid, CoversGrid, Replay;
    var grid := Grid(p.epoch, p.deadlinesPerEpoch, p.nShards);
    InGrid(p.epoch, 1, 2, CellOf(p.epoch, x));
    InGrid(p.epoch, 1, 2, CellOf(p.epoch, y));
    forall c | c in grid ensures DistinctKeys(InCells([x, y], p.epoch, {c})) {
      InGrid(p.epoch, 1, 2, c);
      TwoDeals(x, y, p.epoch, {c});
    }
    TwoDeals(x, y, p.epoch, grid);
    assert GridDeals(p, registry) == [x, y];
    assert KeySet([x, y]) == {x.Key()};
    assert [x, y][0].Key() == [x, y][1].Key() && !DistinctKeys([x, y]);
    CoverageIsExact(k, p, registry, works);
  }

  lemma TwoDeals(x: DealRecord, y: DealRecord, epoch: int, cells: set<Cell>)
    ensures InCells([x, y], epoch, cells)
            == (if CellOf(epoch, x) in cells then [x] else []) + (if CellOf(epoch, y) in cells then [y] else [])
  {
    hide CellOf;
    assert [x, y][..1] == [x] && [x][..0] == [];
    assert InCells([x], epoch, cells) == if CellOf(epoch, x) in cells then [x] else [];
  }

  lemma CellOfResult(results: seq<ShardResult>, r: ShardResult)
    requires r in results
    ensures r.Cell() in CellsOf(results)
  {
  }

  function LeafKey(l: Leaf): DealKey { (l.providerId, l.dealId) }

  /** The leaves' keys are the given ones, none twice. */
  ghost predicate SettledOnce(leaves: seq<Leaf>, keys: set<DealKey>) {
    && (forall key :: key in keys <==> exists l :: l in leaves && LeafKey(l) == key)
    && (forall i, j :: 0 <= i < j < |leaves| ==> LeafKey(leaves[i]) != LeafKey(leaves[j]))
  }

  lemma EpochLeafKeys(epoch: nat, verdicts: VerdictMap)
    ensures |EpochLeaves(epoch, verdicts)| == |SortedKeys(verdicts.Keys)|
    ensures forall i :: 0 <= i < |EpochLeaves(epoch, verdicts)| ==>
              LeafKey(EpochLeaves(epoch, verdicts)[i]) == SortedKeys(verdicts.Keys)[i]
  {
    hide SortedKeys, LeavesOf;
    SortedKeysSorts(verdicts.Keys);
  }

  lemma KeyedOnce(leaves: seq<Leaf>, keys: seq<DealKey>, all: set<DealKey>)
    requires |leaves| == |keys| && IsSorting(all, keys)
    requires forall i :: 0 <= i < |leaves| ==> LeafKey(leaves[i]) == keys[i]
    ensures SettledOnce(leaves, all)
  {
    hide LeafKey, KeyLe;
    forall key ensures key in all <==> exists l :: l in leaves && LeafKey(l) == key {
      if key in all {
        var i :| 0 <= i < |keys| && keys[i] == key;
        assert leaves[i] in leaves;
      }
      if exists l :: l in leaves && LeafKey(l) == key {
        var l :| l in leaves && LeafKey(l) == key;
        var i :| 0 <= i < |leaves| && leaves[i] == l;
        assert keys[i] in keys;
      }
    }
  }

  lemma LeavesSettleOnce(epoch: nat, verdicts: VerdictMap)
    ensures SettledOnce(EpochLeaves(epoch, verdicts), verdicts.Keys)
  {
    hide SortedKeys, IsSorting, EpochLeaves, SettledOnce, LeafKey;
    SortedKeysSorts(verdicts.Keys);
    EpochLeafKeys(epoch, verdicts);
    KeyedOnce(EpochLeaves(epoch, verdicts), SortedKeys(verdicts.Keys), verdicts.Keys);
  }

  lemma SettledExactly(k: Sha, p: Params, registry: MembershipRegistry, results: seq<ShardResult>, ev: EpochVerdicts)
    requires registry.epoch == p.epoch && p.requireFullCoverage && AllFit(k, registry, results) && Sums(results, ev)
    requires CellsOf(results) == Grid(p.epoch, p.deadlinesPerEpoch, p.nShards)
    ensures var outcome := Settled(k, p, registry.SnapshotId(k), results, ev);
            var wellFormed := KeysWellFormed(KeySet(GridDeals(p, registry)));
            var distinct := |KeySet(GridDeals(p, registry))| == |GridDeals(p, registry)|;
            (!wellFormed ==> outcome == Err(Malformed))
            && (wellFormed && !distinct ==> outcome == Err(CoverageGap))
            && (wellFormed && distinct ==> outcome.Ok?)
            && (outcome.Ok? ==>
                  outcome.value.pv.numVerified == |outcome.value.leaves| == |GridDeals(p, registry)|
                  && SettledOnce(outcome.value.leaves, KeySet(GridDeals(p, registry))))
  {
    hide Grid, InCells, Fits, KeySet, KeysWellFormed, DistinctKeys, Replay, AllFit, CellsOf, SettledOnce, EpochLeaves, Sum,
         ResultsRoot, WellFormed, Strongest, SizesRecorded, ShardsOf, NewStateRoot, MaxSaturation, RootsOf;
    FittingAgree(k, registry, results);
    KeysAreGridKeys(k, p, registry, results);
    SizesAreGridDeals(k, p, registry, results, ev.cellExpected);
    LeavesWellFormed(p.epoch, ev.verdicts);
    LeavesSettleOnce(p.epoch, ev.verdicts);
    LeavesCount(p.epoch, ev.verdicts);
  }

  lemma LeavesCount(epoch: nat, verdicts: VerdictMap)
    ensures |EpochLeaves(epoch, verdicts)| == |verdicts.Keys|
  {
  }
}
