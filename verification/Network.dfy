/**
 The simulated network: deadlines run one after the other over the open layer and the lottery, and the
 epoch is settled from their folds.
 */
module Network {
  import opened Aggregate
  import opened Blobs
  import opened Bytes
  import opened Duty
  import opened EpochCoverage
  import opened Lottery
  import opened Membership
  import opened Numbers
  import opened Publishing
  import opened Reconcile
  import opened ShardVerification
  import opened Verdicts
  import opened Wrappers
  import Clock
  import Rotation

  const WORKER_REDUNDANCY: nat := 2

  function Records(deals: seq<SimDeal>): (records: seq<DealRecord>)
    ensures |records| == |deals| && forall i :: 0 <= i < |deals| ==> records[i] == deals[i].Record()
  {
    if deals == [] then [] else Records(deals[..|deals| - 1]) + [deals[|deals| - 1].Record()]
  }

  function LogOf(deals: seq<SimDeal>): (entries: seq<MembershipEntry>)
    ensures |entries| == |deals|
    ensures forall i :: 0 <= i < |deals| ==> entries[i] == MembershipEntry(DEAL_ACTIVE, deals[i].dealId, Zeros(32))
  {
    if deals == [] then []
    else LogOf(deals[..|deals| - 1]) + [MembershipEntry(DEAL_ACTIVE, deals[|deals| - 1].dealId, Zeros(32))]
  }

  /** The registry an epoch is verified against; the height it was cut at plays no part in what follows. */
  function RegistryOf(deals: seq<SimDeal>, epoch: int, cutHeight: int): MembershipRegistry {
    MembershipRegistry(epoch, cutHeight, LogOf(deals), Records(deals))
  }

  function Due(deals: seq<SimDeal>, d: int): seq<SimDeal> {
    if deals == [] then []
    else Due(deals[..|deals| - 1], d) + if deals[|deals| - 1].deadlineIdx == d then [deals[|deals| - 1]] else []
  }

  lemma {:induction false} DueMembers(deals: seq<SimDeal>, d: int)
    ensures forall x :: x in Due(deals, d) <==> x in deals && x.deadlineIdx == d
    decreases |deals|
  {
    if deals == [] {
    } else {
      DueMembers(deals[..|deals| - 1], d);
      assert deals == deals[..|deals| - 1] + [deals[|deals| - 1]];
    }
  }

  /** What building the network sets up: distinct deals with identifiers of the right sizes, each provider registered. */
  predicate WellBuilt(deals: seq<SimDeal>, signerOf: map<ByteString, ByteString>) {
    && (forall x :: x in deals ==>
          x.shard >= 0 && |x.providerCelestia| == SIGNER_SIZE && |x.providerId| == 20 && |x.dealId| == 32 && Registered(signerOf, x))
    && (forall i, j :: 0 <= i < j < |deals| ==> deals[i].Key() != deals[j].Key())
  }

  lemma WellBuiltDistinct(deals: seq<SimDeal>, signerOf: map<ByteString, ByteString>)
    requires WellBuilt(deals, signerOf)
    ensures DistinctDeals(deals) && ShardsOk(deals)
  {
    hide SimDeal.Key;
    forall x, y | x in deals && y in deals && x.Key() == y.Key() ensures x == y {
      var i :| 0 <= i < |deals| && deals[i] == x;
      var j :| 0 <= j < |deals| && deals[j] == y;
    }
  }

  /** A job that read its cell faithfully. */
  ghost predicate Truthful(deals: seq<SimDeal>, signerOf: map<ByteString, ByteString>, epoch: int, clock: Clock.Clock, w: Work) {
    w.signerOf == signerOf
    && Faithful(WantedAt(deals, signerOf, epoch, w.d, w.shard), w.observed, Due(deals, w.d), w.d, w.shard,
                clock.SlotAt(epoch, w.d).windowStart)
  }

  function Copies(w: Work, n: nat): (ws: seq<Work>)
    ensures |ws| == n && forall i :: 0 <= i < n ==> ws[i] == w
  {
    if n == 0 then [] else Copies(w, n - 1) + [w]
  }

  lemma ResultsAppend(k: Sha, registry: MembershipRegistry, a: seq<Work>, b: seq<Work>)
    ensures ResultsOf(k, registry, a + b) == ResultsOf(k, registry, a) + ResultsOf(k, registry, b)
  {
    hide ResultOf, ResultsOf;
    var ra, rb := ResultsOf(k, registry, a), ResultsOf(k, registry, b);
    forall i | 0 <= i < |a| + |b| ensures ResultsOf(k, registry, a + b)[i] == (ra + rb)[i] {
      assert (a + b)[i] == if i < |a| then a[i] else b[i - |a|];
    }
  }

  // --- every verdict is the truth -------------------------------------------------------------

  lemma {:induction false} RecordMembers(deals: seq<SimDeal>)
    ensures forall r :: r in Records(deals) <==> exists x :: x in deals && x.Record() == r
  {
    forall r | r in Records(deals) ensures exists x :: x in deals && x.Record() == r {
      var i :| 0 <= i < |deals| && Records(deals)[i] == r;
      assert deals[i] in deals;
    }
    forall x | x in deals ensures x.Record() in Records(deals) {
      var i :| 0 <= i < |deals| && deals[i] == x;
      assert Records(deals)[i] == x.Record();
    }
  }

  lemma RecordsDistinct(deals: seq<SimDeal>, signerOf: map<ByteString, ByteString>)
    requires WellBuilt(deals, signerOf)
    ensures DistinctKeys(Records(deals))
  {
    forall i, j | 0 <= i < j < |deals| ensures Records(deals)[i].Key() != Records(deals)[j].Key() {
      assert deals[i].Key() != deals[j].Key();
    }
  }

  /** Distinct keys overall are distinct keys in any cells. */
  lemma DistinctInCells(deals: seq<DealRecord>, epoch: int, cells: set<Cell>)
    requires DistinctKeys(deals)
    ensures DistinctKeys(InCells(deals, epoch, cells))
  {
    hide DealRecord.Key, CellOf;
    InCellsOfMore(deals, epoch, cells);
    FewerCellsDistinct(deals, epoch, cells, cells + Everywhere(deals, epoch));
  }

  function Everywhere(deals: seq<DealRecord>, epoch: int): set<Cell> { set x | x in deals :: CellOf(epoch, x) }

  lemma AllCells(deals: seq<DealRecord>, epoch: int)
    ensures forall x :: x in deals ==> CellOf(epoch, x) in Everywhere(deals, epoch)
  {
  }

  lemma InCellsOfMore(deals: seq<DealRecord>, epoch: int, cells: set<Cell>)
    ensures InCells(deals, epoch, cells + Everywhere(deals, epoch)) == deals
  {
    AllCells(deals, epoch);
    InCellsAll(deals, epoch, cells + Everywhere(deals, epoch));
  }

  lemma {:induction false} InCellsAll(deals: seq<DealRecord>, epoch: int, cells: set<Cell>)
    requires forall x :: x in deals ==> CellOf(epoch, x) in cells
    ensures InCells(deals, epoch, cells) == deals
    decreases |deals|
  {
    hide CellOf;
    if deals == [] {
    } else {
      InCellsAll(deals[..|deals| - 1], epoch, cells);
      assert deals == deals[..|deals| - 1] + [deals[|deals| - 1]];
    }
  }

  lemma DealIsExpected(deals: seq<SimDeal>, epoch: int, d: int, s: int, x: SimDeal)
    requires x in deals && InCell(x, d, s)
    ensures x.Record() in RegistryOf(deals, epoch, 0).ExpectedFor(d, s) && x.Key() in KeySet(RegistryOf(deals, epoch, 0).ExpectedFor(d, s))
  {
    hide InKeyOrder;
    ExpectedForMeans(RegistryOf(deals, epoch, 0), d, s);
    RecordMembers(deals);
    MemberKey(RegistryOf(deals, epoch, 0).ExpectedFor(d, s), x.Record());
  }

  function WantedAt(deals: seq<SimDeal>, signerOf: map<ByteString, ByteString>, epoch: int, d: int, s: int): Wanted {
    CellWanted(RegistryOf(deals, epoch, 0).ExpectedFor(d, s), signerOf, epoch * DEADLINE_STRIDE + d, s)
  }

  lemma DealIsJudged(deals: seq<SimDeal>, signerOf: map<ByteString, ByteString>, epoch: int, clock: Clock.Clock, w: Work, x: SimDeal)
    requires WellBuilt(deals, signerOf) && Truthful(deals, signerOf, epoch, clock, w) && x in deals && InCell(x, w.d, w.shard)
    ensures Judge(Best(WantedAt(deals, signerOf, epoch, w.d, w.shard), w.observed), x.Record()) == x.Truth()
  {
    hide Faithful, Best, Registered, Judge, SimDeal.Truth, DistinctDeals, WellBuilt, RegistryOf, MembershipRegistry.ExpectedFor, KeySet;
    DealIsExpected(deals, epoch, w.d, w.shard, x);
    DealIsRegistered(deals, signerOf, x);
    DueDistinct(deals, signerOf, w.d);
    DueMembers(deals, w.d);
    FaithfulJudges(WantedAt(deals, signerOf, epoch, w.d, w.shard), w.observed, Due(deals, w.d), w.d,
                   clock.SlotAt(epoch, w.d).windowStart, x);
  }

  /** A faithful job gives every deal of its cell the verdict it deserves. */
  lemma WorkTellsTruth(k: Sha, deals: seq<SimDeal>, signerOf: map<ByteString, ByteString>, epoch: int, clock: Clock.Clock, w: Work, x: SimDeal)
    requires WellBuilt(deals, signerOf) && Truthful(deals, signerOf, epoch, clock, w) && x in deals && InCell(x, w.d, w.shard)
    ensures var r := ResultOf(k, RegistryOf(deals, epoch, 0), w); x.Key() in r.verdicts && r.verdicts[x.Key()] == x.Truth()
  {
    hide Faithful, Best, Judge, SimDeal.Truth, Replay, CellRoot, VerdictsOver, DistinctKeys, WellBuilt, MembershipRegistry.ExpectedFor, KeySet,
         SortDeals;
    var book := RegistryOf(deals, epoch, 0);
    DealIsExpected(deals, epoch, w.d, w.shard, x);
    ExpectedDistinct(deals, signerOf, epoch, w.d, w.shard);
    VerifiedJudges(k, epoch, w.d, w.shard, book.SnapshotId(k), book.ExpectedFor(w.d, w.shard), w.observed, w.signerOf, x.Record());
    DealIsJudged(deals, signerOf, epoch, clock, w, x);
  }

  lemma DealIsRegistered(deals: seq<SimDeal>, signerOf: map<ByteString, ByteString>, x: SimDeal)
    requires WellBuilt(deals, signerOf) && x in deals
    ensures Registered(signerOf, x)
  {
  }

  lemma DueDistinct(deals: seq<SimDeal>, signerOf: map<ByteString, ByteString>, d: int)
    requires WellBuilt(deals, signerOf)
    ensures DistinctDeals(Due(deals, d)) && ShardsOk(Due(deals, d))
  {
    WellBuiltDistinct(deals, signerOf);
    DueMembers(deals, d);
  }

  lemma ExpectedDistinct(deals: seq<SimDeal>, signerOf: map<ByteString, ByteString>, epoch: int, d: int, s: int)
    requires WellBuilt(deals, signerOf)
    ensures DistinctKeys(RegistryOf(deals, epoch, 0).ExpectedFor(d, s))
  {
    hide DistinctKeys, WellBuilt, KeySet;
    var records := Records(deals);
    var mine := DealsIn(records, d, s);
    RecordsDistinct(deals, signerOf);
    DistinctInCells(records, epoch, {(epoch * DEADLINE_STRIDE + d, s)});
    OneCell(records, epoch, d, s);
    KeySetCount(mine);
    KeySetCount(SortDeals(mine));
    SameMembersSameKeys(SortDeals(mine), mine);
  }

  /**
   The leaf a deal deserves: an online provider that kept its data is paid and not slashed, one that
   lost it is slashed and not paid, one that stayed silent is neither.
   */
  predicate Tells(l: Leaf, x: SimDeal) {
    LeafKey(l) == x.Key() && l.verdict == x.Truth()
    && Pays(l, !x.offline && (!x.lost || x.Recognizable()), !x.offline && x.lost && !x.Recognizable())
  }

  lemma TruthPays(l: Leaf, x: SimDeal)
    requires LeafKey(l) == x.Key() && l.verdict == x.Truth() && Pays(l, l.verdict == PASS, l.verdict == FAIL)
    ensures Tells(l, x)
  {
    hide SimDeal.Recognizable;
  }

  /** One leaf for each deal of the grid and for nothing else, the leaf the deal deserves. */
  ghost predicate TruthSettled(leaves: seq<Leaf>, deals: seq<SimDeal>, deadlines: int, shards: int) {
    && (forall l :: l in leaves ==>
          exists x :: x in deals && InGridOf(x, deadlines, shards) && Tells(l, x))
    && (forall x :: x in deals && InGridOf(x, deadlines, shards) ==>
          exists l :: l in leaves && Tells(l, x))
    && NoKeyTwice(leaves)
  }

  predicate NoKeyTwice(leaves: seq<Leaf>) { forall i, j :: 0 <= i < j < |leaves| ==> LeafKey(leaves[i]) != LeafKey(leaves[j]) }

  predicate InGridOf(x: SimDeal, deadlines: int, shards: int) { 0 <= x.deadlineIdx < deadlines && 0 <= x.shard < shards }

  ghost predicate AllTruthful(deals: seq<SimDeal>, signerOf: map<ByteString, ByteString>, epoch: int, clock: Clock.Clock, works: seq<Work>) {
    forall w :: w in works ==> Truthful(deals, signerOf, epoch, clock, w)
  }

  /** Whatever several truthful workers say of a key, the strongest of it is the truth. */
  lemma StrongestIsTruth(k: Sha, deals: seq<SimDeal>, signerOf: map<ByteString, ByteString>, epoch: int, clock: Clock.Clock,
                         works: seq<Work>, key: DealKey, v: Verdict) returns (x: SimDeal)
    requires WellBuilt(deals, signerOf) && AllTruthful(deals, signerOf, epoch, clock, works)
    requires Strongest(ResultsOf(k, RegistryOf(deals, epoch, 0), works), key, v)
    ensures x in deals && x.Key() == key && x.Truth() == v && exists w :: w in works && InCell(x, w.d, w.shard)
  {
    hide ResultOf, Truthful, SimDeal.Truth, WellBuilt, KeySet;
    var results, book := ResultsOf(k, RegistryOf(deals, epoch, 0), works), RegistryOf(deals, epoch, 0);
    var r :| r in results && key in r.verdicts && r.verdicts[key] == v;
    var i :| 0 <= i < |results| && results[i] == r;
    var w := works[i];
    x := AnsweredDeal(k, deals, epoch, w, key);
    WorkTellsTruth(k, deals, signerOf, epoch, clock, w, x);
  }

  lemma AnsweredDeal(k: Sha, deals: seq<SimDeal>, epoch: int, w: Work, key: DealKey) returns (x: SimDeal)
    requires key in ResultOf(k, RegistryOf(deals, epoch, 0), w).verdicts
    ensures x in deals && x.Key() == key && InCell(x, w.d, w.shard)
  {
    hide Best, CellRoot, VerdictsOver, Replay, InKeyOrder;
    var book := RegistryOf(deals, epoch, 0);
    var expected := book.ExpectedFor(w.d, w.shard);
    VerifiedKeys(k, epoch, w.d, w.shard, book.SnapshotId(k), expected, w.observed, w.signerOf);
    ExpectedForMeans(book, w.d, w.shard);
    RecordMembers(deals);
    assert key in ResultOf(k, book, w).verdicts.Keys;
    var e :| e in expected && e.Key() == key;
    x :| x in deals && x.Record() == e;
  }

  lemma GridKeys(p: Params, deals: seq<SimDeal>, epoch: int, x: SimDeal)
    requires epoch == p.epoch && x in deals && InGridOf(x, p.deadlinesPerEpoch, p.nShards)
    ensures x.Key() in KeySet(GridDeals(p, RegistryOf(deals, epoch, 0)))
  {
    hide Grid;
    var records, grid := Records(deals), Grid(p.epoch, p.deadlinesPerEpoch, p.nShards);
    RecordMembers(deals);
    InCellsMembers(records, epoch, grid);
    InGrid(p.epoch, p.deadlinesPerEpoch, p.nShards, CellOf(epoch, x.Record()));
    MemberKey(GridDeals(p, RegistryOf(deals, epoch, 0)), x.Record());
  }

  lemma GridWellFormed(p: Params, deals: seq<SimDeal>, signerOf: map<ByteString, ByteString>)
    requires WellBuilt(deals, signerOf)
    ensures KeysWellFormed(KeySet(GridDeals(p, RegistryOf(deals, p.epoch, 0)))) && DistinctKeys(GridDeals(p, RegistryOf(deals, p.epoch, 0)))
  {
    hide Grid, DistinctKeys;
    var records, grid := Records(deals), Grid(p.epoch, p.deadlinesPerEpoch, p.nShards);
    RecordMembers(deals);
    InCellsMembers(records, p.epoch, grid);
    RecordsDistinct(deals, signerOf);
    DistinctInCells(records, p.epoch, grid);
  }

  /**
   Truthful jobs on every cell of the grid settle the epoch, and settle every deal of the grid, once,
   with the verdict it deserves.
   */
  lemma TruthfulEpochSettlesTruth(k: Sha, p: Params, deals: seq<SimDeal>, signerOf: map<ByteString, ByteString>, clock: Clock.Clock, works: seq<Work>)
    requires WellBuilt(deals, signerOf) && p.requireFullCoverage
    requires AllTruthful(deals, signerOf, p.epoch, clock, works) && CoversGrid(p, RegistryOf(deals, p.epoch, 0), works)
    ensures var book := RegistryOf(deals, p.epoch, 0);
            var outcome := Aggregated(k, p, book.SnapshotId(k), ResultsOf(k, book, works));
            outcome.Ok? && TruthSettled(outcome.value.leaves, deals, p.deadlinesPerEpoch, p.nShards)
  {
    hide Grid, GridDeals, DistinctKeys, KeysWellFormed, WellBuilt, AllTruthful, CoversGrid, Aggregated, ResultsOf, KeySet, Replay, TruthSettled,
         SettledOnce;
    var book := RegistryOf(deals, p.epoch, 0);
    GridWellFormed(p, deals, signerOf);
    CoverageIsExact(k, p, book, works);
    SettledLeavesTrue(k, p, deals, signerOf, clock, works);
  }

  lemma SettledLeavesTrue(k: Sha, p: Params, deals: seq<SimDeal>, signerOf: map<ByteString, ByteString>, clock: Clock.Clock, works: seq<Work>)
    requires WellBuilt(deals, signerOf) && p.requireFullCoverage
    requires AllTruthful(deals, signerOf, p.epoch, clock, works) && CoversGrid(p, RegistryOf(deals, p.epoch, 0), works)
    requires Aggregated(k, p, RegistryOf(deals, p.epoch, 0).SnapshotId(k), ResultsOf(k, RegistryOf(deals, p.epoch, 0), works)).Ok?
    requires SettledOnce(Aggregated(k, p, RegistryOf(deals, p.epoch, 0).SnapshotId(k), ResultsOf(k, RegistryOf(deals, p.epoch, 0), works)).value.leaves,
               KeySet(GridDeals(p, RegistryOf(deals, p.epoch, 0))))
    ensures TruthSettled(Aggregated(k, p, RegistryOf(deals, p.epoch, 0).SnapshotId(k), ResultsOf(k, RegistryOf(deals, p.epoch, 0), works)).value.leaves,
              deals, p.deadlinesPerEpoch, p.nShards)
  {
    hide Grid, GridDeals, DistinctKeys, KeysWellFormed, WellBuilt, AllTruthful, Aggregated, ResultsOf, KeySet, Replay, SimDeal.Truth, SimDeal.Key,
         Strongest, SortedKeys, SimDeal.Recognizable, Pays;
    var book := RegistryOf(deals, p.epoch, 0);
    var leaves := Aggregated(k, p, book.SnapshotId(k), ResultsOf(k, book, works)).value.leaves;
    forall l | l in leaves
      ensures exists x :: x in deals && InGridOf(x, p.deadlinesPerEpoch, p.nShards) && Tells(l, x)
    {
      var x := LeafIsTrue(k, p, deals, signerOf, clock, works, l);
    }
    forall x | x in deals && InGridOf(x, p.deadlinesPerEpoch, p.nShards)
      ensures exists l :: l in leaves && Tells(l, x)
    {
      GridKeys(p, deals, p.epoch, x);
      var l :| l in leaves && LeafKey(l) == x.Key();
      var y := LeafIsTrue(k, p, deals, signerOf, clock, works, l);
      WellBuiltDistinct(deals, signerOf);
    }
  }

  lemma LeafIsTrue(k: Sha, p: Params, deals: seq<SimDeal>, signerOf: map<ByteString, ByteString>, clock: Clock.Clock, works: seq<Work>, l: Leaf)
    returns (x: SimDeal)
    requires WellBuilt(deals, signerOf) && p.requireFullCoverage
    requires AllTruthful(deals, signerOf, p.epoch, clock, works) && CoversGrid(p, RegistryOf(deals, p.epoch, 0), works)
    requires Aggregated(k, p, RegistryOf(deals, p.epoch, 0).SnapshotId(k), ResultsOf(k, RegistryOf(deals, p.epoch, 0), works)).Ok?
    requires l in Aggregated(k, p, RegistryOf(deals, p.epoch, 0).SnapshotId(k), ResultsOf(k, RegistryOf(deals, p.epoch, 0), works)).value.leaves
    ensures x in deals && InGridOf(x, p.deadlinesPerEpoch, p.nShards) && Tells(l, x)
  {
    hide Grid, GridDeals, WellBuilt, AllTruthful, Aggregated, ResultsOf, Replay, SimDeal.Truth, SimDeal.Key, Strongest, Says, Tells;
    var book := RegistryOf(deals, p.epoch, 0);
    var results := ResultsOf(k, book, works);
    LeafIsStrongest(k, p, book.SnapshotId(k), results, l);
    LeafPays(k, p, book.SnapshotId(k), results, l);
    StrongestSays(results, LeafKey(l), l.verdict);
    x := StrongestIsTruth(k, deals, signerOf, p.epoch, clock, works, LeafKey(l), l.verdict);
    TruthPays(l, x);
  }

  // --- running it ---------------------------------------------------------------------------

  /** "ATTACKER" */
  const ATTACKER_SEED: ByteString := [65, 84, 84, 65, 67, 75, 69, 82]

  function Attacker(k: Sha): ByteString { k(ATTACKER_SEED)[..20] }

  /** A deal under attack, and how many decoys carry its labels; the attacker is not its registered signer. */
  datatype Attack = NoAttack | Attack(target: SimDeal, decoys: nat) {
    predicate Foreign(k: Sha, signerOf: map<ByteString, ByteString>) {
      Attack? ==> target.shard >= 0 && !(target.providerId in signerOf && signerOf[target.providerId] == Attacker(k))
    }
  }

  /** One shard's call of the lottery at one deadline: what was asked, and whose ids came back. */
  ghost predicate CallFor(cfg: Rotation.Config, c: Rotation.Call, k: Sha, beacon: ByteString, shard: nat, deadline: int, ids: seq<WorkerId>) {
    && c.lot == Lot(k, beacon, shard) && c.deadline == deadline
    && InRange(Rotation.Picks(cfg, c), |c.views|) && ids == Rotation.IdsAt(c.views, Rotation.Picks(cfg, c))
  }

  /** The number of a deadline counted through all epochs. */
  function Absolute(epoch: int, d: int): int { epoch * DEADLINE_STRIDE + d }

  /** The calls of one deadline, one for each shard in turn. */
  ghost predicate ShardCalls(cfg: Rotation.Config, k: Sha, beacon: ByteString, deadline: int, calls: seq<Rotation.Call>, chosen: seq<seq<WorkerId>>) {
    |calls| == |chosen| && forall s :: 0 <= s < |calls| ==> CallFor(cfg, calls[s], k, beacon, s, deadline, chosen[s])
  }

  /** A shard has a result exactly when one of its drawn workers is alive. */
  predicate Answered(works: seq<Work>, d: int, chosen: seq<seq<WorkerId>>, dead: set<WorkerId>) {
    forall s :: 0 <= s < |chosen| ==> (HasWork(works, d, s) <==> SomeLive(chosen[s], dead))
  }

  predicate WorksAt(works: seq<Work>, d: int, nShards: int) { forall w :: w in works ==> w.d == d && 0 <= w.shard < nShards }

  lemma ShardCallsSnoc(cfg: Rotation.Config, k: Sha, beacon: ByteString, deadline: int, calls: seq<Rotation.Call>, chosen: seq<seq<WorkerId>>,
                       call: Rotation.Call, ids: seq<WorkerId>)
    requires ShardCalls(cfg, k, beacon, deadline, calls, chosen) && CallFor(cfg, call, k, beacon, |calls|, deadline, ids)
    ensures ShardCalls(cfg, k, beacon, deadline, calls + [call], chosen + [ids])
  {
    hide CallFor;
  }

  lemma NothingServed(cfg: Rotation.Config, k: Sha, beacon: ByteString, deadline: int, d: int, dead: set<WorkerId>)
    ensures ShardCalls(cfg, k, beacon, deadline, [], []) && Answered([], d, [], dead) && WorksAt([], d, 0)
  {
  }

  /** One more shard served: as many copies of its job as live workers were drawn for it. */
  lemma OneMoreShard(k: Sha, registry: MembershipRegistry, deals: seq<SimDeal>, signerOf: map<ByteString, ByteString>, epoch: int,
                     clock: Clock.Clock, works: seq<Work>, w: Work, n: nat, chosen: seq<seq<WorkerId>>, ids: seq<WorkerId>, dead: set<WorkerId>)
    requires AllTruthful(deals, signerOf, epoch, clock, works) && Truthful(deals, signerOf, epoch, clock, w)
    requires w.shard == |chosen| && WorksAt(works, w.d, |chosen|) && Answered(works, w.d, chosen, dead)
    requires n > 0 <==> SomeLive(ids, dead)
    ensures var all := works + Copies(w, n);
            AllTruthful(deals, signerOf, epoch, clock, all) && WorksAt(all, w.d, |chosen| + 1) && Answered(all, w.d, chosen + [ids], dead)
            && ResultsOf(k, registry, all) == ResultsOf(k, registry, works) + ResultsOf(k, registry, Copies(w, n))
  {
    hide AllTruthful, Truthful, ResultsOf, HasWork, Copies, SomeLive;
    AddCopies(k, registry, deals, signerOf, epoch, clock, works, w, n);
    NoWorkYet(works, w.d, |chosen|);
  }

  lemma NoWorkYet(works: seq<Work>, d: int, nShards: int)
    requires WorksAt(works, d, nShards)
    ensures !HasWork(works, d, nShards)
  {
  }

  /** The calls of the deadlines in turn, one for each shard. */
  ghost predicate Rounds(cfg: Rotation.Config, k: Sha, epoch: int, beacons: seq<ByteString>, rounds: seq<seq<Rotation.Call>>,
                   chosen: seq<seq<seq<WorkerId>>>)
  {
    |rounds| == |chosen| <= |beacons| && forall d :: 0 <= d < |rounds| ==>
      |chosen[d]| == cfg.shards && ShardCalls(cfg, k, beacons[d], Absolute(epoch, d), rounds[d], chosen[d])
  }

  function Flat(rounds: seq<seq<Rotation.Call>>): seq<Rotation.Call> {
    if rounds == [] then [] else Flat(rounds[..|rounds| - 1]) + rounds[|rounds| - 1]
  }

  lemma FlatSnoc(rounds: seq<seq<Rotation.Call>>, calls: seq<Rotation.Call>)
    ensures Flat(rounds + [calls]) == Flat(rounds) + calls
  {
    assert (rounds + [calls])[..|rounds|] == rounds;
  }

  lemma RoundsSnoc(cfg: Rotation.Config, k: Sha, epoch: int, beacons: seq<ByteString>, rounds: seq<seq<Rotation.Call>>,
                   chosen: seq<seq<seq<WorkerId>>>, calls: seq<Rotation.Call>, ids: seq<seq<WorkerId>>)
    requires Rounds(cfg, k, epoch, beacons, rounds, chosen) && |rounds| < |beacons| && |ids| == cfg.shards
    requires ShardCalls(cfg, k, beacons[|rounds|], Absolute(epoch, |rounds|), calls, ids)
    ensures Rounds(cfg, k, epoch, beacons, rounds + [calls], chosen + [ids])
  {
    hide ShardCalls;
  }

  /** The rounds took the roster at the start to the one now. */
  ghost predicate Called(cfg: Rotation.Config, k: Sha, epoch: int, beacons: seq<ByteString>, dead: set<WorkerId>, start: Roster, now: Roster,
                         rounds: seq<seq<Rotation.Call>>, chosen: seq<seq<seq<WorkerId>>>)
  {
    Served(cfg, dead, start, Flat(rounds), now) && Rounds(cfg, k, epoch, beacons, rounds, chosen)
  }

  lemma {:induction false} CountAppend(a: seq<Rotation.Call>, b: seq<Rotation.Call>, e: int)
    ensures Rotation.CountIn(a + b, e, e) == Rotation.CountIn(a, e, e) + Rotation.CountIn(b, e, e)
    decreases |b|
  {
    if b == [] {
      assert a + b == a;
    } else {
      var n := |b| - 1;
      CountAppend(a, b[..n], e);
      assert (a + b)[..|a| + n] == a + b[..n] && (a + b)[|a| + n] == b[n];
    }
  }

  lemma {:induction false} CountOfOne(calls: seq<Rotation.Call>, deadline: int, e: int)
    requires forall s :: 0 <= s < |calls| ==> calls[s].deadline == deadline
    ensures Rotation.CountIn(calls, e, e) == if e == deadline then |calls| else 0
    decreases |calls|
  {
    if calls != [] {
      CountOfOne(calls[..|calls| - 1], deadline, e);
    }
  }

  /** The calls of an epoch come in the order of their deadlines, one per shard and deadline. */
  lemma {:induction false} RoundsInOrder(cfg: Rotation.Config, k: Sha, epoch: int, beacons: seq<ByteString>, rounds: seq<seq<Rotation.Call>>,
                                         chosen: seq<seq<seq<WorkerId>>>)
    requires Rounds(cfg, k, epoch, beacons, rounds, chosen)
    ensures Rotation.Ordered(Flat(rounds)) && Rotation.PerDeadline(Flat(rounds), cfg.shards)
    ensures forall c :: c in Flat(rounds) ==> Absolute(epoch, 0) <= c.deadline < Absolute(epoch, |rounds|)
    ensures forall e :: e >= Absolute(epoch, |rounds|) ==> Rotation.CountIn(Flat(rounds), e, e) == 0
    decreases |rounds|
  {
    hide CallFor;
    if rounds != [] {
      var n := |rounds| - 1;
      var before, last := Flat(rounds[..n]), rounds[n];
      RoundsInOrder(cfg, k, epoch, beacons, rounds[..n], chosen[..n]);
      forall s | 0 <= s < |last| ensures last[s].deadline == Absolute(epoch, n) {
        CallForDeadline(cfg, last[s], k, beacons[n], s, Absolute(epoch, n), chosen[n][s]);
      }
      forall e ensures Rotation.CountIn(before + last, e, e) == Rotation.CountIn(before, e, e) + if e == Absolute(epoch, n) then cfg.shards else 0 {
        CountAppend(before, last, e);
        CountOfOne(last, Absolute(epoch, n), e);
      }
    }
  }

  lemma CallForDeadline(cfg: Rotation.Config, c: Rotation.Call, k: Sha, beacon: ByteString, shard: nat, deadline: int, ids: seq<WorkerId>)
    requires CallFor(cfg, c, k, beacon, shard, deadline, ids)
    ensures c.deadline == deadline
  {
  }

  /**
   Over a whole epoch, with as many workers out of suspension as rotation asks for and all of them
   rested at the start, no worker is given two cells closer together than the cooldown allows.
   */
  lemma EpochRotates(cfg: Rotation.Config, k: Sha, epoch: int, beacons: seq<ByteString>, dead: set<WorkerId>, start: Roster, now: Roster,
                     rounds: seq<seq<Rotation.Call>>, chosen: seq<seq<seq<WorkerId>>>)
    requires Called(cfg, k, epoch, beacons, dead, start, now, rounds, chosen) && Rotation.EnoughLive(cfg, Flat(rounds))
    requires forall e :: e in start.records ==> Absolute(epoch, 0) >= e.last + cfg.cooldown + 1
    ensures var calls := Flat(rounds);
            forall i, j, w :: 0 <= i < j < |calls| && w in Rotation.Picks(cfg, calls[i]) && w in Rotation.Picks(cfg, calls[j])
              ==> calls[j].deadline - calls[i].deadline >= cfg.cooldown + 1
  {
    hide Served, Rounds, Flat, Rotation.Picks, Rotation.EnoughLive, Rotation.Run, Rotation.PerDeadline, Rotation.Ordered;
    RoundsInOrder(cfg, k, epoch, beacons, rounds, chosen);
    ServedIsRun(cfg, dead, start, Flat(rounds), now);
    if Flat(rounds) != [] {
      assert Flat(rounds)[0] in Flat(rounds);
    }
    Rotation.RotationBound(cfg, Flat(rounds), Lasts(start.records));
  }

  lemma NoneServed(cfg: Rotation.Config, dead: set<WorkerId>, now: Roster)
    requires |now.records| == cfg.n
    ensures Served(cfg, dead, now, [], now) && Flat([]) == []
  {
  }

  /** What the simulation aggregates an epoch with. */
  function EpochParams(epoch: U64, deadlines: nat, nShards: nat): Params {
    Params(epoch, deadlines, nShards, Zeros(32), Filler(0xda, 32), 812, Filler(0x7e, 20), Filler(5, 32), true)
  }

  predicate SomeLive(ids: seq<WorkerId>, dead: set<WorkerId>) { exists id :: id in ids && id !in dead }

  lemma CopiesResults(k: Sha, registry: MembershipRegistry, w: Work, n: nat)
    ensures ResultsOf(k, registry, Copies(w, n)) + [ResultOf(k, registry, w)] == ResultsOf(k, registry, Copies(w, n + 1))
  {
    hide ResultOf, ResultsOf;
  }

  lemma NoResults(k: Sha, registry: MembershipRegistry, w: Work)
    ensures ResultsOf(k, registry, Copies(w, 0)) == [] && ResultsOf(k, registry, []) == []
  {
  }

  /**
   Whatever registered providers have on the layer under the labels of deadline `d` of the epoch, or of
   a later one, is older than that deadline's window.
   */
  predicate Quiet(entries: seq<Namespaced>, signerOf: map<ByteString, ByteString>, clock: Clock.Clock, epoch: int, d: int) {
    forall e :: e in entries && FromRegistered(signerOf, e.1) ==>
      var n := e.1.header.value.deadline - epoch * DEADLINE_STRIDE;
      n >= d ==> e.1.height < clock.SlotAt(epoch, n).windowStart
  }

  class SimNetwork {
    const da: MemoryDA
    const workerPool: seq<WorkerEntry>
    const assignedCounts: AssignedCount
    const lotteryStats: LotteryStats
    const deals: seq<SimDeal>
    const signerOf: map<ByteString, ByteString>
    const clock: Clock.Clock
    const nShards: nat
    const chainId: nat
    const cooldown: nat
    const deadWorkers: set<WorkerId>

    constructor (da: MemoryDA, workerPool: seq<WorkerEntry>, assignedCounts: AssignedCount, lotteryStats: LotteryStats, deals: seq<SimDeal>,
                 signerOf: map<ByteString, ByteString>, clock: Clock.Clock, nShards: nat, chainId: nat, cooldown: nat, deadWorkers: set<WorkerId>)
      requires da.Valid() && WellBuilt(deals, signerOf) && Rotation.DistinctWorkers(workerPool)
      requires clock.p.deadlineLen >= 1 && clock.p.deadlinesPerEpoch >= 1 && clock.p.submitWindow >= 1
      ensures Valid()
      ensures this.da == da && this.workerPool == workerPool && this.assignedCounts == assignedCounts && this.lotteryStats == lotteryStats
      ensures this.deals == deals && this.signerOf == signerOf && this.clock == clock && this.nShards == nShards
      ensures this.chainId == chainId && this.cooldown == cooldown && this.deadWorkers == deadWorkers
    {
      this.da := da;
      this.workerPool := workerPool;
      this.assignedCounts := assignedCounts;
      this.lotteryStats := lotteryStats;
      this.deals := deals;
      this.signerOf := signerOf;
      this.clock := clock;
      this.nShards := nShards;
      this.chainId := chainId;
      this.cooldown := cooldown;
      this.deadWorkers := deadWorkers;
    }

    /** A well-built network on a schedule whose windows hold at least one block. */
    predicate Valid()
      reads da
    {
      da.Valid() && WellBuilt(deals, signerOf) && Rotation.DistinctWorkers(workerPool)
      && clock.p.deadlineLen >= 1 && clock.p.deadlinesPerEpoch >= 1 && clock.p.submitWindow >= 1
    }

    /** What the lottery is asked with, all through a run. */
    function Duties(): Rotation.Config {
      Rotation.Config(|workerPool|, WORKER_REDUNDANCY, cooldown, nShards, clock.p.deadlinesPerEpoch * nShards)
    }

    function Now(): Roster
      reads workerPool, assignedCounts
    {
      Roster(Views(workerPool), assignedCounts.counts)
    }

    function WindowStart(epoch: int, d: int): int { clock.SlotAt(epoch, d).windowStart }

    /** No registered provider has posted yet for deadline `d` of the epoch or a later one; others may. */
    predicate QuietFrom(epoch: int, d: int)
      reads da
    {
      Quiet(da.entries, signerOf, clock, epoch, d)
    }

    /** The online providers publish their bundles, one blob a deal. */
    method PublishBundles(deadline: int, due: seq<SimDeal>)
      requires da.Valid() && forall x :: x in due ==> x.shard >= 0 && |x.providerCelestia| == SIGNER_SIZE
      modifies da`entries
      ensures da.Valid() && da.entries == Published(old(da.entries), chainId, deadline, da.height, due)
    {
      hide Publish, Namespace, SimDeal.Payload, SimDeal.Header;
      ghost var before := da.entries;
      NothingPublished(before, chainId, deadline, da.height);
      for i := 0 to |due|
        invariant da.Valid() && da.entries == Published(before, chainId, deadline, da.height, due[..i])
      {
        var x := due[i];
        PublishedStep(before, chainId, deadline, da.height, due, i);
        PublishIs(da.entries, chainId, deadline, da.height, x);
        if !x.offline {
          var at := da.Submit(Namespace(chainId, x.shard), x.Header(deadline), x.Payload(), x.providerCelestia);
        }
      }
      assert due[..|due|] == due;
    }

    /** An outsider posts blobs under a deal's labels. */
    method PublishDecoys(deadline: int, target: SimDeal, count: nat, attacker: ByteString)
      requires da.Valid() && target.shard >= 0 && |attacker| == SIGNER_SIZE
      modifies da`entries
      ensures da.Valid() && da.entries == WithDecoys(old(da.entries), chainId, deadline, da.height, target, count, attacker)
    {
      hide Namespace, SimDeal.Header;
      for i := 0 to count
        invariant da.Valid() && da.entries == WithDecoys(old(da.entries), chainId, deadline, da.height, target, i, attacker)
      {
        var at := da.Submit(Namespace(chainId, target.shard), target.Header(deadline), Filler(255, BUNDLE_SIZE), attacker);
      }
    }

    /** What a worker on a cell reads once the window has passed. */
    function CellWork(epoch: int, d: int, shard: nat): Work
      reads da
    {
      Work(d, shard, ReadOf(da.entries, Namespace(chainId, shard), WindowStart(epoch, d), da.height), signerOf)
    }

    /**
     The drawn workers of one shard verify it, those that are alive; each is booked as delivering or
     missing, and nobody else's record changes.
     */
    method ServeShard(k: Sha, epoch: int, d: int, shard: nat, beacon: ByteString)
      returns (results: seq<ShardResult>, chosenIds: seq<WorkerId>, ghost call: Rotation.Call)
      requires Valid()
      modifies workerPool, assignedCounts, lotteryStats
      ensures call.views == old(Views(workerPool)) && call.counts == old(assignedCounts.counts)
      ensures CallFor(Duties(), call, k, beacon, shard, Absolute(epoch, d), chosenIds)
      ensures CallBooks(Duties(), deadWorkers, call, Now())
      ensures results == ResultsOf(k, RegistryOf(deals, epoch, 0), Copies(CellWork(epoch, d, shard), |results|))
      ensures results != [] <==> SomeLive(chosenIds, deadWorkers)
    {
      hide WellBuilt, Namespace, ReadOf, ResultsOf, Copies, Selected, At, Views, Verified, MembershipRegistry.ExpectedFor, SomeLive, Replay,
           AfterOutcome, Tally, Ids, Rotation.IdsAt, Rotation.Picks, OutcomesIn, CallBooks, Dated, RegistryOf;
      ghost var book, work := RegistryOf(deals, epoch, 0), CellWork(epoch, d, shard);
      NoResults(k, book, work);
      var deadline := clock.SlotAt(epoch, d).AbsoluteDeadline();
      var chosen;
      ghost var drawn;
      chosen, call, drawn := DrawShard(Duties(), k, beacon, shard, workerPool, deadline, assignedCounts, lotteryStats);
      ghost var picked, counts := Rotation.Picks(Duties(), call), assignedCounts.counts;
      NoneLive(deadWorkers);
      var registry := RegistryOf(deals, epoch, da.height);
      var expected := ExpectedFromRegistry(k, registry, registry.SnapshotId(k), epoch, d, shard);
      SameRegistry(k, deals, epoch, da.height, d, shard);
      var observed := da.Read(Namespace(chainId, shard), WindowStart(epoch, d), da.height);
      results, chosenIds := [], [];
      NoOutcomes(workerPool, drawn, deadline, deadWorkers);
      for i := 0 to |chosen|
        invariant results == ResultsOf(k, book, Copies(work, |results|))
        invariant results != [] <==> SomeLive(chosenIds, deadWorkers)
        invariant chosenIds == Ids(chosen[..i]) && assignedCounts.counts == counts
        invariant OutcomesIn(workerPool, drawn, picked[..i], deadline, deadWorkers)
      {
        var w := chosen[i];
        assert w in workerPool;
        chosenIds := chosenIds + [w.workerId];
        LiveSnoc(chosenIds[..|chosenIds| - 1], w.workerId, deadWorkers);
        AtIs(workerPool, picked, i);
        IdsSnoc(chosen, i);
        if w.workerId in deadWorkers {
          BookOutcome(w, false, deadline, workerPool, drawn, picked, i, deadWorkers);
          continue;
        }
        BookOutcome(w, true, deadline, workerPool, drawn, picked, i, deadWorkers);
        var r := VerifyShard(k, epoch, d, shard, registry.SnapshotId(k), expected.value, observed, signerOf);
        CopiesResults(k, book, work, |results|);
        results := results + [r];
      }
      assert picked[..|picked|] == picked && chosen[..|chosen|] == chosen;
      AllBooked(Duties(), deadWorkers, call, workerPool, drawn, assignedCounts.counts);
    }

    /** Publishing, decoys included, and the wait for the window to pass. */
    method OpenWindow(k: Sha, epoch: int, d: int, attack: Attack)
      requires Valid() && QuietFrom(epoch, d) && attack.Foreign(k, signerOf)
      modifies da
      ensures Valid() && da.height > WindowStart(epoch, d) && QuietFrom(epoch, d + 1)
      ensures forall s: nat :: Truthful(deals, signerOf, epoch, clock, CellWork(epoch, d, s))
    {
      hide Namespace, ReadOf, Published, WithDecoys, Faithful, RegistryOf, MembershipRegistry.ExpectedFor, KeySet;
      ghost var before := da.entries;
      var slot := clock.SlotAt(epoch, d);
      da.height := slot.windowStart;
      var due := Due(deals, d);
      DueMembers(deals, d);
      DueDistinct(deals, signerOf, d);
      PublishBundles(slot.AbsoluteDeadline(), due);
      if attack.Attack? {
        NoDecoys(da.entries, chainId, slot.AbsoluteDeadline(), da.height, attack.target, Attacker(k));
      }
      if attack.Attack? && attack.decoys > 0 {
        PublishDecoys(slot.AbsoluteDeadline(), attack.target, attack.decoys, Attacker(k));
      }
      var now := da.Advance(clock.p.submitWindow);
      WindowIsTruthful(k, deals, signerOf, epoch, clock, d, chainId, before, da.entries, da.height, attack);
    }

    /** One deadline: bundles and decoys go up, then every shard's drawn workers verify it. */
    method RunDeadline(k: Sha, epoch: int, d: int, beacon: ByteString, attack: Attack)
      returns (results: seq<ShardResult>, chosen: seq<seq<WorkerId>>, ghost works: seq<Work>, ghost calls: seq<Rotation.Call>)
      requires Valid() && QuietFrom(epoch, d) && attack.Foreign(k, signerOf)
      modifies da, workerPool, assignedCounts, lotteryStats
      ensures Valid() && QuietFrom(epoch, d + 1)
      ensures Served(Duties(), deadWorkers, old(Now()), calls, Now())
      ensures |chosen| == nShards && ShardCalls(Duties(), k, beacon, Absolute(epoch, d), calls, chosen)
      ensures results == ResultsOf(k, RegistryOf(deals, epoch, 0), works) && AllTruthful(deals, signerOf, epoch, clock, works)
      ensures WorksAt(works, d, nShards) && Answered(works, d, chosen, deadWorkers)
    {
      hide WellBuilt, Truthful, RegistryOf, ResultsOf, Copies, SomeLive, Views, Served, CallBooks, CallFor, Rotation.DistinctWorkers, Quiet, Attack.Foreign, AllTruthful, Answered, WorksAt, ShardCalls;
      OpenWindow(k, epoch, d, attack);
      label Opened:
      ghost var registry := RegistryOf(deals, epoch, 0);
      results, chosen, works, calls := [], [], [], [];
      NoResults(k, registry, Work(d, 0, [], signerOf));
      ghost var cfg, start := Duties(), Now();
      NoneServed(cfg, deadWorkers, start);
      NothingServed(cfg, k, beacon, Absolute(epoch, d), d, deadWorkers);
      NoneTruthful(deals, signerOf, epoch, clock);
      for shard := 0 to nShards
        invariant da.entries == old@Opened(da.entries) && da.height == old@Opened(da.height)
        invariant forall s: nat :: Truthful(deals, signerOf, epoch, clock, CellWork(epoch, d, s))
        invariant results == ResultsOf(k, registry, works) && AllTruthful(deals, signerOf, epoch, clock, works)
        invariant |calls| == |chosen| == shard && WorksAt(works, d, shard) && Answered(works, d, chosen, deadWorkers)
        invariant Served(cfg, deadWorkers, start, calls, Now())
        invariant ShardCalls(cfg, k, beacon, Absolute(epoch, d), calls, chosen)
      {
        var more, ids;
        ghost var call;
        more, ids, call := ServeShard(k, epoch, d, shard, beacon);
        ServedSnoc(cfg, deadWorkers, start, calls, call, Now());
        ShardCallsSnoc(cfg, k, beacon, Absolute(epoch, d), calls, chosen, call, ids);
        calls := calls + [call];
        ghost var w := CellWork(epoch, d, shard);
        OneMoreShard(k, registry, deals, signerOf, epoch, clock, works, w, |more|, chosen, ids, deadWorkers);
        results := results + more;
        works := works + Copies(w, |more|);
        chosen := chosen + [ids];
      }
    }

    /** One deadline, folded as soon as it is done. */
    method RunAndFold(k: Sha, epoch: int, d: int, beacon: ByteString, attack: Attack, sid: ByteString)
      returns (fold: Result<DeadlineFold, Failure>, chosen: seq<seq<WorkerId>>, ghost works: seq<Work>, ghost calls: seq<Rotation.Call>)
      requires Valid() && QuietFrom(epoch, d) && attack.Foreign(k, signerOf)
      modifies da, workerPool, assignedCounts, lotteryStats
      ensures Valid() && QuietFrom(epoch, d + 1)
      ensures Served(Duties(), deadWorkers, old(Now()), calls, Now())
      ensures |chosen| == nShards && ShardCalls(Duties(), k, beacon, Absolute(epoch, d), calls, chosen)
      ensures fold == Folded(Absolute(epoch, d), sid, ResultsOf(k, RegistryOf(deals, epoch, 0), works), nShards)
      ensures AllTruthful(deals, signerOf, epoch, clock, works)
      ensures WorksAt(works, d, nShards) && Answered(works, d, chosen, deadWorkers)
    {
      hide WellBuilt, RegistryOf, Folded, Served, ShardCalls, Answered, WorksAt, AllTruthful, ResultsOf, Views, Rotation.DistinctWorkers,
           Quiet, Attack.Foreign, Now, Duties, Clock.Clock.SlotAt, Absolute, Valid, QuietFrom;
      var results;
      results, chosen, works, calls := RunDeadline(k, epoch, d, beacon, attack);
      AbsoluteIs(clock, epoch, d);
      fold := FoldDeadline(clock.SlotAt(epoch, d).AbsoluteDeadline(), sid, results, nShards);
    }

    /** Every deadline in turn; the first that does not fold ends it. */
    method FoldDeadlines(k: Sha, epoch: U64, beacons: seq<ByteString>, attack: Attack)
      returns (folds: Result<seq<DeadlineFold>, Failure>, chosen: seq<seq<seq<WorkerId>>>,
               ghost rounds: seq<seq<Rotation.Call>>, ghost works: seq<Work>)
      requires Valid() && QuietFrom(epoch, 0) && attack.Foreign(k, signerOf) && |beacons| == clock.p.deadlinesPerEpoch
      modifies da, workerPool, assignedCounts, lotteryStats
      ensures Called(Duties(), k, epoch, beacons, deadWorkers, old(Now()), Now(), rounds, chosen)
      ensures folds.Err? ==> !AllServed(chosen, nShards, deadWorkers)
      ensures folds.Ok? ==> |chosen| == clock.p.deadlinesPerEpoch
                            && SoFar(k, deals, signerOf, epoch, clock, nShards, deadWorkers, folds.value, works, chosen)
    {
      hide WellBuilt, RegistryOf, Replay, Folded, AllServed, Served, ShardCalls, Answered, WorksAt, AllTruthful, ResultsOf, Views, Called,
           Rotation.DistinctWorkers, Quiet, Attack.Foreign, SoFar, Now, Duties, Absolute, Valid, QuietFrom;
      var sid := RegistryOf(deals, epoch, da.height).SnapshotId(k);
      SameRegistry(k, deals, epoch, da.height, 0, 0);
      var done: seq<DeadlineFold> := [];
      NothingYet(k, deals, signerOf, epoch, clock, nShards, deadWorkers);
      chosen, rounds, works := [], [], [];
      ghost var cfg, start := Duties(), Now();
      AtFirst(this, k, epoch, beacons);
      for d := 0 to clock.p.deadlinesPerEpoch
        invariant Valid() && QuietFrom(epoch, d) && |rounds| == |chosen| == d
        invariant Called(cfg, k, epoch, beacons, deadWorkers, start, Now(), rounds, chosen)
        invariant SoFar(k, deals, signerOf, epoch, clock, nShards, deadWorkers, done, works, chosen)
      {
        ghost var before := Now();
        var fold, ids;
        ghost var more, calls;
        fold, ids, more, calls := RunAndFold(k, epoch, d, beacons[d], attack, sid);
        DeadlineDone(cfg, k, beacons, deals, signerOf, epoch, clock, deadWorkers, start, before, Now(), rounds, done, works, chosen,
                     fold, more, ids, calls);
        rounds, chosen := rounds + [calls], chosen + [ids];
        if fold.Err? {
          return Err(fold.error), chosen, rounds, works;
        }
        done := done + [fold.value];
        works := works + more;
      }
      return Ok(done), chosen, rounds, works;
    }

    /**
     A whole epoch: every deadline folded, and the folds aggregated. It settles exactly when every cell
     had a live worker among those drawn, and then every deal of the grid is settled once: absent if its
     provider was offline, failed if the data was lost, passed otherwise, however many decoys were posted.
     */
    method RunEpoch(k: Sha, epoch: U64, beacons: seq<ByteString>, attack: Attack)
      returns (r: Result<Aggregate, Failure>, chosen: seq<seq<seq<WorkerId>>>, ghost rounds: seq<seq<Rotation.Call>>)
      requires Valid() && QuietFrom(epoch, 0) && attack.Foreign(k, signerOf) && |beacons| == clock.p.deadlinesPerEpoch
      modifies da, workerPool, assignedCounts, lotteryStats
      ensures Called(Duties(), k, epoch, beacons, deadWorkers, old(Now()), Now(), rounds, chosen)
      ensures r.Ok? <==> |chosen| == clock.p.deadlinesPerEpoch && AllServed(chosen, nShards, deadWorkers)
      ensures r.Ok? ==> TruthSettled(r.value.leaves, deals, clock.p.deadlinesPerEpoch, nShards)
      ensures r.Ok? ==> Carries(k, EpochParams(epoch, clock.p.deadlinesPerEpoch, nShards), r.value)
    {
      hide WellBuilt, Aggregated, AggregatedFolds, TruthSettled, AllServed, Views, Called, Rotation.DistinctWorkers, Quiet, Attack.Foreign,
           SoFar, Now, Duties, Carries, EpochParams, Valid, QuietFrom;
      AtFirst(this, k, epoch, beacons);
      var folds;
      ghost var works;
      folds, chosen, rounds, works := FoldDeadlines(k, epoch, beacons, attack);
      if folds.Err? {
        return Err(folds.error), chosen, rounds;
      }
      AllDeadlines(k, deals, signerOf, epoch, clock, nShards, deadWorkers, folds.value, works, chosen);
      r := AggregateEpochIncremental(k, EpochParams(epoch, clock.p.deadlinesPerEpoch, nShards), folds.value);
    }
  }

  lemma AbsoluteIs(clock: Clock.Clock, epoch: int, d: int)
    ensures clock.SlotAt(epoch, d).AbsoluteDeadline() == Absolute(epoch, d)
  {
  }

  lemma AtFirst(net: SimNetwork, k: Sha, epoch: int, beacons: seq<ByteString>)
    ensures Called(net.Duties(), k, epoch, beacons, net.deadWorkers, net.Now(), net.Now(), [], []) && net.Duties().shards == net.nShards
    ensures net.Valid() ==> WellBuilt(net.deals, net.signerOf) && net.clock.p.deadlinesPerEpoch >= 1
  {
  }

  lemma DeadlineDone(cfg: Rotation.Config, k: Sha, beacons: seq<ByteString>, deals: seq<SimDeal>, signerOf: map<ByteString, ByteString>, epoch: int,
                     clock: Clock.Clock, dead: set<WorkerId>, start: Roster, before: Roster, now: Roster, rounds: seq<seq<Rotation.Call>>,
                     folds: seq<DeadlineFold>, works: seq<Work>, chosen: seq<seq<seq<WorkerId>>>,
                     fold: Result<DeadlineFold, Failure>, more: seq<Work>, ids: seq<seq<WorkerId>>, calls: seq<Rotation.Call>)
    requires Called(cfg, k, epoch, beacons, dead, start, before, rounds, chosen) && |rounds| == |chosen| < |beacons|
    requires SoFar(k, deals, signerOf, epoch, clock, cfg.shards, dead, folds, works, chosen)
    requires Served(cfg, dead, before, calls, now) && |ids| == cfg.shards
    requires ShardCalls(cfg, k, beacons[|chosen|], Absolute(epoch, |chosen|), calls, ids)
    requires AllTruthful(deals, signerOf, epoch, clock, more) && WorksAt(more, |chosen|, cfg.shards) && Answered(more, |chosen|, ids, dead)
    requires var registry := RegistryOf(deals, epoch, 0);
             fold == Folded(Absolute(epoch, |chosen|), registry.SnapshotId(k), ResultsOf(k, registry, more), cfg.shards)
    ensures Called(cfg, k, epoch, beacons, dead, start, now, rounds + [calls], chosen + [ids])
    ensures fold.Err? ==> !AllServed(chosen + [ids], cfg.shards, dead)
    ensures fold.Ok? ==> SoFar(k, deals, signerOf, epoch, clock, cfg.shards, dead, folds + [fold.value], works + more, chosen + [ids])
  {
    hide Served, Rounds, SoFar, ShardCalls, AllTruthful, WorksAt, Answered, Folded, ResultsOf, RegistryOf, AllServed, Replay;
    ServedAppend(cfg, dead, start, Flat(rounds), before, calls, now);
    FlatSnoc(rounds, calls);
    RoundsSnoc(cfg, k, epoch, beacons, rounds, chosen, calls, ids);
    OneMoreDeadline(k, deals, signerOf, epoch, clock, cfg.shards, dead, folds, works, chosen, fold, more, ids);
  }

  /** Every deadline so far was answered in full, and its results folded. */
  ghost predicate SoFar(k: Sha, deals: seq<SimDeal>, signerOf: map<ByteString, ByteString>, epoch: int, clock: Clock.Clock, nShards: nat,
                        dead: set<WorkerId>, folds: seq<DeadlineFold>, works: seq<Work>, chosen: seq<seq<seq<WorkerId>>>)
  {
    var registry := RegistryOf(deals, epoch, 0);
    && |folds| == |chosen| && Flatten(folds) == ResultsOf(k, registry, works)
    && (forall f :: f in folds ==> f.snapshotId == registry.SnapshotId(k))
    && AllTruthful(deals, signerOf, epoch, clock, works)
    && WorksWithin(works, |chosen|, nShards) && WorksCover(works, |chosen|, nShards)
    && AllServed(chosen, nShards, dead)
  }

  lemma NothingYet(k: Sha, deals: seq<SimDeal>, signerOf: map<ByteString, ByteString>, epoch: int, clock: Clock.Clock, nShards: nat, dead: set<WorkerId>)
    ensures SoFar(k, deals, signerOf, epoch, clock, nShards, dead, [], [], [])
  {
  }

  /** One more deadline folds exactly when all its shards are served. */
  lemma OneMoreDeadline(k: Sha, deals: seq<SimDeal>, signerOf: map<ByteString, ByteString>, epoch: int, clock: Clock.Clock, nShards: nat,
                        dead: set<WorkerId>, folds: seq<DeadlineFold>, works: seq<Work>, chosen: seq<seq<seq<WorkerId>>>,
                        fold: Result<DeadlineFold, Failure>, more: seq<Work>, ids: seq<seq<WorkerId>>)
    requires SoFar(k, deals, signerOf, epoch, clock, nShards, dead, folds, works, chosen)
    requires AllTruthful(deals, signerOf, epoch, clock, more) && WorksAt(more, |chosen|, nShards)
    requires |ids| == nShards && Answered(more, |chosen|, ids, dead)
    requires var registry := RegistryOf(deals, epoch, 0);
             fold == Folded(Absolute(epoch, |chosen|), registry.SnapshotId(k), ResultsOf(k, registry, more), nShards)
    ensures fold.Err? ==> !AllServed(chosen + [ids], nShards, dead)
    ensures fold.Ok? ==> SoFar(k, deals, signerOf, epoch, clock, nShards, dead, folds + [fold.value], works + more, chosen + [ids])
  {
    hide Folded, ResultsOf, AllTruthful, RegistryOf, WorksAt, Answered, WorksWithin, WorksCover, AllServed, Flatten, AllShards, Replay;
    var registry, d, all := RegistryOf(deals, epoch, 0), |chosen|, chosen + [ids];
    SameRegistry(k, deals, epoch, 0, 0, 0);
    assert all[..d] == chosen && all[d] == ids;
    FoldSucceeds(k, registry, more, d, nShards);
    if fold.Err? {
      ShardsNotServed(all, more, d, nShards, dead);
    } else {
      ShardsServed(all, more, d, nShards, dead);
      FoldIs(Absolute(epoch, d), registry.SnapshotId(k), ResultsOf(k, registry, more), nShards);
      MoreWorks(k, registry, deals, signerOf, epoch, clock, works, more, d, nShards);
      FlattenSnoc(folds, fold.value);
    }
  }

  /** With every deadline folded, the epoch settles the truth. */
  lemma AllDeadlines(k: Sha, deals: seq<SimDeal>, signerOf: map<ByteString, ByteString>, epoch: U64, clock: Clock.Clock, nShards: nat,
                     dead: set<WorkerId>, folds: seq<DeadlineFold>, works: seq<Work>, chosen: seq<seq<seq<WorkerId>>>)
    requires WellBuilt(deals, signerOf) && |chosen| >= 1
    requires SoFar(k, deals, signerOf, epoch, clock, nShards, dead, folds, works, chosen)
    ensures AllServed(chosen, nShards, dead)
    ensures var outcome := AggregatedFolds(k, EpochParams(epoch, |chosen|, nShards), folds);
            outcome.Ok? && TruthSettled(outcome.value.leaves, deals, |chosen|, nShards)
            && Carries(k, EpochParams(epoch, |chosen|, nShards), outcome.value)
  {
    hide WellBuilt, RegistryOf, ResultsOf, AllTruthful, WorksWithin, WorksCover, AllServed, Aggregated, TruthSettled, CoversGrid, Flatten, Replay,
         Carries, ResultsRoot, Filler, Zeros;
    var registry, p := RegistryOf(deals, epoch, 0), EpochParams(epoch, |chosen|, nShards);
    SameRegistry(k, deals, epoch, 0, 0, 0);
    CoversAll(p, registry, works);
    TruthfulEpochSettlesTruth(k, p, deals, signerOf, clock, works);
    PublishedValues(k, p, registry.SnapshotId(k), ResultsOf(k, registry, works));
    assert folds[0] in folds;
  }

  predicate AllServed(chosen: seq<seq<seq<WorkerId>>>, nShards: nat, dead: set<WorkerId>) {
    forall d :: 0 <= d < |chosen| ==> |chosen[d]| == nShards && forall s :: 0 <= s < nShards ==> SomeLive(chosen[d][s], dead)
  }

  predicate AllShards(works: seq<Work>, d: int, nShards: int) { forall s :: 0 <= s < nShards ==> HasWork(works, d, s) }

  predicate WorksWithin(works: seq<Work>, d: int, nShards: int) { forall w :: w in works ==> 0 <= w.d < d && 0 <= w.shard < nShards }

  predicate WorksCover(works: seq<Work>, d: int, nShards: int) {
    forall e, s :: 0 <= e < d && 0 <= s < nShards ==> HasWork(works, e, s)
  }

  lemma NoneTruthful(deals: seq<SimDeal>, signerOf: map<ByteString, ByteString>, epoch: int, clock: Clock.Clock)
    ensures AllTruthful(deals, signerOf, epoch, clock, [])
  {
  }

  /** A deadline folds exactly when every shard has a result. */
  lemma FoldSucceeds(k: Sha, registry: MembershipRegistry, works: seq<Work>, d: int, nShards: nat)
    requires WorksAt(works, d, nShards)
    ensures Folded(Absolute(registry.epoch, d), registry.SnapshotId(k), ResultsOf(k, registry, works), nShards).Ok?
            <==> AllShards(works, d, nShards)
  {
    hide ResultOf, Replay, FirstFault;
    var results, deadline := ResultsOf(k, registry, works), Absolute(registry.epoch, d);
    FirstFaultMeans(deadline, registry.SnapshotId(k), results);
    forall r | r in results ensures r.deadline == deadline && r.snapshotId == registry.SnapshotId(k) {
      var i :| 0 <= i < |results| && results[i] == r;
      assert works[i] in works;
      ResultPlace(k, registry, works[i]);
    }
    forall s ensures s in ShardsOf(results) <==> HasWork(works, d, s) {
      ShardHasWork(k, registry, works, d, s);
    }
  }

  lemma ResultPlace(k: Sha, registry: MembershipRegistry, w: Work)
    ensures var r := ResultOf(k, registry, w);
            r.deadline == registry.epoch * DEADLINE_STRIDE + w.d && r.shard == w.shard && r.snapshotId == registry.SnapshotId(k)
  {
    hide Replay, CellRoot, Best, VerdictsOver, MembershipRegistry.ExpectedFor;
  }

  lemma ShardHasWork(k: Sha, registry: MembershipRegistry, works: seq<Work>, d: int, s: int)
    requires forall w :: w in works ==> w.d == d
    ensures s in ShardsOf(ResultsOf(k, registry, works)) <==> HasWork(works, d, s)
  {
    hide ResultOf;
    var results := ResultsOf(k, registry, works);
    if s in ShardsOf(results) {
      var r :| r in results && r.shard == s;
      var i :| 0 <= i < |results| && results[i] == r;
      ResultPlace(k, registry, works[i]);
      assert works[i] in works;
    }
    if HasWork(works, d, s) {
      var w :| w in works && w.d == d && w.shard == s;
      var i :| 0 <= i < |works| && works[i] == w;
      ResultPlace(k, registry, w);
      assert results[i] in results;
    }
  }

  lemma FoldIs(deadline: int, snapshotId: ByteString, results: seq<ShardResult>, nShards: int)
    requires Folded(deadline, snapshotId, results, nShards).Ok?
    ensures Folded(deadline, snapshotId, results, nShards).value == DeadlineFold(deadline, snapshotId, results)
  {
  }

  lemma FlattenSnoc(folds: seq<DeadlineFold>, f: DeadlineFold)
    ensures Flatten(folds + [f]) == Flatten(folds) + f.shardResults
  {
    assert (folds + [f])[..|folds|] == folds;
  }

  lemma ShardsServed(chosen: seq<seq<seq<WorkerId>>>, works: seq<Work>, d: nat, nShards: nat, dead: set<WorkerId>)
    requires |chosen| == d + 1 && |chosen[d]| == nShards && AllServed(chosen[..d], nShards, dead)
    requires Answered(works, d, chosen[d], dead)
    requires AllShards(works, d, nShards)
    ensures AllServed(chosen, nShards, dead)
  {
    hide SomeLive, HasWork;
    assert forall e :: 0 <= e < d ==> chosen[..d][e] == chosen[e];
  }

  lemma ShardsNotServed(chosen: seq<seq<seq<WorkerId>>>, works: seq<Work>, d: nat, nShards: nat, dead: set<WorkerId>)
    requires |chosen| == d + 1 && |chosen[d]| == nShards
    requires Answered(works, d, chosen[d], dead)
    requires !AllShards(works, d, nShards)
    ensures !AllServed(chosen, nShards, dead)
  {
    hide SomeLive, HasWork;
    var s :| 0 <= s < nShards && !HasWork(works, d, s);
    assert !SomeLive(chosen[d][s], dead);
  }

  lemma MoreWorks(k: Sha, registry: MembershipRegistry, deals: seq<SimDeal>, signerOf: map<ByteString, ByteString>, epoch: int,
                  clock: Clock.Clock, works: seq<Work>, more: seq<Work>, d: nat, nShards: nat)
    requires AllTruthful(deals, signerOf, epoch, clock, works) && AllTruthful(deals, signerOf, epoch, clock, more)
    requires WorksWithin(works, d, nShards) && WorksCover(works, d, nShards)
    requires WorksAt(more, d, nShards)
    requires AllShards(more, d, nShards)
    ensures AllTruthful(deals, signerOf, epoch, clock, works + more)
    ensures WorksWithin(works + more, d + 1, nShards) && WorksCover(works + more, d + 1, nShards)
    ensures ResultsOf(k, registry, works + more) == ResultsOf(k, registry, works) + ResultsOf(k, registry, more)
  {
    hide AllTruthful, ResultsOf, HasWork;
    ResultsAppend(k, registry, works, more);
    TruthfulAppend(deals, signerOf, epoch, clock, works, more);
    var all := works + more;
    forall e, s | 0 <= e < d + 1 && 0 <= s < nShards ensures HasWork(all, e, s) {
      if e < d {
        HasWorkStays(works, works, more, e, s);
      } else {
        HasWorkStays(more, works, more, e, s);
      }
    }
  }

  lemma HasWorkStays(part: seq<Work>, a: seq<Work>, b: seq<Work>, d: int, s: int)
    requires (part == a || part == b) && HasWork(part, d, s)
    ensures HasWork(a + b, d, s)
  {
    var w :| w in part && w.d == d && w.shard == s;
    assert w in a + b;
  }

  lemma CoversAll(p: Params, registry: MembershipRegistry, works: seq<Work>)
    requires WorksWithin(works, p.deadlinesPerEpoch, p.nShards) && WorksCover(works, p.deadlinesPerEpoch, p.nShards)
    ensures CoversGrid(p, registry, works)
  {
  }

  lemma TruthfulAppend(deals: seq<SimDeal>, signerOf: map<ByteString, ByteString>, epoch: int, clock: Clock.Clock, a: seq<Work>, b: seq<Work>)
    requires AllTruthful(deals, signerOf, epoch, clock, a) && AllTruthful(deals, signerOf, epoch, clock, b)
    ensures AllTruthful(deals, signerOf, epoch, clock, a + b)
  {
    hide Truthful;
  }

  lemma CopiesMembers(w: Work, n: nat)
    ensures forall v :: v in Copies(w, n) <==> n > 0 && v == w
  {
    if n > 0 {
      assert Copies(w, n)[0] == w;
    }
  }

  lemma HasWorkAppend(works: seq<Work>, w: Work, n: nat)
    ensures forall v :: v in works + Copies(w, n) ==> v in works || v == w
    ensures forall d, s :: HasWork(works + Copies(w, n), d, s) <==> HasWork(works, d, s) || (n > 0 && w.d == d && w.shard == s)
  {
    hide Copies;
    CopiesMembers(w, n);
    var all := works + Copies(w, n);
    assert forall v :: v in all <==> v in works || v in Copies(w, n);
  }

  lemma AddCopies(k: Sha, registry: MembershipRegistry, deals: seq<SimDeal>, signerOf: map<ByteString, ByteString>, epoch: int,
                  clock: Clock.Clock, works: seq<Work>, w: Work, n: nat)
    requires AllTruthful(deals, signerOf, epoch, clock, works) && Truthful(deals, signerOf, epoch, clock, w)
    ensures AllTruthful(deals, signerOf, epoch, clock, works + Copies(w, n))
    ensures ResultsOf(k, registry, works + Copies(w, n)) == ResultsOf(k, registry, works) + ResultsOf(k, registry, Copies(w, n))
    ensures forall v :: v in works + Copies(w, n) ==> v in works || v == w
    ensures forall d, s :: HasWork(works + Copies(w, n), d, s) <==> HasWork(works, d, s) || (n > 0 && w.d == d && w.shard == s)
  {
    hide Truthful, ResultsOf, HasWork, Copies;
    ResultsAppend(k, registry, works, Copies(w, n));
    HasWorkAppend(works, w, n);
    CopiesMembers(w, n);
    TruthfulAppend(deals, signerOf, epoch, clock, works, Copies(w, n));
  }

  lemma WindowIsTruthful(k: Sha, deals: seq<SimDeal>, signerOf: map<ByteString, ByteString>, epoch: int, clock: Clock.Clock, d: int,
                         chainId: nat, before: seq<Namespaced>, after: seq<Namespaced>, end: int, attack: Attack)
    requires WellBuilt(deals, signerOf) && attack.Foreign(k, signerOf) && ShardsOk(Due(deals, d))
    requires clock.SlotAt(epoch, d).windowStart < end && Quiet(before, signerOf, clock, epoch, d)
    requires var start := clock.SlotAt(epoch, d).windowStart;
             var mid := Published(before, chainId, epoch * DEADLINE_STRIDE + d, start, Due(deals, d));
             after == if attack.Attack? then WithDecoys(mid, chainId, epoch * DEADLINE_STRIDE + d, start, attack.target, attack.decoys, Attacker(k)) else mid
    ensures Quiet(after, signerOf, clock, epoch, d + 1)
    ensures forall s: nat ::
              Truthful(deals, signerOf, epoch, clock, Work(d, s, ReadOf(after, Namespace(chainId, s), clock.SlotAt(epoch, d).windowStart, end), signerOf))
  {
    hide Namespace, ReadOf, Published, WithDecoys, Faithful, RegistryOf, MembershipRegistry.ExpectedFor, KeySet, WellBuilt, IsBundleBlob;
    var start, due, deadline := clock.SlotAt(epoch, d).windowStart, Due(deals, d), epoch * DEADLINE_STRIDE + d;
    DueMembers(deals, d);
    var target := if attack.Attack? then attack.target else AnyDeal();
    var decoys := if attack.Attack? then attack.decoys else 0;
    var mid := Published(before, chainId, deadline, start, due);
    NoDecoys(mid, chainId, deadline, start, target, Attacker(k));
    assert after == WithDecoys(mid, chainId, deadline, start, target, decoys, Attacker(k));
    StaysQuiet(before, chainId, signerOf, clock, epoch, d, due, target, decoys, Attacker(k));
    forall s: nat
      ensures Truthful(deals, signerOf, epoch, clock, Work(d, s, ReadOf(after, Namespace(chainId, s), start, end), signerOf))
    {
      QuietNonePass(before, signerOf, clock, epoch, d, WantedAt(deals, signerOf, epoch, d, s));
      WindowIsFaithful(before, chainId, start, end, due, target, decoys, Attacker(k), WantedAt(deals, signerOf, epoch, d, s), d);
    }
  }

  function AnyDeal(): SimDeal { SimDeal([], [], [], Filler(0, 32), 0, 0, false, false, false) }

  lemma QuietNonePass(entries: seq<Namespaced>, signerOf: map<ByteString, ByteString>, clock: Clock.Clock, epoch: int, d: int, w: Wanted)
    requires Quiet(entries, signerOf, clock, epoch, d) && w.signerOf == signerOf && w.deadline == epoch * DEADLINE_STRIDE + d
    ensures NonePass(entries, clock.SlotAt(epoch, d).windowStart, w)
  {
  }

  /** A window adds bundles under its own deadline's labels and decoys of foreign signers. */
  lemma StaysQuiet(entries: seq<Namespaced>, chainId: nat, signerOf: map<ByteString, ByteString>, clock: Clock.Clock, epoch: int, d: int,
                   due: seq<SimDeal>, target: SimDeal, count: nat, attacker: ByteString)
    requires ShardsOk(due) && target.shard >= 0 && Quiet(entries, signerOf, clock, epoch, d)
    requires count > 0 ==> !(target.providerId in signerOf && signerOf[target.providerId] == attacker)
    ensures var deadline, height := epoch * DEADLINE_STRIDE + d, clock.SlotAt(epoch, d).windowStart;
            Quiet(WithDecoys(Published(entries, chainId, deadline, height, due), chainId, deadline, height, target, count, attacker),
              signerOf, clock, epoch, d + 1)
  {
    hide Published, WithDecoys, Namespace, SimDeal.Payload;
    var deadline, height := epoch * DEADLINE_STRIDE + d, clock.SlotAt(epoch, d).windowStart;
    var mid := Published(entries, chainId, deadline, height, due);
    PublishedMembers(entries, chainId, deadline, height, due);
    DecoyMembers(mid, chainId, deadline, height, target, count, attacker);
    NoDecoys(mid, chainId, deadline, height, target, attacker);
  }

  lemma NothingPublished(entries: seq<Namespaced>, chainId: nat, deadline: int, height: int)
    ensures Published(entries, chainId, deadline, height, []) == entries
  {
  }

  lemma PublishedStep(entries: seq<Namespaced>, chainId: nat, deadline: int, height: int, due: seq<SimDeal>, i: nat)
    requires ShardsOk(due) && i < |due|
    ensures ShardsOk(due[..i]) && ShardsOk(due[..i + 1]) && due[i].shard >= 0
    ensures Published(entries, chainId, deadline, height, due[..i + 1])
         == Publish(Published(entries, chainId, deadline, height, due[..i]), chainId, deadline, height, due[i])
  {
    hide Publish;
    assert due[..i + 1][..i] == due[..i];
  }

  lemma PublishIs(entries: seq<Namespaced>, chainId: nat, deadline: int, height: int, x: SimDeal)
    requires x.shard >= 0
    ensures Publish(entries, chainId, deadline, height, x) ==
            if x.offline then entries
            else entries + [Stamped(entries, height, Namespace(chainId, x.shard), x.Header(deadline), x.Payload(), x.providerCelestia)]
  {
  }

  lemma NoneLive(dead: set<WorkerId>)
    ensures !SomeLive([], dead)
  {
  }

  lemma LiveSnoc(ids: seq<WorkerId>, id: WorkerId, dead: set<WorkerId>)
    ensures SomeLive(ids + [id], dead) <==> SomeLive(ids, dead) || id !in dead
  {
    if id !in dead {
      assert id in ids + [id];
    }
    assert forall x :: x in ids ==> x in ids + [id];
  }

  lemma IdsSnoc(ws: seq<WorkerEntry>, i: nat)
    requires i < |ws|
    ensures Ids(ws[..i + 1]) == Ids(ws[..i]) + [ws[i].workerId] && Ids(ws[..0]) == []
  {
    assert ws[..i + 1][..i] == ws[..i];
  }

  /** Where the registry was cut changes neither its value on chain nor what it expects. */
  lemma SameRegistry(k: Sha, deals: seq<SimDeal>, epoch: int, cutHeight: int, d: int, s: int)
    ensures RegistryOf(deals, epoch, cutHeight).epoch == RegistryOf(deals, epoch, 0).epoch == epoch
    ensures RegistryOf(deals, epoch, cutHeight).SnapshotId(k) == RegistryOf(deals, epoch, 0).SnapshotId(k)
    ensures RegistryOf(deals, epoch, cutHeight).ExpectedFor(d, s) == RegistryOf(deals, epoch, 0).ExpectedFor(d, s)
  {
  }
}
