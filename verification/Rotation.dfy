/**
 Runs of the lottery: when rotation never stalls, how far apart a worker's cells are, and how many
 cells one worker can come to hold.
 */
module Rotation {
  import opened Bytes
  import opened Lottery
  import opened Numbers

  /** The parameters that stay fixed over a run. */
  datatype Config = Config(n: nat, r: nat, cooldown: nat, shards: nat, totalCells: int)

  /** One call: the worker records it saw, and what it was asked. */
  datatype Call = Call(views: seq<Entry>, lot: Lot, deadline: int, counts: map<WorkerId, int>)

  function Picks(cfg: Config, c: Call): seq<nat> {
    Selected(c.views, c.lot, c.deadline, cfg.r, cfg.cooldown, Cap(cfg.totalCells, |c.views|, cfg.r), c.counts)
  }

  function RequiredWorkers(shards: nat, r: nat, cooldown: nat): nat { shards * r * (cooldown + 1) }

  /** The deadline of a worker's latest cell, or what its record said before the run. */
  function LastOf(cfg: Config, calls: seq<Call>, init: seq<int>, w: nat): int
    requires w < |init|
    decreases |calls|
  {
    if calls == [] then init[w]
    else
      var n := |calls| - 1;
      if w in Picks(cfg, calls[n]) then calls[n].deadline else LastOf(cfg, calls[..n], init, w)
  }

  /** Every call saw the records that the calls before it had left; suspensions may change freely. */
  ghost predicate Run(cfg: Config, calls: seq<Call>, init: seq<int>)
    decreases |calls|
  {
    |init| == cfg.n &&
    (calls != [] ==>
      var n := |calls| - 1;
      Run(cfg, calls[..n], init) && |calls[n].views| == cfg.n
      && forall w :: 0 <= w < cfg.n ==> calls[n].views[w].last == LastOf(cfg, calls[..n], init, w))
  }

  predicate Ordered(calls: seq<Call>) { forall i, j :: 0 <= i < j < |calls| ==> calls[i].deadline <= calls[j].deadline }

  lemma {:induction false} RunPrefix(cfg: Config, calls: seq<Call>, init: seq<int>, k: nat)
    requires Run(cfg, calls, init) && k <= |calls|
    ensures Run(cfg, calls[..k], init)
    decreases |calls|
  {
    hide Picks, LastOf;
    if k < |calls| {
      RunPrefix(cfg, calls[..|calls| - 1], init, k);
      assert calls[..|calls| - 1][..k] == calls[..k];
    } else {
      assert calls[..k] == calls;
    }
  }

  lemma {:induction false} RunAt(cfg: Config, calls: seq<Call>, init: seq<int>, k: nat)
    requires Run(cfg, calls, init) && k < |calls|
    ensures |calls[k].views| == cfg.n == |init|
    ensures forall w :: 0 <= w < cfg.n ==> calls[k].views[w].last == LastOf(cfg, calls[..k], init, w)
  {
    hide Picks, LastOf;
    RunPrefix(cfg, calls, init, k + 1);
    assert calls[..k + 1][..k] == calls[..k];
  }

  // --- how many workers can be busy --------------------------------------------------

  function CountIn(calls: seq<Call>, lo: int, hi: int): (n: nat)
    ensures n <= |calls|
  {
    if calls == [] then 0
    else
      var n := |calls| - 1;
      CountIn(calls[..n], lo, hi) + if lo <= calls[n].deadline <= hi then 1 else 0
  }

  lemma {:induction false} CountSplit(calls: seq<Call>, lo: int, hi: int)
    requires lo <= hi
    ensures CountIn(calls, lo, hi) == CountIn(calls, lo, hi - 1) + CountIn(calls, hi, hi)
    decreases |calls|
  {
    if calls == [] {
    } else {
      CountSplit(calls[..|calls| - 1], lo, hi);
    }
  }

  lemma {:induction false} CountPrefix(calls: seq<Call>, lo: int, hi: int, k: nat)
    requires k <= |calls|
    ensures CountIn(calls[..k], lo, hi) <= CountIn(calls, lo, hi)
    decreases |calls|
  {
    if k < |calls| {
      CountPrefix(calls[..|calls| - 1], lo, hi, k);
      assert calls[..|calls| - 1][..k] == calls[..k];
    } else {
      assert calls[..k] == calls;
    }
  }

  /** At most so many calls at each deadline: at most that many times the length of any window. */
  lemma {:induction false} WindowCount(calls: seq<Call>, shards: nat, lo: int, hi: int)
    requires lo <= hi + 1 && forall e :: CountIn(calls, e, e) <= shards
    ensures CountIn(calls, lo, hi) <= shards * (hi - lo + 1)
    decreases hi - lo + 1
  {
    if lo == hi + 1 {
      NoneInEmptyWindow(calls, lo, hi);
    } else {
      WindowCount(calls, shards, lo, hi - 1);
      CountSplit(calls, lo, hi);
      MulDistr(shards, hi - lo, 1);
    }
  }

  lemma {:induction false} NoneInEmptyWindow(calls: seq<Call>, lo: int, hi: int)
    requires lo > hi
    ensures CountIn(calls, lo, hi) == 0
    decreases |calls|
  {
    if calls == [] {
    } else {
      NoneInEmptyWindow(calls[..|calls| - 1], lo, hi);
    }
  }

  function Busy(cfg: Config, calls: seq<Call>, init: seq<int>, lo: int): set<nat>
    requires |init| == cfg.n
  {
    set w: nat | w < cfg.n && LastOf(cfg, calls, init, w) >= lo
  }

  lemma PicksCount(cfg: Config, c: Call)
    ensures |Picks(cfg, c)| == (if cfg.r < |c.views| then cfg.r else |c.views|)
    ensures NoDup(Picks(cfg, c)) && InRange(Picks(cfg, c), |c.views|)
    ensures forall w :: w in Picks(cfg, c) ==>
      w in Eligible(c.views, c.deadline, cfg.r, cfg.cooldown, Cap(cfg.totalCells, |c.views|, cfg.r), c.counts)
  {
    hide Eligible, Draw;
    SelectedCount(c.views, c.lot, c.deadline, cfg.r, cfg.cooldown, Cap(cfg.totalCells, |c.views|, cfg.r), c.counts);
  }

  lemma BusyStep(cfg: Config, calls: seq<Call>, init: seq<int>, lo: int)
    requires |init| == cfg.n && calls != []
    ensures var n := |calls| - 1;
            |Busy(cfg, calls, init, lo)| <= |Busy(cfg, calls[..n], init, lo)| + if lo <= calls[n].deadline then cfg.r else 0
  {
    hide Picks;
    var n := |calls| - 1;
    var before, picked := Busy(cfg, calls[..n], init, lo), Members(Picks(cfg, calls[n]));
    PicksCount(cfg, calls[n]);
    MembersCount(Picks(cfg, calls[n]));
    var more := if lo <= calls[n].deadline then picked else {};
    SubsetCount(Busy(cfg, calls, init, lo), before + more);
  }

  /** A worker is busy only if a recent call chose it, and a call chooses at most `r`. */
  lemma {:induction false} BusyCount(cfg: Config, calls: seq<Call>, init: seq<int>, lo: int, hi: int)
    requires |init| == cfg.n && (forall w :: 0 <= w < cfg.n ==> init[w] < lo)
    requires forall k :: 0 <= k < |calls| ==> calls[k].deadline <= hi
    ensures |Busy(cfg, calls, init, lo)| <= cfg.r * CountIn(calls, lo, hi)
    decreases |calls|
  {
    hide Busy, LastOf, CountIn;
    if calls == [] {
      NoneBusy(cfg, init, lo, hi);
    } else {
      var n := |calls| - 1;
      BusyCount(cfg, calls[..n], init, lo, hi);
      BusyStep(cfg, calls, init, lo);
      CountStep(calls, lo, hi);
      MulDistr(cfg.r, CountIn(calls[..n], lo, hi), CountIn(calls, lo, hi) - CountIn(calls[..n], lo, hi));
    }
  }

  lemma NoneBusy(cfg: Config, init: seq<int>, lo: int, hi: int)
    requires |init| == cfg.n && (forall w :: 0 <= w < cfg.n ==> init[w] < lo)
    ensures |Busy(cfg, [], init, lo)| == 0 && CountIn([], lo, hi) == 0
  {
    assert Busy(cfg, [], init, lo) == {};
  }

  lemma CountStep(calls: seq<Call>, lo: int, hi: int)
    requires calls != []
    ensures CountIn(calls, lo, hi) == CountIn(calls[..|calls| - 1], lo, hi) + if lo <= calls[|calls| - 1].deadline <= hi then 1 else 0
  {
  }

  function Failing(views: seq<Entry>, idxs: seq<nat>, rule: Rule): set<nat>
    requires InRange(idxs, |views|)
  {
    set w | w in idxs && !rule.Passes(views[w])
  }

  lemma FailingSnoc(views: seq<Entry>, idxs: seq<nat>, rule: Rule)
    requires InRange(idxs, |views|) && NoDup(idxs) && idxs != []
    ensures var n := |idxs| - 1;
            |Failing(views, idxs, rule)| == |Failing(views, idxs[..n], rule)| + if rule.Passes(views[idxs[n]]) then 0 else 1
  {
    hide Rule.Passes;
    var n := |idxs| - 1;
    var before := Failing(views, idxs[..n], rule);
    assert idxs == idxs[..n] + [idxs[n]];
    assert idxs[n] !in idxs[..n];
    if rule.Passes(views[idxs[n]]) {
      assert Failing(views, idxs, rule) == before;
    } else {
      assert Failing(views, idxs, rule) == before + {idxs[n]};
    }
  }

  lemma {:induction false} KeepLoses(views: seq<Entry>, idxs: seq<nat>, rule: Rule)
    requires InRange(idxs, |views|) && NoDup(idxs)
    ensures |Keep(views, idxs, rule)| + |Failing(views, idxs, rule)| == |idxs|
    decreases |idxs|
  {
    if idxs == [] {
      assert Failing(views, idxs, rule) == {};
    } else {
      hide Rule.Passes, Failing;
      FailingSnoc(views, idxs, rule);
      KeepLoses(views, idxs[..|idxs| - 1], rule);
    }
  }

  ghost predicate PerDeadline(calls: seq<Call>, shards: nat) { forall e :: CountIn(calls, e, e) <= shards }

  /** At every call enough workers are out of suspension. */
  ghost predicate EnoughLive(cfg: Config, calls: seq<Call>) {
    forall k :: 0 <= k < |calls| ==>
      |Awake(calls[k].views, calls[k].deadline)| >= RequiredWorkers(cfg.shards, cfg.r, cfg.cooldown)
  }

  predicate Relaxes(cfg: Config, c: Call) { CooldownRelaxes(c.views, c.deadline, cfg.r, cfg.cooldown) }

  lemma RequiredLeaves(shards: nat, r: nat, cooldown: nat, count: nat)
    requires count + 1 <= shards * (cooldown + 1)
    ensures RequiredWorkers(shards, r, cooldown) >= r * count + r
  {
    var m := shards * (cooldown + 1);
    MulMono(r, count + 1, m);
    MulDistr(r, count, 1);
    assert shards * r * (cooldown + 1) == r * m by {
      assert shards * r == r * shards;
      MulAssoc(r, shards, cooldown + 1);
    }
  }

  lemma CallCount(cfg: Config, calls: seq<Call>, k: nat)
    requires Ordered(calls) && PerDeadline(calls, cfg.shards) && k < |calls|
    ensures var d := calls[k].deadline; CountIn(calls[..k], d - cfg.cooldown, d) + 1 <= cfg.shards * (cfg.cooldown + 1)
  {
    var d, upTo := calls[k].deadline, calls[..k + 1];
    forall e ensures CountIn(upTo, e, e) <= cfg.shards {
      CountPrefix(calls, e, e, k + 1);
    }
    WindowCount(upTo, cfg.shards, d - cfg.cooldown, d);
    assert upTo[..k] == calls[..k];
  }

  lemma NeverRelaxedAt(cfg: Config, calls: seq<Call>, init: seq<int>, k: nat)
    requires Run(cfg, calls, init) && Ordered(calls) && PerDeadline(calls, cfg.shards) && EnoughLive(cfg, calls)
    requires k < |calls| && forall w :: 0 <= w < cfg.n ==> calls[0].deadline >= init[w] + cfg.cooldown + 1
    ensures !Relaxes(cfg, calls[k])
  {
    hide Run, LastOf, Keep, Iota, CountIn, PerDeadline, Ordered, RequiredWorkers, NoDup, Awake;
    var views, d := calls[k].views, calls[k].deadline;
    AwakeIsLive(views, d);
    RunAt(cfg, calls, init, k);
    CallCount(cfg, calls, k);
    var count := CountIn(calls[..k], d - cfg.cooldown, d);
    RequiredLeaves(cfg.shards, cfg.r, cfg.cooldown, count);
    var live := Live(views, d, cfg.r);
    PosMulNat(cfg.r, count);
    assert live == Keep(views, Iota(|views|), LiveAt(d));
    FiltersDistinct(views, d, cfg.r, cfg.cooldown, 1, map[]);
    KeepLoses(views, live, FreeAt(d, cfg.cooldown));
    OrderedUpTo(calls, k);
    BusyCount(cfg, calls[..k], init, d - cfg.cooldown, d);
    assert Failing(views, live, FreeAt(d, cfg.cooldown)) <= Busy(cfg, calls[..k], init, d - cfg.cooldown);
    SubsetCount(Failing(views, live, FreeAt(d, cfg.cooldown)), Busy(cfg, calls[..k], init, d - cfg.cooldown));
  }

  lemma PosMulNat(a: nat, b: nat)
    ensures a * b >= 0
  {
  }

  lemma OrderedUpTo(calls: seq<Call>, k: nat)
    requires Ordered(calls) && k < |calls|
    ensures calls[0].deadline <= calls[k].deadline
    ensures forall j :: 0 <= j < |calls[..k]| ==> calls[..k][j].deadline <= calls[k].deadline
  {
  }

  // --- how far apart a worker's cells are ----------------------------------------------

  /** Whoever is chosen while the cooldown is observed had rested. */
  lemma ChosenHasRested(cfg: Config, c: Call, w: nat)
    requires !Relaxes(cfg, c) && w in Picks(cfg, c)
    ensures w < |c.views| && c.deadline >= c.views[w].last + cfg.cooldown + 1
  {
    hide Picks, Keep, Iota;
    PicksCount(cfg, c);
    var live := Live(c.views, c.deadline, cfg.r);
    var free := Free(c.views, c.deadline, cfg.r, cfg.cooldown);
    KeepMeans(c.views, live, FreeAt(c.deadline, cfg.cooldown));
    KeepMeans(c.views, free, Below(Cap(cfg.totalCells, |c.views|, cfg.r), c.counts));
  }

  lemma {:induction false} LastAtLeast(cfg: Config, calls: seq<Call>, init: seq<int>, i: nat, w: nat)
    requires Ordered(calls) && i < |calls| && w < |init| && w in Picks(cfg, calls[i])
    ensures LastOf(cfg, calls, init, w) >= calls[i].deadline
    decreases |calls|
  {
    hide Picks;
    var n := |calls| - 1;
    if i < n && w !in Picks(cfg, calls[n]) {
      LastAtLeast(cfg, calls[..n], init, i, w);
    }
  }

  lemma RestBetween(cfg: Config, calls: seq<Call>, init: seq<int>, i: nat, j: nat, w: nat)
    requires Run(cfg, calls, init) && Ordered(calls) && i < j < |calls| && !Relaxes(cfg, calls[j])
    requires w in Picks(cfg, calls[i]) && w in Picks(cfg, calls[j])
    ensures calls[j].deadline - calls[i].deadline >= cfg.cooldown + 1
  {
    hide Run, LastOf, Picks, Relaxes;
    RunAt(cfg, calls, init, j);
    ChosenHasRested(cfg, calls[j], w);
    assert calls[..j][i] == calls[i];
    LastAtLeast(cfg, calls[..j], init, i, w);
  }

  /**
   Rotation never stalls: with as many live workers as the rule of thumb asks for, and at most one
   call per shard and deadline, the cooldown is observed at every call of every run, so no worker is
   given two cells closer together than the cooldown allows.
   */
  lemma RotationBound(cfg: Config, calls: seq<Call>, init: seq<int>)
    requires Run(cfg, calls, init) && Ordered(calls) && PerDeadline(calls, cfg.shards) && EnoughLive(cfg, calls)
    requires calls != [] ==> forall w :: 0 <= w < cfg.n ==> calls[0].deadline >= init[w] + cfg.cooldown + 1
    ensures forall k :: 0 <= k < |calls| ==> !Relaxes(cfg, calls[k])
    ensures forall i, j, w :: 0 <= i < j < |calls| && w in Picks(cfg, calls[i]) && w in Picks(cfg, calls[j])
              ==> calls[j].deadline - calls[i].deadline >= cfg.cooldown + 1
  {
    hide Run, Picks, Relaxes, PerDeadline, EnoughLive, Ordered;
    forall k | 0 <= k < |calls| ensures !Relaxes(cfg, calls[k]) {
      NeverRelaxedAt(cfg, calls, init, k);
    }
    forall i, j, w | 0 <= i < j < |calls| && w in Picks(cfg, calls[i]) && w in Picks(cfg, calls[j])
      ensures calls[j].deadline - calls[i].deadline >= cfg.cooldown + 1
    {
      RestBetween(cfg, calls, init, i, j, w);
    }
  }

  // --- the bound is needed ---------------------------------------------------------------

  function Used(cfg: Config, calls: seq<Call>): set<nat>
    decreases |calls|
  {
    if calls == [] then {} else Used(cfg, calls[..|calls| - 1]) + Members(Picks(cfg, calls[|calls| - 1]))
  }

  lemma {:induction false} UsedBy(cfg: Config, calls: seq<Call>, w: nat) returns (i: nat)
    requires w in Used(cfg, calls)
    ensures i < |calls| && w in Picks(cfg, calls[i])
    decreases |calls|
  {
    hide Picks;
    var n := |calls| - 1;
    if w in Picks(cfg, calls[n]) {
      i := n;
    } else {
      i := UsedBy(cfg, calls[..n], w);
    }
  }

  lemma UsedStep(cfg: Config, calls: seq<Call>, init: seq<int>)
    requires Run(cfg, calls, init) && Ordered(calls) && cfg.r <= cfg.n && calls != []
    requires !Relaxes(cfg, calls[|calls| - 1]) && calls[|calls| - 1].deadline - calls[0].deadline <= cfg.cooldown
    requires Used(cfg, calls[..|calls| - 1]) <= Members(Iota(cfg.n))
    ensures |Used(cfg, calls)| == |Used(cfg, calls[..|calls| - 1])| + cfg.r && Used(cfg, calls) <= Members(Iota(cfg.n))
  {
    hide Run, Picks, Relaxes, Iota, Ordered;
    var n := |calls| - 1;
    var before, picked := Used(cfg, calls[..n]), Members(Picks(cfg, calls[n]));
    RunAt(cfg, calls, init, n);
    PicksCount(cfg, calls[n]);
    MembersCount(Picks(cfg, calls[n]));
    UsedApart(cfg, calls, init);
    assert before * picked == {};
    IotaIs(cfg.n);
    forall w | w in picked ensures w in Members(Iota(cfg.n)) {
      assert Iota(cfg.n)[w] == w;
    }
  }

  lemma UsedApart(cfg: Config, calls: seq<Call>, init: seq<int>)
    requires Run(cfg, calls, init) && Ordered(calls) && calls != []
    requires !Relaxes(cfg, calls[|calls| - 1]) && calls[|calls| - 1].deadline - calls[0].deadline <= cfg.cooldown
    ensures Used(cfg, calls[..|calls| - 1]) !! Members(Picks(cfg, calls[|calls| - 1]))
  {
    hide Run, Picks, Relaxes, Used;
    var n := |calls| - 1;
    forall w | w in Used(cfg, calls[..n]) && w in Picks(cfg, calls[n]) ensures false {
      var i := UsedBy(cfg, calls[..n], w);
      RestBetween(cfg, calls, init, i, n, w);
    }
  }

  lemma {:induction false} UsedCount(cfg: Config, calls: seq<Call>, init: seq<int>)
    requires Run(cfg, calls, init) && Ordered(calls) && cfg.r <= cfg.n
    requires forall k :: 0 <= k < |calls| ==> !Relaxes(cfg, calls[k]) && calls[k].deadline - calls[0].deadline <= cfg.cooldown
    ensures |Used(cfg, calls)| == cfg.r * |calls| && Used(cfg, calls) <= Members(Iota(cfg.n))
    decreases |calls|
  {
    hide Picks, Relaxes, LastOf, Iota;
    if calls == [] {
    } else {
      UsedCount(cfg, calls[..|calls| - 1], init);
      UsedStep(cfg, calls, init);
      MulDistr(cfg.r, |calls| - 1, 1);
    }
  }

  /**
   The rule of thumb is sharp: calls that all observe the cooldown and fall within one cooldown of
   each other use different workers, so a full load of one call per shard at each of the cooldown + 1
   deadlines takes no fewer than the required number.
   */
  lemma RotationNeeds(cfg: Config, calls: seq<Call>, init: seq<int>)
    requires Run(cfg, calls, init) && Ordered(calls) && cfg.r <= cfg.n
    requires forall k :: 0 <= k < |calls| ==> !Relaxes(cfg, calls[k]) && calls[k].deadline - calls[0].deadline <= cfg.cooldown
    ensures cfg.r * |calls| <= cfg.n
    ensures |calls| == cfg.shards * (cfg.cooldown + 1) ==> RequiredWorkers(cfg.shards, cfg.r, cfg.cooldown) <= cfg.n
  {
    hide Run, Relaxes, Used;
    UsedCount(cfg, calls, init);
    MembersCount(Iota(cfg.n));
    SubsetCount(Used(cfg, calls), Members(Iota(cfg.n)));
    MulAssoc(cfg.r, cfg.shards, cfg.cooldown + 1);
    assert cfg.shards * cfg.r == cfg.r * cfg.shards;
  }

  // --- the cap -----------------------------------------------------------------------------

  function IdsAt(views: seq<Entry>, idxs: seq<nat>): (ids: seq<WorkerId>)
    requires InRange(idxs, |views|)
    ensures |ids| == |idxs| && forall i :: 0 <= i < |idxs| ==> ids[i] == views[idxs[i]].id
  {
    if idxs == [] then [] else IdsAt(views, idxs[..|idxs| - 1]) + [views[idxs[|idxs| - 1]].id]
  }

  predicate DistinctIds(views: seq<Entry>) {
    forall i, j :: 0 <= i < j < |views| ==> views[i].id != views[j].id
  }

  predicate Distinct(ids: seq<WorkerId>) { forall i, j :: 0 <= i < j < |ids| ==> ids[i] != ids[j] }

  /** The counts after a run that started with none. */
  function TallyOf(cfg: Config, calls: seq<Call>): map<WorkerId, int>
    decreases |calls|
  {
    if calls == [] then map[]
    else
      var c := calls[|calls| - 1];
      PicksCount(cfg, c);
      Tally(TallyOf(cfg, calls[..|calls| - 1]), IdsAt(c.views, Picks(cfg, c)))
  }

  /** Every call saw the counts of the calls before it. */
  ghost predicate Counted(cfg: Config, calls: seq<Call>)
    decreases |calls|
  {
    calls != [] ==>
      var n := |calls| - 1;
      Counted(cfg, calls[..n]) && |calls[n].views| == cfg.n && DistinctIds(calls[n].views)
      && calls[n].counts == TallyOf(cfg, calls[..n])
  }

  predicate OverCap(cfg: Config, c: Call) {
    CapRelaxes(c.views, c.deadline, cfg.r, cfg.cooldown, Cap(cfg.totalCells, |c.views|, cfg.r), c.counts)
  }

  lemma {:induction false} TallyOnce(counts: map<WorkerId, int>, ids: seq<WorkerId>, id: WorkerId)
    requires Distinct(ids)
    ensures CountOf(Tally(counts, ids), id) == CountOf(counts, id) + if id in ids then 1 else 0
    decreases |ids|
  {
    if ids == [] {
    } else {
      var n := |ids| - 1;
      TallyOnce(counts, ids[..n], id);
      assert ids == ids[..n] + [ids[n]];
    }
  }

  /** Whoever is chosen while the cap is observed was below it. */
  lemma ChosenWasBelowCap(cfg: Config, c: Call, w: nat)
    requires !OverCap(cfg, c) && w in Picks(cfg, c)
    ensures w < |c.views| && CountOf(c.counts, c.views[w].id) < Cap(cfg.totalCells, |c.views|, cfg.r)
  {
    hide Picks, Keep, Iota, Cap;
    PicksCount(cfg, c);
    KeepMeans(c.views, Free(c.views, c.deadline, cfg.r, cfg.cooldown), Below(Cap(cfg.totalCells, |c.views|, cfg.r), c.counts));
  }

  lemma CapStep(cfg: Config, c: Call, id: WorkerId)
    requires !OverCap(cfg, c) && DistinctIds(c.views) && |c.views| == cfg.n
    requires CountOf(c.counts, id) <= Cap(cfg.totalCells, cfg.n, cfg.r)
    ensures InRange(Picks(cfg, c), |c.views|)
    ensures CountOf(Tally(c.counts, IdsAt(c.views, Picks(cfg, c))), id) <= Cap(cfg.totalCells, cfg.n, cfg.r)
  {
    hide Picks, Cap, OverCap, Tally;
    PicksCount(cfg, c);
    var picked := Picks(cfg, c);
    var ids := IdsAt(c.views, picked);
    TallyOnce(c.counts, ids, id);
    if id in ids {
      var i :| 0 <= i < |ids| && ids[i] == id;
      ChosenWasBelowCap(cfg, c, picked[i]);
    }
  }

  /** No worker comes to hold more cells than the cap, over any run in which the cap is observed. */
  lemma {:induction false} CountsNeverPassCap(cfg: Config, calls: seq<Call>, id: WorkerId)
    requires Counted(cfg, calls) && forall k :: 0 <= k < |calls| ==> !OverCap(cfg, calls[k])
    ensures CountOf(TallyOf(cfg, calls), id) <= Cap(cfg.totalCells, cfg.n, cfg.r)
    decreases |calls|
  {
    hide Picks, OverCap, Cap, Tally;
    if calls == [] {
    } else {
      CountsNeverPassCap(cfg, calls[..|calls| - 1], id);
      CapStep(cfg, calls[|calls| - 1], id);
    }
  }

  lemma RealRange(y: real, b: real, m: real)
    requires b > 0.0 && y * b == m && 0.0 <= m < b
    ensures 0.0 <= y < 1.0
  {
    if y >= 1.0 {
      RealProduct(y - 1.0, b);
      RealDistr(y, 1.0, b);
    } else if y < 0.0 {
      RealNegative(y, b);
    }
  }

  lemma RealProduct(x: real, y: real)
    requires x >= 0.0 && y >= 0.0
    ensures x * y >= 0.0
  {
  }

  lemma RealNegative(x: real, y: real)
    requires x < 0.0 && y > 0.0
    ensures x * y < 0.0
  {
  }

  lemma QuotientTimes(x: real, y: real)
    requires y > 0.0
    ensures (x / y) * y == x
  {
  }

  lemma RealDistr(x: real, q: real, b: real)
    ensures (x - q) * b == x * b - q * b
  {
  }

  lemma IntProduct(a: int, b: int)
    ensures (a * b) as real == a as real * b as real
  {
  }

  lemma RealAssoc(x: real, y: real, z: real)
    ensures (x * y) * z == x * (y * z)
  {
  }

  /** Rounding down a share taken of a whole number is whole-number division. */
  lemma FloorOfShare(t: nat, n: nat, r: nat, ratio: real)
    requires n > 0 && ratio * n as real == r as real
    ensures (t as real * ratio).Floor == (r * t) / n
  {
    var x, q, m := t as real * ratio, (r * t) / n, (r * t) % n;
    DivMod(r * t, n);
    RealAssoc(t as real, ratio, n as real);
    IntProduct(r, t);
    IntProduct(n, q);
    RealDistr(x, q as real, n as real);
    RealRange(x - q as real, n as real, m as real);
  }

  lemma RatioInSmallNetwork(n: nat, r: nat)
    requires 0 < n <= 20 * r
    ensures AdaptiveCapRatio(n, r) == r as real / n as real
  {
    var share := r as real / n as real;
    QuotientTimes(r as real, n as real);
    if share < 0.05 {
      RealNegative(share - 0.05, n as real);
      RealDistr(share, 0.05, n as real);
    }
  }

  lemma CapInSmallNetwork(totalCells: nat, n: nat, r: nat)
    requires 0 < n <= 20 * r
    ensures var q := (r * totalCells) / n; Cap(totalCells, n, r) == if q > 1 then q else 1
  {
    hide AdaptiveCapRatio;
    RatioInSmallNetwork(n, r);
    QuotientTimes(r as real, n as real);
    FloorOfShare(totalCells, n, r, AdaptiveCapRatio(n, r));
  }

  lemma CapInLargeNetwork(totalCells: nat, n: nat, r: nat)
    requires n > 20 * r
    ensures var q := totalCells / 20; Cap(totalCells, n, r) == if q > 1 then q else 1
  {
    hide AdaptiveCapRatio;
    RatioInLargeNetwork(n, r);
    FloorOfShare(totalCells, 20, 1, AdaptiveCapRatio(n, r));
  }

  lemma RatioInLargeNetwork(n: nat, r: nat)
    requires n > 20 * r
    ensures AdaptiveCapRatio(n, r) == 0.05
  {
    var share := r as real / n as real;
    QuotientTimes(r as real, n as real);
    if share > 0.05 {
      RealNegative(0.05 - share, n as real);
      RealDistr(0.05, share, n as real);
    }
  }

  /** What rounding the cap down costs is made up for. */
  predicate RoundsWell(totalCells: nat, n: nat, r: nat)
    requires n > 0
  {
    if n <= 20 * r then (r * totalCells) % n == 0 else (n - 20 * r) * (totalCells / 20) >= r * (totalCells % 20)
  }

  /**
   The adaptive cap is meant to leave room for every cell at any size. It does so exactly when the
   places are no more than the workers, or rounding down loses nothing that matters: while the r/n
   share applies, when the places divide evenly among the workers; beyond, when the slack of the
   twentieths outweighs the rest of the cells.
   */
  lemma CapLeavesRoomExactly(totalCells: nat, n: nat, r: nat)
    requires n > 0
    ensures n * Cap(totalCells, n, r) >= r * totalCells <==> r * totalCells <= n || RoundsWell(totalCells, n, r)
  {
    hide Cap, RoundsWell;
    if n <= 20 * r {
      RoomInSmallNetwork(totalCells, n, r);
    } else {
      RoomInLargeNetwork(totalCells, n, r);
    }
  }

  lemma RoomInSmallNetwork(totalCells: nat, n: nat, r: nat)
    requires 0 < n <= 20 * r
    ensures n * Cap(totalCells, n, r) >= r * totalCells <==> r * totalCells <= n || RoundsWell(totalCells, n, r)
  {
    hide Cap;
    var places := r * totalCells;
    CapInSmallNetwork(totalCells, n, r);
    DivMod(places, n);
    RoundedRoom(places, n, places / n, places % n, Cap(totalCells, n, r));
  }

  lemma RoomInLargeNetwork(totalCells: nat, n: nat, r: nat)
    requires n > 20 * r
    ensures n * Cap(totalCells, n, r) >= r * totalCells <==> r * totalCells <= n || RoundsWell(totalCells, n, r)
  {
    hide Cap;
    CapInLargeNetwork(totalCells, n, r);
    DivMod(totalCells, 20);
    RoomInTwentieths(totalCells, n, r, totalCells / 20, totalCells % 20, Cap(totalCells, n, r));
  }

  lemma RoundedRoom(places: nat, n: nat, q: nat, m: nat, cap: nat)
    requires n > 0 && places == n * q + m && m < n && cap == if q > 1 then q else 1
    ensures n * cap >= places <==> m == 0 || places <= n
  {
    if q >= 2 {
      MulMono(n, 2, q);
    }
  }

  lemma RoomInTwentieths(t: nat, n: nat, r: nat, q: nat, m: nat, cap: nat)
    requires n > 20 * r && t == 20 * q + m && m < 20 && cap == if q > 1 then q else 1
    ensures n * cap >= r * t <==> r * t <= n || (n - 20 * r) * q >= r * m
  {
    MulDistr(r, 20 * q, m);
    MulAssoc(r, 20, q);
    assert r * 20 == 20 * r;
    MulDistr(q, n, -(20 * r));
    assert q * -(20 * r) == -(20 * r * q);
    if q >= 1 {
      MulMono(n, 1, q);
    } else {
      MulMono(r, m, 20);
    }
  }

  /** Three cells for pairs out of four workers: one cell each is all the cap allows, and two are missing. */
  lemma CapFallsShort()
    ensures 4 * Cap(3, 4, 2) < 2 * 3
  {
    CapLeavesRoomExactly(3, 4, 2);
  }

  /** In a network where the fixed twentieth applies: 39 cells for pairs out of 41 workers. */
  lemma CapFallsShortInLargeNetwork()
    ensures 41 * Cap(39, 41, 2) < 2 * 39
  {
    CapLeavesRoomExactly(39, 41, 2);
  }

  // --- the run over real records -------------------------------------------------------------

  predicate DistinctWorkers(pool: seq<WorkerEntry>) { forall i, j :: 0 <= i < j < |pool| ==> pool[i] != pool[j] }

  /** The records agree with the calls made so far. */
  ghost predicate UpToDate(cfg: Config, pool: seq<WorkerEntry>, calls: seq<Call>, init: seq<int>)
    reads pool
  {
    |pool| == cfg.n == |init| && forall w :: 0 <= w < cfg.n ==> pool[w].lastAssignedDeadline == LastOf(cfg, calls, init, w)
  }

  lemma {:induction false} StepUpToDate(cfg: Config, pool: seq<WorkerEntry>, calls: seq<Call>, init: seq<int>, c: Call, chosen: seq<WorkerEntry>)
    requires |pool| == cfg.n == |init| == |c.views| && DistinctWorkers(pool) && Run(cfg, calls, init)
    requires forall w :: 0 <= w < cfg.n ==> c.views[w].last == LastOf(cfg, calls, init, w)
    requires InRange(Picks(cfg, c), |pool|) && chosen == At(pool, Picks(cfg, c))
    requires forall w :: w in pool && w in chosen ==> w.lastAssignedDeadline == c.deadline
    requires forall w :: 0 <= w < cfg.n && pool[w] !in chosen ==> pool[w].lastAssignedDeadline == c.views[w].last
    ensures Run(cfg, calls + [c], init) && UpToDate(cfg, pool, calls + [c], init)
  {
    hide Picks, At, Run;
    RunSnoc(cfg, calls, init, c);
    assert (calls + [c])[..|calls|] == calls;
    AtPositions(pool, Picks(cfg, c));
  }

  /** A worker is among those at some positions exactly when its own position is one of them. */
  lemma AtPositions(pool: seq<WorkerEntry>, picked: seq<nat>)
    requires DistinctWorkers(pool) && InRange(picked, |pool|)
    ensures forall w :: 0 <= w < |pool| ==> (w in picked <==> pool[w] in At(pool, picked))
  {
    hide At;
    forall w | 0 <= w < |pool| ensures w in picked <==> pool[w] in At(pool, picked) {
      if w in picked {
        var i :| 0 <= i < |picked| && picked[i] == w;
        AtIs(pool, picked, i);
      }
      if pool[w] in At(pool, picked) {
        var i :| 0 <= i < |picked| && At(pool, picked)[i] == pool[w];
        AtIs(pool, picked, i);
      }
    }
  }

  lemma RunSnoc(cfg: Config, calls: seq<Call>, init: seq<int>, c: Call)
    requires Run(cfg, calls, init) && |c.views| == cfg.n
    requires forall w :: 0 <= w < cfg.n ==> c.views[w].last == LastOf(cfg, calls, init, w)
    ensures Run(cfg, calls + [c], init)
  {
    hide LastOf;
    assert (calls + [c])[..|calls|] == calls;
  }

  /** A call that saw the counts so far leaves the counts of the longer run. */
  lemma CountedSnoc(cfg: Config, calls: seq<Call>, c: Call)
    requires Counted(cfg, calls) && |c.views| == cfg.n && DistinctIds(c.views) && c.counts == TallyOf(cfg, calls)
    ensures Counted(cfg, calls + [c]) && InRange(Picks(cfg, c), |c.views|)
    ensures TallyOf(cfg, calls + [c]) == Tally(c.counts, IdsAt(c.views, Picks(cfg, c)))
  {
    hide Picks, Tally, IdsAt;
    PicksCount(cfg, c);
    assert (calls + [c])[..|calls|] == calls;
  }

  lemma ChosenIds(views: seq<Entry>, pool: seq<WorkerEntry>, picked: seq<nat>)
    requires |views| == |pool| && InRange(picked, |pool|)
    requires forall w :: 0 <= w < |pool| ==> views[w].id == pool[w].workerId
    ensures Ids(At(pool, picked)) == IdsAt(views, picked)
  {
    hide At, Ids, IdsAt;
    forall i | 0 <= i < |picked| ensures Ids(At(pool, picked))[i] == IdsAt(views, picked)[i] {
      AtIs(pool, picked, i);
    }
  }

  /**
   One call on the records is one more call of the run: the records stay in step with it, and so do
   the counts if they were.
   */
  method Assign(cfg: Config, keccak: Sha, beacon: ByteString, shard: nat, pool: seq<WorkerEntry>, deadline: int,
                tally: AssignedCount, stats: LotteryStats, ghost calls: seq<Call>, ghost init: seq<int>)
    returns (chosen: seq<WorkerEntry>, ghost after: seq<Call>)
    requires DistinctWorkers(pool) && Run(cfg, calls, init) && UpToDate(cfg, pool, calls, init)
    modifies pool, tally, stats
    ensures after == calls + [Call(old(Views(pool)), Lot(keccak, beacon, shard), deadline, old(tally.counts))]
    ensures Run(cfg, after, init) && UpToDate(cfg, pool, after, init)
    ensures Counted(cfg, calls) && old(tally.counts) == TallyOf(cfg, calls) && DistinctIds(old(Views(pool))) ==>
              Counted(cfg, after) && tally.counts == TallyOf(cfg, after)
    ensures pool != [] ==> stats.relaxedCap == (old(stats.relaxedCap) || OverCap(cfg, after[|calls|]))
    ensures forall w :: w in chosen ==> w in pool
  {
    hide Views, At, Selected, Run, LastOf, Tally, TallyOf, Counted, Ids, IdsAt, CapRelaxes;
    ghost var c := Call(Views(pool), Lot(keccak, beacon, shard), deadline, tally.counts);
    forall w | 0 <= w < |pool| ensures c.views[w] == pool[w].View() {
      ViewsAt(pool, w);
    }
    after := calls + [c];
    chosen := WorkerLottery(keccak, beacon, shard, pool, deadline, cfg.r, tally, cfg.totalCells, cfg.cooldown, stats);
    assert InRange(Picks(cfg, c), |pool|) && chosen == At(pool, Picks(cfg, c));
    AtMembers(pool, Picks(cfg, c));
    assert forall w :: 0 <= w < |pool| ==> pool[w] in pool;
    StepUpToDate(cfg, pool, calls, init, c, chosen);
    if Counted(cfg, calls) && c.counts == TallyOf(cfg, calls) && DistinctIds(c.views) {
      CountedSnoc(cfg, calls, c);
      ChosenIds(c.views, pool, Picks(cfg, c));
    }
  }
}
