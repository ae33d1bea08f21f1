/**
 The workers' records over a run of lotteries whose outcomes are booked at once: who was drawn, who
 delivered, who is suspended and therefore sits out.
 */
module Duty {
  import opened Bytes
  import opened Lottery
  import opened Numbers
  import opened Rotation

  const MISS_THRESHOLD: int := 3
  const SUSPENSION_DEADLINES: int := 8

  /** What one record says after a call: untouched if not drawn, else dated, and struck by the third miss in a row. */
  predicate Booked(before: Entry, after: Entry, drawn: bool, deadline: int, dead: set<WorkerId>) {
    if !drawn then after == before
    else
      && after.id == before.id && after.stake == before.stake && after.last == deadline
      && if before.id !in dead then after.misses == 0 && after.suspendedUntil == before.suspendedUntil
         else if before.misses >= 2 then after.misses == 0 && after.suspendedUntil == deadline + 8
         else after.misses == before.misses + 1 && after.suspendedUntil == before.suspendedUntil
  }

  lemma BookedIs(before: Entry, after: Entry, deadline: int, dead: set<WorkerId>)
    ensures Booked(before, after, true, deadline, dead)
            <==> after == AfterOutcome(before.(last := deadline), before.id !in dead, deadline, MISS_THRESHOLD, SUSPENSION_DEADLINES)
  {
  }

  /** All records and all counts at one moment. */
  datatype Roster = Roster(records: seq<Entry>, counts: map<WorkerId, int>)

  /** One call took the roster it saw to the roster after it. */
  ghost predicate CallBooks(cfg: Config, dead: set<WorkerId>, c: Call, after: Roster) {
    && InRange(Picks(cfg, c), |c.views|)
    && |after.records| == |c.views| == cfg.n
    && (forall w :: 0 <= w < |c.views| ==> Booked(c.views[w], after.records[w], w in Picks(cfg, c), c.deadline, dead))
    && after.counts == Tally(c.counts, IdsAt(c.views, Picks(cfg, c)))
  }

  /** The calls in turn took the one roster to the other, each seeing what the one before had left. */
  ghost predicate Served(cfg: Config, dead: set<WorkerId>, start: Roster, calls: seq<Call>, end: Roster)
    decreases |calls|
  {
    if calls == [] then start == end && |start.records| == cfg.n
    else
      var n := |calls| - 1;
      Served(cfg, dead, start, calls[..n], Roster(calls[n].views, calls[n].counts)) && CallBooks(cfg, dead, calls[n], end)
  }

  lemma ServedSnoc(cfg: Config, dead: set<WorkerId>, start: Roster, calls: seq<Call>, c: Call, end: Roster)
    requires Served(cfg, dead, start, calls, Roster(c.views, c.counts)) && CallBooks(cfg, dead, c, end)
    ensures Served(cfg, dead, start, calls + [c], end)
  {
    hide CallBooks;
    assert (calls + [c])[..|calls|] == calls;
  }

  lemma {:induction false} ServedAppend(cfg: Config, dead: set<WorkerId>, start: Roster, a: seq<Call>, mid: Roster, b: seq<Call>, end: Roster)
    requires Served(cfg, dead, start, a, mid) && Served(cfg, dead, mid, b, end)
    ensures Served(cfg, dead, start, a + b, end)
    decreases |b|
  {
    hide CallBooks;
    if b == [] {
      assert a + b == a;
    } else {
      var n := |b| - 1;
      ServedAppend(cfg, dead, start, a, mid, b[..n], Roster(b[n].views, b[n].counts));
      assert a + b == a + b[..n] + [b[n]];
      ServedSnoc(cfg, dead, start, a + b[..n], b[n], end);
    }
  }

  /** What call `j` saw is what the calls before it had left. */
  lemma {:induction false} ServedUpTo(cfg: Config, dead: set<WorkerId>, start: Roster, calls: seq<Call>, end: Roster, j: nat)
    requires Served(cfg, dead, start, calls, end) && j < |calls|
    ensures Served(cfg, dead, start, calls[..j], Roster(calls[j].views, calls[j].counts))
    decreases |calls|
  {
    hide CallBooks;
    var n := |calls| - 1;
    if j < n {
      ServedUpTo(cfg, dead, start, calls[..n], Roster(calls[n].views, calls[n].counts), j);
      assert calls[..n][..j] == calls[..j];
    }
  }

  lemma {:induction false} ServedSize(cfg: Config, dead: set<WorkerId>, start: Roster, calls: seq<Call>, end: Roster)
    requires Served(cfg, dead, start, calls, end)
    ensures |start.records| == |end.records| == cfg.n
    decreases |calls|
  {
    hide Picks, Booked, Tally, IdsAt;
    if calls != [] {
      var n := |calls| - 1;
      ServedSize(cfg, dead, start, calls[..n], Roster(calls[n].views, calls[n].counts));
    }
  }

  // --- on the objects ----------------------------------------------------------------------

  /** The outcomes booked so far, on records that the lottery had dated. */
  ghost predicate OutcomesIn(pool: seq<WorkerEntry>, drawn: seq<Entry>, done: seq<nat>, deadline: int, dead: set<WorkerId>)
    reads pool
  {
    && |drawn| == |pool|
    && forall i :: 0 <= i < |pool| ==>
         pool[i].View() == if i in done then AfterOutcome(drawn[i], drawn[i].id !in dead, deadline, MISS_THRESHOLD, SUSPENSION_DEADLINES)
                           else drawn[i]
  }

  lemma NoOutcomes(pool: seq<WorkerEntry>, drawn: seq<Entry>, deadline: int, dead: set<WorkerId>)
    requires |drawn| == |pool| && forall i :: 0 <= i < |pool| ==> pool[i].View() == drawn[i]
    ensures OutcomesIn(pool, drawn, [], deadline, dead)
  {
  }

  /** Books the outcome of one more drawn worker. */
  method BookOutcome(w: WorkerEntry, delivered: bool, deadline: int, ghost pool: seq<WorkerEntry>, ghost drawn: seq<Entry>,
                     ghost picked: seq<nat>, ghost i: nat, ghost dead: set<WorkerId>)
    requires i < |picked| && NoDup(picked) && InRange(picked, |pool|) && DistinctWorkers(pool)
    requires w == pool[picked[i]] && delivered == (w.workerId !in dead)
    requires OutcomesIn(pool, drawn, picked[..i], deadline, dead)
    modifies w
    ensures OutcomesIn(pool, drawn, picked[..i + 1], deadline, dead)
  {
    hide AfterOutcome;
    assert picked[..i + 1] == picked[..i] + [picked[i]] && picked[i] !in picked[..i];
    w.RecordOutcome(delivered, deadline, MISS_THRESHOLD, SUSPENSION_DEADLINES);
  }

  /** The records right after the lottery: those drawn are dated. */
  ghost predicate Dated(c: Call, picked: seq<nat>, drawn: seq<Entry>) {
    |drawn| == |c.views| && forall i :: 0 <= i < |drawn| ==> drawn[i] == if i in picked then c.views[i].(last := c.deadline) else c.views[i]
  }

  /** Once every drawn worker has its outcome, the call is booked. */
  lemma AllBooked(cfg: Config, dead: set<WorkerId>, c: Call, pool: seq<WorkerEntry>, drawn: seq<Entry>, counts: map<WorkerId, int>)
    requires |pool| == |c.views| == cfg.n && InRange(Picks(cfg, c), |c.views|) && Dated(c, Picks(cfg, c), drawn)
    requires OutcomesIn(pool, drawn, Picks(cfg, c), c.deadline, dead)
    requires counts == Tally(c.counts, IdsAt(c.views, Picks(cfg, c)))
    ensures CallBooks(cfg, dead, c, Roster(Views(pool), counts))
  {
    hide Picks, Views, AfterOutcome, Booked, Tally, IdsAt;
    forall i | 0 <= i < |pool| ensures Booked(c.views[i], Views(pool)[i], i in Picks(cfg, c), c.deadline, dead) {
      ViewsAt(pool, i);
      BookedIs(c.views[i], pool[i].View(), c.deadline, dead);
      NotBooked(c.views[i], c.deadline, dead);
    }
  }

  lemma NotBooked(e: Entry, deadline: int, dead: set<WorkerId>)
    ensures Booked(e, e, false, deadline, dead)
  {
  }

  /** Draws the workers of one shard; no outcome is booked yet. */
  method DrawShard(cfg: Config, keccak: Sha, beacon: ByteString, shard: nat, pool: seq<WorkerEntry>, deadline: int,
                   tally: AssignedCount, stats: LotteryStats)
    returns (chosen: seq<WorkerEntry>, ghost c: Call, ghost drawn: seq<Entry>)
    requires DistinctWorkers(pool) && |pool| == cfg.n
    modifies pool, tally, stats
    ensures c == Call(old(Views(pool)), Lot(keccak, beacon, shard), deadline, old(tally.counts))
    ensures InRange(Picks(cfg, c), |pool|) && NoDup(Picks(cfg, c)) && chosen == At(pool, Picks(cfg, c))
    ensures Ids(chosen) == IdsAt(c.views, Picks(cfg, c)) && tally.counts == Tally(c.counts, IdsAt(c.views, Picks(cfg, c)))
    ensures Dated(c, Picks(cfg, c), drawn) && |drawn| == |pool| && forall i :: 0 <= i < |pool| ==> pool[i].View() == drawn[i]
    ensures forall w :: w in chosen ==> w in pool
  {
    hide Views, At, Selected, Tally, Ids, IdsAt, CooldownRelaxes, CapRelaxes, AfterOutcome;
    c := Call(Views(pool), Lot(keccak, beacon, shard), deadline, tally.counts);
    forall i | 0 <= i < |pool| ensures c.views[i] == pool[i].View() {
      ViewsAt(pool, i);
    }
    chosen := WorkerLottery(keccak, beacon, shard, pool, deadline, cfg.r, tally, cfg.totalCells, cfg.cooldown, stats);
    PicksCount(cfg, c);
    ChosenIds(c.views, pool, Picks(cfg, c));
    AtMembers(pool, Picks(cfg, c));
    AtPositions(pool, Picks(cfg, c));
    drawn := Views(pool);
    forall i | 0 <= i < |pool| ensures drawn[i] == pool[i].View() {
      ViewsAt(pool, i);
    }
  }

  // --- a worker's history ----------------------------------------------------------------

  /** The jobs of worker `w`, oldest first: delivered exactly when it is not dead. */
  function Jobs(cfg: Config, calls: seq<Call>, w: nat, delivers: bool): seq<Outcome>
    decreases |calls|
  {
    if calls == [] then []
    else
      var n := |calls| - 1;
      Jobs(cfg, calls[..n], w, delivers) + if w in Picks(cfg, calls[n]) then [Outcome(delivers, calls[n].deadline)] else []
  }

  lemma {:induction false} JobsAre(cfg: Config, calls: seq<Call>, w: nat, delivers: bool)
    ensures forall i :: 0 <= i < |Jobs(cfg, calls, w, delivers)| ==> Jobs(cfg, calls, w, delivers)[i].delivered == delivers
    ensures |Jobs(cfg, calls, w, delivers)| <= |calls|
    decreases |calls|
  {
    hide Picks;
    if calls != [] {
      JobsAre(cfg, calls[..|calls| - 1], w, delivers);
    }
  }

  /** Every call books what the objects book, so a record is the history of the worker's own jobs. */
  lemma {:induction false} RecordIsHistory(cfg: Config, dead: set<WorkerId>, start: Roster, calls: seq<Call>, end: Roster, w: nat)
    requires Served(cfg, dead, start, calls, end) && w < cfg.n
    ensures |start.records| == |end.records| == cfg.n
    ensures var e := start.records[w];
            var jobs := Jobs(cfg, calls, w, e.id !in dead);
            end.records[w].id == e.id
            && end.records[w] == AfterOutcomes(e, jobs, 3, 8).(last := end.records[w].last)
    decreases |calls|
  {
    hide Picks, Tally, IdsAt;
    ServedSize(cfg, dead, start, calls, end);
    if calls != [] {
      var n := |calls| - 1;
      var before, e := Roster(calls[n].views, calls[n].counts), start.records[w];
      RecordIsHistory(cfg, dead, start, calls[..n], before, w);
      var jobs := Jobs(cfg, calls[..n], w, e.id !in dead);
      if w in Picks(cfg, calls[n]) {
        BookedIs(calls[n].views[w], end.records[w], calls[n].deadline, dead);
        HistorySnoc(e, jobs, Outcome(e.id !in dead, calls[n].deadline));
      } else {
        assert jobs + [] == jobs;
      }
    }
  }

  lemma HistorySnoc(e: Entry, os: seq<Outcome>, o: Outcome)
    ensures AfterOutcomes(e, os + [o], 3, 8) == AfterOutcome(AfterOutcomes(e, os, 3, 8), o.delivered, o.deadline, 3, 8)
  {
    assert (os + [o])[..|os|] == os;
  }

  lemma {:induction false} OnlyDelivered(e: Entry, os: seq<Outcome>)
    requires forall i :: 0 <= i < |os| ==> os[i].delivered
    ensures AfterOutcomes(e, os, 3, 8) == if os == [] then e else e.(misses := 0)
    decreases |os|
  {
    if os != [] {
      OnlyDelivered(e, os[..|os| - 1]);
    }
  }

  lemma {:induction false} OnlyMissed(os: seq<Outcome>)
    requires forall i :: 0 <= i < |os| ==> !os[i].delivered
    ensures MissedInARow(os) == |os|
    decreases |os|
  {
    if os != [] {
      OnlyMissed(os[..|os| - 1]);
    }
  }

  /** Over any run, a worker that is not dead is never suspended, and has no miss once it was drawn. */
  lemma LiveIsNeverSuspended(cfg: Config, dead: set<WorkerId>, start: Roster, calls: seq<Call>, end: Roster, w: nat)
    requires Served(cfg, dead, start, calls, end) && w < cfg.n && |start.records| == cfg.n && start.records[w].id !in dead
    ensures |end.records| == cfg.n && end.records[w].suspendedUntil == start.records[w].suspendedUntil
    ensures end.records[w].misses == if Jobs(cfg, calls, w, true) == [] then start.records[w].misses else 0
  {
    hide Served, Jobs, AfterOutcomes;
    RecordIsHistory(cfg, dead, start, calls, end, w);
    JobsAre(cfg, calls, w, true);
    OnlyDelivered(start.records[w], Jobs(cfg, calls, w, true));
  }

  /** How many jobs there are up to the latest one that completes a group of three. */
  function Thirds(n: nat): (m: nat)
    ensures m <= n < m + 3 && m % 3 == 0
  {
    n - n % 3
  }

  /**
   Over any run, a dead worker that starts clean has one miss for each job past the last group of three,
   and is suspended for eight deadlines from the job that completed it.
   */
  lemma DeadIsSuspended(cfg: Config, dead: set<WorkerId>, start: Roster, calls: seq<Call>, end: Roster, w: nat)
    requires Served(cfg, dead, start, calls, end) && w < cfg.n && |start.records| == cfg.n
    requires start.records[w].id in dead && start.records[w].misses == 0
    ensures |end.records| == cfg.n
    ensures var jobs := Jobs(cfg, calls, w, false);
            var m := Thirds(|jobs|);
            end.records[w].misses == |jobs| - m
            && end.records[w].suspendedUntil == if m == 0 then start.records[w].suspendedUntil else jobs[m - 1].deadline + 8
  {
    hide Served, Jobs, AfterOutcomes;
    var e, jobs := start.records[w], Jobs(cfg, calls, w, false);
    RecordIsHistory(cfg, dead, start, calls, end, w);
    JobsAre(cfg, calls, w, false);
    OnlyMissed(jobs);
    MissesAreTheRun(e, jobs, 3, 8);
    forall j: nat | j < |jobs| ensures Strike(jobs, j, 3) <==> (j + 1) % 3 == 0 {
      OnlyMissed(jobs[..j + 1]);
    }
    SuspendedByTheLatestStrike(e, jobs, 3, 8, Thirds(|jobs|) - 1);
  }

  // --- sitting out -----------------------------------------------------------------------

  /**
   After a strike no call before the suspension ends draws the worker, while enough others are out of
   suspension for all places; whatever it delivered since.
   */
  lemma StruckSitsOut(cfg: Config, dead: set<WorkerId>, start: Roster, calls: seq<Call>, end: Roster, j: nat, w: nat, s: nat)
    requires Served(cfg, dead, start, calls, end) && j < |calls| && w < cfg.n && |start.records| == cfg.n && start.records[w].misses == 0
    requires var jobs := Jobs(cfg, calls[..j], w, start.records[w].id !in dead);
             s < |jobs| && Strike(jobs, s, 3) && (forall i | s < i < |jobs| :: !Strike(jobs, i, 3))
             && calls[j].deadline < jobs[s].deadline + 8
    requires |Awake(calls[j].views, calls[j].deadline)| >= cfg.r
    ensures w !in Picks(cfg, calls[j])
  {
    hide Served, Jobs, AfterOutcomes, Selected, Strike;
    var c, e := calls[j], start.records[w];
    ServedUpTo(cfg, dead, start, calls, end, j);
    RecordIsHistory(cfg, dead, start, calls[..j], Roster(c.views, c.counts), w);
    SuspendedByTheLatestStrike(e, Jobs(cfg, calls[..j], w, e.id !in dead), 3, 8, s);
    SuspendedSitOut(c.views, c.lot, c.deadline, cfg.r, cfg.cooldown, Cap(cfg.totalCells, |c.views|, cfg.r), c.counts);
  }

  /**
   So a dead worker's jobs come in groups of three: each group is followed by eight deadlines without
   one, over any run, as long as enough others are out of suspension.
   */
  lemma DeadComesInThrees(cfg: Config, dead: set<WorkerId>, start: Roster, calls: seq<Call>, end: Roster, j: nat, w: nat)
    requires Served(cfg, dead, start, calls, end) && j < |calls| && w < cfg.n && |start.records| == cfg.n
    requires start.records[w].id in dead && start.records[w].misses == 0
    requires w in Picks(cfg, calls[j]) && |Awake(calls[j].views, calls[j].deadline)| >= cfg.r
    ensures var jobs := Jobs(cfg, calls[..j], w, false);
            var m := Thirds(|jobs|);
            m > 0 ==> calls[j].deadline >= jobs[m - 1].deadline + 8
  {
    hide Served, Jobs, Selected;
    var c := calls[j];
    ServedUpTo(cfg, dead, start, calls, end, j);
    DeadIsSuspended(cfg, dead, start, calls[..j], Roster(c.views, c.counts), w);
    SuspendedSitOut(c.views, c.lot, c.deadline, cfg.r, cfg.cooldown, Cap(cfg.totalCells, |c.views|, cfg.r), c.counts);
  }

  // --- the same run, for the results about rotation ------------------------------------------

  function Lasts(records: seq<Entry>): (lasts: seq<int>)
    ensures |lasts| == |records| && forall w :: 0 <= w < |records| ==> lasts[w] == records[w].last
  {
    if records == [] then [] else Lasts(records[..|records| - 1]) + [records[|records| - 1].last]
  }

  /** What rotation and the cap are proved about are these runs. */
  lemma {:induction false} ServedIsRun(cfg: Config, dead: set<WorkerId>, start: Roster, calls: seq<Call>, end: Roster)
    requires Served(cfg, dead, start, calls, end)
    ensures |start.records| == |end.records| == cfg.n && Run(cfg, calls, Lasts(start.records))
    ensures forall w :: 0 <= w < cfg.n ==>
              end.records[w].last == LastOf(cfg, calls, Lasts(start.records), w) && end.records[w].id == start.records[w].id
    ensures start.counts == map[] && DistinctIds(start.records) ==> Counted(cfg, calls) && end.counts == TallyOf(cfg, calls)
    decreases |calls|
  {
    hide Picks, Tally, IdsAt, Lasts;
    ServedSize(cfg, dead, start, calls, end);
    if calls != [] {
      var n := |calls| - 1;
      ServedIsRun(cfg, dead, start, calls[..n], Roster(calls[n].views, calls[n].counts));
    }
  }
}
