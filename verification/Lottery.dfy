/**
 The worker lottery: three filters with their relaxations, a stake-weighted draw without
 replacement, and the bookkeeping that keeps workers rotating.
 */
module Lottery {
  import opened Bytes
  import opened Numbers

  type WorkerId = ByteString

  /** What a worker's record says at one moment. */
  datatype Entry = Entry(id: WorkerId, stake: int, last: int, misses: int, suspendedUntil: int) {
    predicate IsLive(deadline: int) { deadline >= suspendedUntil }

    predicate IsFree(deadline: int, cooldown: int) { deadline >= last + cooldown + 1 }
  }

  datatype Rule =
    | LiveAt(deadline: int)
    | FreeAt(deadline: int, cooldown: int)
    | Below(cap: int, counts: map<WorkerId, int>)
  {
    predicate Passes(e: Entry) {
      match this
      case LiveAt(d) => e.IsLive(d)
      case FreeAt(d, c) => e.IsFree(d, c)
      case Below(cap, counts) => CountOf(counts, e.id) < cap
    }
  }

  function CountOf(counts: map<WorkerId, int>, id: WorkerId): int { if id in counts then counts[id] else 0 }

  predicate InRange(idxs: seq<nat>, n: nat) { forall i :: 0 <= i < |idxs| ==> idxs[i] < n }

  predicate Increasing(idxs: seq<nat>) { forall i, j :: 0 <= i < j < |idxs| ==> idxs[i] < idxs[j] }

  predicate NoDup(idxs: seq<nat>) { forall i, j :: 0 <= i < j < |idxs| ==> idxs[i] != idxs[j] }

  function Iota(n: nat): (idxs: seq<nat>)
    ensures |idxs| == n && InRange(idxs, n)
  {
    if n == 0 then [] else Iota(n - 1) + [n - 1]
  }

  lemma {:induction false} IotaIs(n: nat)
    ensures NoDup(Iota(n)) && Increasing(Iota(n)) && forall i :: 0 <= i < n ==> Iota(n)[i] == i
  {
    if n == 0 {
    } else {
      IotaIs(n - 1);
    }
  }

  /** The positions whose worker passes, in order. */
  function Keep(views: seq<Entry>, idxs: seq<nat>, rule: Rule): (kept: seq<nat>)
    requires InRange(idxs, |views|)
    ensures InRange(kept, |views|) && |kept| <= |idxs|
  {
    if idxs == [] then []
    else
      var n := |idxs| - 1;
      var before := Keep(views, idxs[..n], rule);
      if rule.Passes(views[idxs[n]]) then before + [idxs[n]] else before
  }

  lemma {:induction false} KeepMeans(views: seq<Entry>, idxs: seq<nat>, rule: Rule)
    requires InRange(idxs, |views|)
    ensures forall i :: i in Keep(views, idxs, rule) <==> i in idxs && rule.Passes(views[i])
    ensures NoDup(idxs) ==> NoDup(Keep(views, idxs, rule))
  {
    hide Rule.Passes;
    if idxs == [] {
    } else {
      var n := |idxs| - 1;
      assert idxs == idxs[..n] + [idxs[n]];
      KeepMeans(views, idxs[..n], rule);
    }
  }

  lemma {:induction false} KeepIncreasing(views: seq<Entry>, idxs: seq<nat>, rule: Rule)
    requires InRange(idxs, |views|) && Increasing(idxs)
    ensures Increasing(Keep(views, idxs, rule))
  {
    hide Rule.Passes;
    if idxs == [] {
    } else {
      var n := |idxs| - 1;
      var before := Keep(views, idxs[..n], rule);
      KeepIncreasing(views, idxs[..n], rule);
      KeepMeans(views, idxs[..n], rule);
      forall i | 0 <= i < |before| ensures before[i] < idxs[n] {
        assert before[i] in idxs[..n];
      }
    }
  }

  /** A filter that leaves too few to choose from is not applied. */
  function Relax(kept: seq<nat>, all: seq<nat>, r: int): seq<nat> {
    if |kept| < r then all else kept
  }

  function Live(views: seq<Entry>, deadline: int, r: int): (live: seq<nat>)
    ensures InRange(live, |views|)
  {
    Relax(Keep(views, Iota(|views|), LiveAt(deadline)), Iota(|views|), r)
  }

  function Free(views: seq<Entry>, deadline: int, r: int, cooldown: int): (free: seq<nat>)
    ensures InRange(free, |views|)
  {
    var live := Live(views, deadline, r);
    Relax(Keep(views, live, FreeAt(deadline, cooldown)), live, r)
  }

  function Eligible(views: seq<Entry>, deadline: int, r: int, cooldown: int, cap: int, counts: map<WorkerId, int>): (elig: seq<nat>)
    ensures InRange(elig, |views|)
  {
    var free := Free(views, deadline, r, cooldown);
    Relax(Keep(views, free, Below(cap, counts)), free, r)
  }

  /** What the filters leave has no position twice. */
  lemma FiltersDistinct(views: seq<Entry>, deadline: int, r: int, cooldown: int, cap: int, counts: map<WorkerId, int>)
    ensures NoDup(Live(views, deadline, r)) && NoDup(Free(views, deadline, r, cooldown))
    ensures NoDup(Eligible(views, deadline, r, cooldown, cap, counts))
  {
    hide Keep, Iota, NoDup, InRange;
    IotaIs(|views|);
    KeepMeans(views, Iota(|views|), LiveAt(deadline));
    KeepMeans(views, Live(views, deadline, r), FreeAt(deadline, cooldown));
    KeepMeans(views, Free(views, deadline, r, cooldown), Below(cap, counts));
  }

  // --- the draw ------------------------------------------------------------------

  function Total(stakes: seq<int>): int {
    if stakes == [] then 0 else Total(stakes[..|stakes| - 1]) + stakes[|stakes| - 1]
  }

  /** The first position from `p` on whose running total exceeds `x`. */
  function WinnerFrom(stakes: seq<int>, x: int, p: nat): (w: nat)
    requires p < |stakes|
    ensures w < |stakes|
    decreases |stakes| - p
  {
    if p == |stakes| - 1 || Total(stakes[..p + 1]) > x then p else WinnerFrom(stakes, x, p + 1)
  }

  function Winner(stakes: seq<int>, x: int): (w: nat)
    requires stakes != []
    ensures w < |stakes|
  {
    WinnerFrom(stakes, x, 0)
  }

  function DrawOne(stakes: seq<int>, u: nat): (p: nat)
    requires stakes != []
    ensures p < |stakes|
  {
    if Total(stakes) <= 0 then 0 else Winner(stakes, u % Total(stakes))
  }

  function StakesAt(views: seq<Entry>, idxs: seq<nat>): (stakes: seq<int>)
    requires InRange(idxs, |views|)
    ensures |stakes| == |idxs|
  {
    if idxs == [] then [] else StakesAt(views, idxs[..|idxs| - 1]) + [views[idxs[|idxs| - 1]].stake]
  }

  function Without<T>(s: seq<T>, p: nat): (w: seq<T>)
    requires p < |s|
    ensures |w| == |s| - 1
  {
    s[..p] + s[p + 1..]
  }

  lemma WithoutKeeps(s: seq<nat>, p: nat, n: nat)
    requires p < |s|
    ensures InRange(s, n) ==> InRange(Without(s, p), n)
    ensures NoDup(s) ==> NoDup(Without(s, p)) && s[p] !in Without(s, p)
    ensures forall i :: i in Without(s, p) ==> i in s
  {
  }

  /** The random 128-bit value behind draw `i` of a cell. */
  datatype Lot = Lot(keccak: Sha, beacon: ByteString, shard: nat) {
    function Preimage(i: nat): ByteString { beacon + LeBytes(shard, 4) + LeBytes(i, 2) }

    function Value(i: nat): nat { LeValue(keccak(Preimage(i))[..16]) }
  }

  /** Behind the beacon come four bytes that say the shard and two that say the draw; of the digest 128 bits are taken. */
  lemma LotLayout(lot: Lot, i: nat)
    requires lot.shard < 0x1_0000_0000 && i < 0x1_0000
    ensures var b, n := lot.Preimage(i), |lot.beacon|;
            |b| == n + 6 && b[..n] == lot.beacon && LeValue(b[n..n + 4]) == lot.shard && LeValue(b[n + 4..]) == i
    ensures lot.Value(i) < 0x1_0000_0000_0000_0000_0000_0000_0000_0000
  {
    hide LeBytes, LeValue, Pow2;
    var b, n := lot.Preimage(i), |lot.beacon|;
    assert b[n..n + 4] == LeBytes(lot.shard, 4) && b[n + 4..] == LeBytes(i, 2);
    PowByte();
    Pow2Sum(8, 8);
    Pow2Sum(16, 16);
    Pow2Sum(32, 32);
    Pow2Sum(64, 64);
    LeBytesValue(lot.shard, 4);
    LeBytesValue(i, 2);
    LeValueBound(lot.keccak(b)[..16]);
  }

  /** Draws `i`, …, `n - 1`, each from those not drawn yet. */
  function Draw(views: seq<Entry>, remaining: seq<nat>, lot: Lot, i: nat, n: nat): (picked: seq<nat>)
    requires InRange(remaining, |views|)
    decreases |remaining|
  {
    if i >= n || remaining == [] then []
    else
      var p := DrawOne(StakesAt(views, remaining), lot.Value(i));
      WithoutKeeps(remaining, p, |views|);
      [remaining[p]] + Draw(views, Without(remaining, p), lot, i + 1, n)
  }

  function Selected(views: seq<Entry>, lot: Lot, deadline: int, r: int, cooldown: int, cap: int, counts: map<WorkerId, int>): seq<nat> {
    var elig := Eligible(views, deadline, r, cooldown, cap, counts);
    Draw(views, elig, lot, 0, if r < 0 then 0 else r)
  }

  /** A draw takes different positions, only from those offered, as many as asked while any are left. */
  lemma {:induction false} DrawTakes(views: seq<Entry>, remaining: seq<nat>, lot: Lot, i: nat, n: nat)
    requires InRange(remaining, |views|) && NoDup(remaining) && i <= n
    ensures var picked := Draw(views, remaining, lot, i, n);
            |picked| == (if n - i < |remaining| then n - i else |remaining|) && NoDup(picked)
            && forall x :: x in picked ==> x in remaining
    decreases |remaining|
  {
    hide StakesAt, DrawOne, Lot.Value;
    if i < n && remaining != [] {
      var p := DrawOne(StakesAt(views, remaining), lot.Value(i));
      WithoutKeeps(remaining, p, |views|);
      DrawTakes(views, Without(remaining, p), lot, i + 1, n);
    }
  }

  /**
   A lottery always fills as many places as the pool can: exactly min(r, |pool|) different workers,
   whatever was filtered out, and whatever the stakes.
   */
  lemma SelectedCount(views: seq<Entry>, lot: Lot, deadline: int, r: nat, cooldown: int, cap: int, counts: map<WorkerId, int>)
    ensures var picked := Selected(views, lot, deadline, r, cooldown, cap, counts);
            |picked| == (if r < |views| then r else |views|) && NoDup(picked) && InRange(picked, |views|)
            && forall x :: x in picked ==> x in Eligible(views, deadline, r, cooldown, cap, counts)
  {
    hide Keep, Draw, Iota;
    var elig := Eligible(views, deadline, r, cooldown, cap, counts);
    FiltersDistinct(views, deadline, r, cooldown, cap, counts);
    DrawTakes(views, elig, lot, 0, r);
    var picked := Draw(views, elig, lot, 0, r);
    forall i | 0 <= i < |picked| ensures picked[i] < |views| {
      assert picked[i] in elig;
    }
    assert |elig| <= |views| && (|elig| >= r || |elig| == |views|);
  }

  // --- who is kept out, on the fields of the records ---------------------------------

  function Members(s: seq<nat>): (m: set<nat>)
    ensures forall x :: x in m <==> x in s
  {
    set x | x in s
  }

  lemma {:induction false} MembersCount(s: seq<nat>)
    ensures |Members(s)| <= |s| && (NoDup(s) ==> |Members(s)| == |s|)
    decreases |s|
  {
    if s == [] {
      assert Members(s) == {};
    } else {
      var n := |s| - 1;
      MembersCount(s[..n]);
      assert s == s[..n] + [s[n]];
      assert Members(s) == Members(s[..n]) + {s[n]};
    }
  }

  lemma SubsetCount(a: set<nat>, b: set<nat>)
    requires a <= b
    ensures |a| <= |b|
  {
    assert b == a + (b - a);
  }

  /** All positions of a pool of `n`. */
  function Everyone(n: nat): (s: set<nat>)
    ensures forall i: nat :: i in s <==> i < n
  {
    if n == 0 then {} else Everyone(n - 1) + {n - 1}
  }

  /** The workers out of suspension. */
  function Awake(views: seq<Entry>, deadline: int): set<nat> { set i: nat | i < |views| && views[i].suspendedUntil <= deadline }

  /** Of some workers those whose latest cell is more than a cooldown ago. */
  function Rested(views: seq<Entry>, among: set<nat>, deadline: int, cooldown: int): set<nat> {
    set i: nat | i in among && i < |views| && views[i].last + cooldown < deadline
  }

  /** Of some workers those with room for another cell. */
  function Spare(views: seq<Entry>, among: set<nat>, cap: int, counts: map<WorkerId, int>): set<nat> {
    set i: nat | i in among && i < |views| && if views[i].id in counts then counts[views[i].id] < cap else 0 < cap
  }

  /** Too few for all places: everyone instead. */
  function OrAll(kept: set<nat>, all: set<nat>, r: int): set<nat> { if |kept| < r then all else kept }

  lemma KeptSet(views: seq<Entry>, idxs: seq<nat>, rule: Rule, r: int)
    requires InRange(idxs, |views|) && Increasing(idxs)
    ensures var kept := set i: nat | i in Members(idxs) && i < |views| && rule.Passes(views[i]);
            Members(Keep(views, idxs, rule)) == kept
            && Members(Relax(Keep(views, idxs, rule), idxs, r)) == OrAll(kept, Members(idxs), r)
            && Increasing(Relax(Keep(views, idxs, rule), idxs, r))
            && |Keep(views, idxs, rule)| == |kept|
  {
    hide Rule.Passes, Keep;
    KeepMeans(views, idxs, rule);
    KeepIncreasing(views, idxs, rule);
    MembersCount(Keep(views, idxs, rule));
    assert Members(Keep(views, idxs, rule)) == set i: nat | i in Members(idxs) && i < |views| && rule.Passes(views[i]);
  }

  lemma AwakeIsLive(views: seq<Entry>, deadline: int)
    ensures |Keep(views, Iota(|views|), LiveAt(deadline))| == |Awake(views, deadline)|
  {
    hide Keep, Iota;
    EveryoneIs(views);
    KeptSet(views, Iota(|views|), LiveAt(deadline), 0);
    assert Awake(views, deadline) == set i: nat | i in Members(Iota(|views|)) && i < |views| && LiveAt(deadline).Passes(views[i]);
  }

  lemma EveryoneIs(views: seq<Entry>)
    ensures Increasing(Iota(|views|)) && Members(Iota(|views|)) == Everyone(|views|)
  {
    hide Iota;
    IotaIs(|views|);
    forall i: nat | i < |views| ensures i in Iota(|views|) {
      assert Iota(|views|)[i] == i;
    }
  }

  /**
   Who may be drawn, on the fields: the workers out of suspension, of those the rested ones, of those
   the ones with room, each condition dropped when it leaves fewer than the places; in pool order.
   */
  lemma EligibleMeans(views: seq<Entry>, deadline: int, r: int, cooldown: int, cap: int, counts: map<WorkerId, int>)
    ensures var live := OrAll(Awake(views, deadline), Everyone(|views|), r);
            var free := OrAll(Rested(views, live, deadline, cooldown), live, r);
            Members(Live(views, deadline, r)) == live && Members(Free(views, deadline, r, cooldown)) == free
            && Members(Eligible(views, deadline, r, cooldown, cap, counts)) == OrAll(Spare(views, free, cap, counts), free, r)
    ensures Increasing(Eligible(views, deadline, r, cooldown, cap, counts))
  {
    hide Keep, Iota, Relax, Increasing, InRange, OrAll, CountOf;
    EveryoneIs(views);
    var idxs := Iota(|views|);
    KeptSet(views, idxs, LiveAt(deadline), r);
    assert Awake(views, deadline) == set i: nat | i in Members(idxs) && i < |views| && LiveAt(deadline).Passes(views[i]);
    var live := Live(views, deadline, r);
    KeptSet(views, live, FreeAt(deadline, cooldown), r);
    assert Rested(views, Members(live), deadline, cooldown)
        == set i: nat | i in Members(live) && i < |views| && FreeAt(deadline, cooldown).Passes(views[i]);
    var free := Free(views, deadline, r, cooldown);
    KeptSet(views, free, Below(cap, counts), r);
    SpareIs(views, Members(free), cap, counts);
  }

  lemma SpareIs(views: seq<Entry>, among: set<nat>, cap: int, counts: map<WorkerId, int>)
    ensures Spare(views, among, cap, counts) == set i: nat | i in among && i < |views| && Below(cap, counts).Passes(views[i])
  {
  }

  /** While enough workers are out of suspension for all places, nobody else is drawn. */
  lemma SuspendedSitOut(views: seq<Entry>, lot: Lot, deadline: int, r: nat, cooldown: int, cap: int, counts: map<WorkerId, int>)
    requires |Awake(views, deadline)| >= r
    ensures forall w :: w in Selected(views, lot, deadline, r, cooldown, cap, counts) ==>
              w < |views| && views[w].suspendedUntil <= deadline
  {
    hide Live, Free, Eligible, Draw;
    SelectedCount(views, lot, deadline, r, cooldown, cap, counts);
    EligibleMeans(views, deadline, r, cooldown, cap, counts);
    forall w | w in Selected(views, lot, deadline, r, cooldown, cap, counts) ensures w in Awake(views, deadline) {
      assert w in Members(Eligible(views, deadline, r, cooldown, cap, counts));
    }
  }

  lemma NobodyOut(kept: set<nat>, all: set<nat>, r: int)
    requires |kept| < r || kept == all
    ensures OrAll(kept, all, r) == all
  {
  }

  /** The records differ in their misses and suspensions only. */
  predicate AlikeButSuspension(a: seq<Entry>, b: seq<Entry>) {
    |a| == |b| && forall i :: 0 <= i < |a| ==> a[i] == b[i].(misses := a[i].misses, suspendedUntil := a[i].suspendedUntil)
  }

  /** Otherwise suspensions do not count at all: the draw is the one with nobody suspended. */
  lemma TooFewAwake(a: seq<Entry>, b: seq<Entry>, lot: Lot, deadline: int, r: nat, cooldown: int, cap: int, counts: map<WorkerId, int>)
    requires AlikeButSuspension(a, b) && |Awake(a, deadline)| < r && Awake(b, deadline) == Everyone(|b|)
    ensures Selected(a, lot, deadline, r, cooldown, cap, counts) == Selected(b, lot, deadline, r, cooldown, cap, counts)
  {
    hide Live, Free, Eligible, Draw, Awake, OrAll, Everyone;
    EligibleMeans(a, deadline, r, cooldown, cap, counts);
    EligibleMeans(b, deadline, r, cooldown, cap, counts);
    var live := Everyone(|a|);
    NobodyOut(Awake(a, deadline), live, r);
    NobodyOut(Awake(b, deadline), live, r);
    assert Rested(a, live, deadline, cooldown) == Rested(b, live, deadline, cooldown);
    var free := OrAll(Rested(a, live, deadline, cooldown), live, r);
    assert Spare(a, free, cap, counts) == Spare(b, free, cap, counts);
    OneIncreasing(Eligible(a, deadline, r, cooldown, cap, counts), Eligible(b, deadline, r, cooldown, cap, counts));
    DrawAlike(a, b, Eligible(a, deadline, r, cooldown, cap, counts), lot, 0, r);
  }

  lemma LastIsLargest(s: seq<nat>)
    requires Increasing(s) && s != []
    ensures s[|s| - 1] in Members(s) && forall x :: x in Members(s) ==> x <= s[|s| - 1]
    ensures Members(s[..|s| - 1]) == Members(s) - {s[|s| - 1]} && Increasing(s[..|s| - 1])
  {
    var n := |s| - 1;
    assert s == s[..n] + [s[n]];
    forall x | x in Members(s) ensures x <= s[n] {
      var i :| 0 <= i < |s| && s[i] == x;
    }
    assert s[n] !in s[..n];
  }

  lemma {:induction false} OneIncreasing(s: seq<nat>, t: seq<nat>)
    requires Increasing(s) && Increasing(t) && Members(s) == Members(t)
    ensures s == t
    decreases |s|
  {
    hide Increasing, Members;
    if s == [] || t == [] {
      NoMembers(s);
      NoMembers(t);
    } else {
      LastIsLargest(s);
      LastIsLargest(t);
      OneIncreasing(s[..|s| - 1], t[..|t| - 1]);
      assert s == s[..|s| - 1] + [s[|s| - 1]] && t == t[..|t| - 1] + [t[|t| - 1]];
    }
  }

  lemma NoMembers(s: seq<nat>)
    ensures s == [] <==> Members(s) == {}
  {
    if s != [] {
      assert s[0] in Members(s);
    }
  }

  lemma {:induction false} StakesAlike(a: seq<Entry>, b: seq<Entry>, idxs: seq<nat>)
    requires AlikeButSuspension(a, b) && InRange(idxs, |a|)
    ensures StakesAt(a, idxs) == StakesAt(b, idxs)
    decreases |idxs|
  {
    if idxs != [] {
      StakesAlike(a, b, idxs[..|idxs| - 1]);
    }
  }

  lemma {:induction false} DrawAlike(a: seq<Entry>, b: seq<Entry>, remaining: seq<nat>, lot: Lot, i: nat, n: nat)
    requires AlikeButSuspension(a, b) && InRange(remaining, |a|)
    ensures Draw(a, remaining, lot, i, n) == Draw(b, remaining, lot, i, n)
    decreases |remaining|
  {
    hide StakesAt, DrawOne, Lot.Value;
    if i < n && remaining != [] {
      StakesAlike(a, b, remaining);
      var p := DrawOne(StakesAt(a, remaining), lot.Value(i));
      WithoutKeeps(remaining, p, |a|);
      DrawAlike(a, b, Without(remaining, p), lot, i + 1, n);
    }
  }

  // --- fairness --------------------------------------------------------------------

  predicate NonNegative(stakes: seq<int>) { forall i :: 0 <= i < |stakes| ==> stakes[i] >= 0 }

  lemma TotalSnoc(stakes: seq<int>, i: nat)
    requires i < |stakes|
    ensures Total(stakes[..i + 1]) == Total(stakes[..i]) + stakes[i]
  {
    assert stakes[..i + 1][..i] == stakes[..i];
  }

  lemma {:induction false} TotalMono(stakes: seq<int>, p: nat, q: nat)
    requires NonNegative(stakes) && p <= q <= |stakes|
    ensures Total(stakes[..p]) <= Total(stakes[..q])
    decreases q
  {
    if p >= q {
    } else {
      TotalMono(stakes, p, q - 1);
      TotalSnoc(stakes, q - 1);
    }
  }

  lemma {:induction false} WinnerFromStretch(stakes: seq<int>, x: int, p: nat, q: nat)
    requires NonNegative(stakes) && x < Total(stakes) && p < |stakes| && q < |stakes| && Total(stakes[..q]) <= x
    ensures WinnerFrom(stakes, x, q) == p <==> Total(stakes[..p]) <= x < Total(stakes[..p]) + stakes[p]
    decreases |stakes| - q
  {
    hide Total;
    TotalSnoc(stakes, p);
    assert stakes[..|stakes|] == stakes;
    if p < q {
      TotalMono(stakes, p + 1, q);
    }
    if p > q {
      TotalMono(stakes, q + 1, p);
    }
    if q < |stakes| - 1 && Total(stakes[..q + 1]) <= x {
      WinnerFromStretch(stakes, x, p, q + 1);
    }
  }

  /** Position `p` wins exactly for the residues in its own stretch of the running total. */
  lemma WinnerStretch(stakes: seq<int>, x: int, p: nat)
    requires NonNegative(stakes) && stakes != [] && 0 <= x < Total(stakes) && p < |stakes|
    ensures Winner(stakes, x) == p <==> Total(stakes[..p]) <= x < Total(stakes[..p]) + stakes[p]
  {
    assert stakes[..0] == [];
    WinnerFromStretch(stakes, x, p, 0);
  }

  function Residues(lo: int, hi: int): (s: set<int>)
    requires lo <= hi
    ensures |s| == hi - lo && forall x :: x in s <==> lo <= x < hi
    decreases hi - lo
  {
    if lo == hi then {} else Residues(lo, hi - 1) + {hi - 1}
  }

  /** A draw is proportional to stake: exactly stake-many of the residues pick a given position. */
  lemma StakeShare(stakes: seq<int>, p: nat)
    requires NonNegative(stakes) && Total(stakes) > 0 && p < |stakes|
    ensures |set x | 0 <= x < Total(stakes) && Winner(stakes, x) == p| == stakes[p]
  {
    hide Winner;
    var lo := Total(stakes[..p]);
    TotalMono(stakes, 0, p);
    TotalMono(stakes, p + 1, |stakes|);
    TotalSnoc(stakes, p);
    assert stakes[..0] == [] && stakes[..|stakes|] == stakes;
    forall x | 0 <= x < Total(stakes) ensures Winner(stakes, x) == p <==> lo <= x < lo + stakes[p] {
      WinnerStretch(stakes, x, p);
    }
    assert (set x | 0 <= x < Total(stakes) && Winner(stakes, x) == p) == Residues(lo, lo + stakes[p]);
  }

  /** The listed positions that are not taken yet, in order. */
  function Left(idxs: seq<nat>, taken: seq<nat>): (left: seq<nat>)
    ensures forall i :: 0 <= i < |left| ==> left[i] in idxs
  {
    if idxs == [] then []
    else
      var n := |idxs| - 1;
      Left(idxs[..n], taken) + if idxs[n] in taken then [] else [idxs[n]]
  }

  lemma {:induction false} NothingTaken(idxs: seq<nat>)
    ensures Left(idxs, []) == idxs
    decreases |idxs|
  {
    if idxs != [] {
      NothingTaken(idxs[..|idxs| - 1]);
    }
  }

  lemma LeftStep(idxs: seq<nat>, front: seq<nat>, last: nat, taken: seq<nat>)
    requires idxs == front + [last]
    ensures Left(idxs, taken) == Left(front, taken) + if last in taken then [] else [last]
  {
    assert idxs[..|idxs| - 1] == front;
  }

  /** Taking a position away is the same as listing it as taken. */
  lemma {:induction false} LeftWithout(idxs: seq<nat>, p: nat, taken: seq<nat>)
    requires NoDup(idxs) && p < |idxs|
    ensures Left(idxs, [idxs[p]] + taken) == Left(Without(idxs, p), taken)
    decreases |idxs|
  {
    hide Left;
    var n := |idxs| - 1;
    var front, last, more := idxs[..n], idxs[n], [idxs[p]] + taken;
    LeftStep(idxs, front, last, more);
    if p == n {
      SameLeft(front, more, taken);
      assert Without(idxs, p) == front;
      assert Left(front, more) + [] == Left(front, more);
    } else {
      LeftWithout(front, p, taken);
      assert Without(idxs, p) == Without(front, p) + [last];
      LeftStep(Without(idxs, p), Without(front, p), last, taken);
    }
  }

  lemma {:induction false} SameLeft(idxs: seq<nat>, a: seq<nat>, b: seq<nat>)
    requires forall x :: x in idxs ==> (x in a <==> x in b)
    ensures Left(idxs, a) == Left(idxs, b)
    decreases |idxs|
  {
    if idxs != [] {
      SameLeft(idxs[..|idxs| - 1], a, b);
    }
  }

  lemma {:induction false} DrawnFromLeft(views: seq<Entry>, remaining: seq<nat>, lot: Lot, i: nat, n: nat, j: nat)
    requires InRange(remaining, |views|) && NoDup(remaining) && j < |Draw(views, remaining, lot, i, n)|
    ensures var picked := Draw(views, remaining, lot, i, n);
            var left := Left(remaining, picked[..j]);
            left != [] && picked[j] == left[DrawOne(StakesAt(views, left), lot.Value(i + j))]
    decreases |remaining|
  {
    hide StakesAt, DrawOne, Lot.Value, Left;
    DrawHead(views, remaining, lot, i, n);
    var p := DrawOne(StakesAt(views, remaining), lot.Value(i));
    var picked, rest := Draw(views, remaining, lot, i, n), Without(remaining, p);
    if j == 0 {
      NothingTaken(remaining);
      assert picked[..0] == [];
    } else {
      WithoutKeeps(remaining, p, |views|);
      DrawnFromLeft(views, rest, lot, i + 1, n, j - 1);
      assert picked[1..] == Draw(views, rest, lot, i + 1, n);
      assert picked[..j] == [remaining[p]] + picked[1..][..j - 1];
      LeftWithout(remaining, p, picked[1..][..j - 1]);
    }
  }

  /**
   Who gets place `j`: of the eligible workers not drawn yet, in pool order, the one on whose stretch
   of the running total of their stakes the j-th random value falls; the first when they have no stake.
   */
  lemma NextDrawn(views: seq<Entry>, lot: Lot, deadline: int, r: nat, cooldown: int, cap: int, counts: map<WorkerId, int>, j: nat)
    returns (left: seq<nat>, p: nat)
    requires (forall i :: 0 <= i < |views| ==> views[i].stake >= 0) && j < |Selected(views, lot, deadline, r, cooldown, cap, counts)|
    ensures var picked := Selected(views, lot, deadline, r, cooldown, cap, counts);
            left == Left(Eligible(views, deadline, r, cooldown, cap, counts), picked[..j]) && InRange(left, |views|)
            && p < |left| && picked[j] == left[p]
    ensures var stakes := StakesAt(views, left);
            if Total(stakes) <= 0 then p == 0
            else Total(stakes[..p]) <= lot.Value(j) % Total(stakes) < Total(stakes[..p]) + views[left[p]].stake
  {
    hide Eligible, Draw, Left, Total, Lot.Value, Winner;
    var elig := Eligible(views, deadline, r, cooldown, cap, counts);
    FiltersDistinct(views, deadline, r, cooldown, cap, counts);
    DrawnFromLeft(views, elig, lot, 0, r, j);
    left := Left(elig, Draw(views, elig, lot, 0, r)[..j]);
    var stakes := StakesAt(views, left);
    p := DrawOne(stakes, lot.Value(j));
    StakesAtIs(views, left);
    if Total(stakes) > 0 {
      WinnerStretch(stakes, lot.Value(j) % Total(stakes), p);
    }
  }

  lemma {:induction false} StakesAtIs(views: seq<Entry>, idxs: seq<nat>)
    requires InRange(idxs, |views|)
    ensures forall i :: 0 <= i < |idxs| ==> StakesAt(views, idxs)[i] == views[idxs[i]].stake
    decreases |idxs|
  {
    if idxs != [] {
      StakesAtIs(views, idxs[..|idxs| - 1]);
    }
  }

  // --- the objects -------------------------------------------------------------------

  class WorkerEntry {
    const workerId: WorkerId
    const stakeWei: int
    var lastAssignedDeadline: int
    var consecutiveMisses: int
    var suspendedUntilDeadline: int

    constructor (workerId: WorkerId, stakeWei: int)
      ensures View() == Entry(workerId, stakeWei, -1_000_000_000, 0, -1)
    {
      this.workerId := workerId;
      this.stakeWei := stakeWei;
      lastAssignedDeadline := -1_000_000_000;
      consecutiveMisses := 0;
      suspendedUntilDeadline := -1;
    }

    function View(): Entry
      reads this
    {
      Entry(workerId, stakeWei, lastAssignedDeadline, consecutiveMisses, suspendedUntilDeadline)
    }

    /** A delivery clears the misses; enough misses in a row suspend for a while and clear them too. */
    method RecordOutcome(delivered: bool, deadline: int, missThreshold: int, suspension: int)
      modifies this
      ensures View() == AfterOutcome(old(View()), delivered, deadline, missThreshold, suspension)
    {
      if delivered {
        consecutiveMisses := 0;
        return;
      }
      consecutiveMisses := consecutiveMisses + 1;
      if consecutiveMisses >= missThreshold {
        suspendedUntilDeadline := deadline + suspension;
        consecutiveMisses := 0;
      }
    }
  }

  function AfterOutcome(e: Entry, delivered: bool, deadline: int, missThreshold: int, suspension: int): Entry {
    if delivered then e.(misses := 0)
    else if e.misses + 1 >= missThreshold then e.(misses := 0, suspendedUntil := deadline + suspension)
    else e.(misses := e.misses + 1)
  }

  datatype Outcome = Outcome(delivered: bool, deadline: int)

  /** Outcomes of a worker's jobs, oldest first. */
  function AfterOutcomes(e: Entry, os: seq<Outcome>, missThreshold: int, suspension: int): Entry {
    if os == [] then e
    else
      var n := |os| - 1;
      AfterOutcome(AfterOutcomes(e, os[..n], missThreshold, suspension), os[n].delivered, os[n].deadline, missThreshold, suspension)
  }

  /** How many jobs in a row were missed up to the end of the history. */
  function MissedInARow(os: seq<Outcome>): nat {
    if os == [] || os[|os| - 1].delivered then 0 else 1 + MissedInARow(os[..|os| - 1])
  }

  /** Job `k` completes a whole number of thresholds of misses in a row. */
  predicate Strike(os: seq<Outcome>, k: nat, missThreshold: int)
    requires k < |os| && missThreshold >= 1
  {
    !os[k].delivered && MissedInARow(os[..k + 1]) % missThreshold == 0
  }

  /** The miss counter of a worker that started clean is its current run of misses modulo the threshold. */
  lemma {:induction false} MissesAreTheRun(e: Entry, os: seq<Outcome>, missThreshold: int, suspension: int)
    requires e.misses == 0 && missThreshold >= 1
    ensures var after := AfterOutcomes(e, os, missThreshold, suspension);
      after == e.(misses := MissedInARow(os) % missThreshold, suspendedUntil := after.suspendedUntil)
  {
    hide AfterOutcome;
    if os == [] {
      OneMoreMiss(0, missThreshold);
    } else {
      var front, last := os[..|os| - 1], os[|os| - 1];
      MissesAreTheRun(e, front, missThreshold, suspension);
      OneMoreOutcome(AfterOutcomes(e, front, missThreshold, suspension), MissedInARow(front), last, missThreshold, suspension);
    }
  }

  lemma OneMoreOutcome(e: Entry, run: nat, o: Outcome, missThreshold: int, suspension: int)
    requires missThreshold >= 1 && e.misses == run % missThreshold
    ensures var after := AfterOutcome(e, o.delivered, o.deadline, missThreshold, suspension);
      after == e.(misses := (if o.delivered then 0 else run + 1) % missThreshold, suspendedUntil := after.suspendedUntil)
  {
    OneMoreMiss(run, missThreshold);
  }

  lemma {:induction false} LastJobSuspends(e: Entry, os: seq<Outcome>, missThreshold: int, suspension: int)
    requires e.misses == 0 && missThreshold >= 1 && os != []
    ensures var n := |os| - 1;
      AfterOutcomes(e, os, missThreshold, suspension).suspendedUntil
      == if Strike(os, n, missThreshold) then os[n].deadline + suspension
         else AfterOutcomes(e, os[..n], missThreshold, suspension).suspendedUntil
  {
    var n := |os| - 1;
    assert os[..n + 1] == os;
    MissesAreTheRun(e, os[..n], missThreshold, suspension);
    OneMoreMiss(MissedInARow(os[..n]), missThreshold);
  }

  /** A suspension dates from the latest strike, whatever was delivered since; without one there is none. */
  lemma {:induction false} SuspendedByTheLatestStrike(e: Entry, os: seq<Outcome>, missThreshold: int, suspension: int, k: int)
    requires e.misses == 0 && missThreshold >= 1 && -1 <= k < |os|
    requires k >= 0 ==> Strike(os, k, missThreshold)
    requires forall j | k < j < |os| :: !Strike(os, j, missThreshold)
    ensures AfterOutcomes(e, os, missThreshold, suspension).suspendedUntil
            == if k >= 0 then os[k].deadline + suspension else e.suspendedUntil
  {
    hide AfterOutcome;
    var n := |os| - 1;
    if n >= 0 {
      LastJobSuspends(e, os, missThreshold, suspension);
      if k < n {
        var front := os[..n];
        forall j | 0 <= j < n ensures Strike(os, j, missThreshold) == Strike(front, j, missThreshold) {
          assert os[..j + 1] == front[..j + 1];
        }
        SuspendedByTheLatestStrike(e, front, missThreshold, suspension, k);
      }
    }
  }

  lemma OneMoreMiss(run: nat, threshold: int)
    requires threshold >= 1
    ensures 0 % threshold == 0
    ensures (run + 1) % threshold == if run % threshold + 1 >= threshold then 0 else run % threshold + 1
  {
    var q, r := run / threshold, run % threshold;
    DivMod(run, threshold);
    if r + 1 == threshold {
      assert threshold * (q + 1) == threshold * q + threshold;
      ModUnique(run + 1, threshold, q + 1, 0);
    } else {
      ModUnique(run + 1, threshold, q, r + 1);
    }
  }

  class AssignedCount {
    var counts: map<WorkerId, int>

    constructor ()
      ensures counts == map[]
    {
      counts := map[];
    }
  }

  class LotteryStats {
    var pool: int
    var droppedSuspended: int
    var droppedCooldown: int
    var droppedCap: int
    var relaxedCap: bool
    var relaxedCooldown: bool
    var chosen: int

    constructor ()
      ensures !relaxedCap && !relaxedCooldown
    {
      pool, droppedSuspended, droppedCooldown, droppedCap := 0, 0, 0, 0;
      relaxedCap, relaxedCooldown := false, false;
      chosen := 0;
    }
  }

  /** The share of cells one worker may hold: a twentieth, or more in a small network. */
  function AdaptiveCapRatio(n: int, r: int): real {
    if n <= 0 then 1.0
    else
      var share := r as real / n as real;
      if share > 0.05 then share else 0.05
  }

  function Cap(totalCells: int, n: int, r: int): (cap: int)
    ensures cap >= 1
  {
    var floor := (totalCells as real * AdaptiveCapRatio(n, r)).Floor;
    if floor > 1 then floor else 1
  }

  function Views(pool: seq<WorkerEntry>): (views: seq<Entry>)
    reads pool
    ensures |views| == |pool|
  {
    if pool == [] then [] else [pool[0].View()] + Views(pool[1..])
  }

  lemma {:induction false} ViewsAt(pool: seq<WorkerEntry>, i: nat)
    requires i < |pool|
    ensures Views(pool)[i] == pool[i].View()
  {
    if i == 0 {
    } else {
      ViewsAt(pool[1..], i - 1);
    }
  }

  /** The workers at the given positions. */
  function At<T>(pool: seq<T>, idxs: seq<nat>): (ws: seq<T>)
    requires InRange(idxs, |pool|)
    ensures |ws| == |idxs|
  {
    if idxs == [] then [] else At(pool, idxs[..|idxs| - 1]) + [pool[idxs[|idxs| - 1]]]
  }

  lemma {:induction false} AtIs<T>(pool: seq<T>, idxs: seq<nat>, i: nat)
    requires InRange(idxs, |pool|) && i < |idxs|
    ensures At(pool, idxs)[i] == pool[idxs[i]]
    decreases |idxs|
  {
    if i >= |idxs| - 1 {
    } else {
      AtIs(pool, idxs[..|idxs| - 1], i);
    }
  }

  /** Counts after one more cell for each listed worker. */
  function Tally(counts: map<WorkerId, int>, ids: seq<WorkerId>): map<WorkerId, int> {
    if ids == [] then counts
    else
      var before := Tally(counts, ids[..|ids| - 1]);
      var id := ids[|ids| - 1];
      before[id := CountOf(before, id) + 1]
  }

  function Ids(ws: seq<WorkerEntry>): (ids: seq<WorkerId>)
    ensures |ids| == |ws| && forall i :: 0 <= i < |ws| ==> ids[i] == ws[i].workerId
  {
    if ws == [] then [] else Ids(ws[..|ws| - 1]) + [ws[|ws| - 1].workerId]
  }

  /** Keeps the workers that pass, in order. */
  method Filter(ws: seq<WorkerEntry>, rule: Rule, ghost pool: seq<WorkerEntry>, ghost idxs: seq<nat>) returns (kept: seq<WorkerEntry>)
    requires InRange(idxs, |pool|) && ws == At(pool, idxs)
    ensures kept == At(pool, Keep(Views(pool), idxs, rule))
  {
    hide Views, At, Rule.Passes, Keep;
    kept := [];
    KeepStart(Views(pool), rule);
    AtNone(pool);
    for i := 0 to |ws|
      invariant kept == At(pool, Keep(Views(pool), idxs[..i], rule))
    {
      KeepStep(Views(pool), idxs, rule, i);
      AtIs(pool, idxs, i);
      ViewsAt(pool, idxs[i]);
      if rule.Passes(ws[i].View()) {
        AtSnoc(pool, Keep(Views(pool), idxs[..i], rule), idxs[i]);
        kept := kept + [ws[i]];
      }
    }
    assert idxs[..|idxs|] == idxs;
  }

  lemma AtMembers<T>(pool: seq<T>, idxs: seq<nat>)
    requires InRange(idxs, |pool|)
    ensures forall w :: w in At(pool, idxs) ==> w in pool
  {
    hide At;
    forall i | 0 <= i < |idxs| ensures At(pool, idxs)[i] in pool {
      AtIs(pool, idxs, i);
    }
  }

  lemma AtNone<T>(pool: seq<T>)
    ensures At(pool, []) == []
  {
  }

  lemma AtSnoc<T>(pool: seq<T>, idxs: seq<nat>, i: nat)
    requires InRange(idxs, |pool|) && i < |pool|
    ensures At(pool, idxs + [i]) == At(pool, idxs) + [pool[i]]
  {
    assert (idxs + [i])[..|idxs|] == idxs;
  }

  lemma KeepStart(views: seq<Entry>, rule: Rule)
    ensures Keep(views, [], rule) == []
  {
  }

  lemma KeepStep(views: seq<Entry>, idxs: seq<nat>, rule: Rule, i: nat)
    requires InRange(idxs, |views|) && i < |idxs|
    ensures Keep(views, idxs[..i + 1], rule)
         == if rule.Passes(views[idxs[i]]) then Keep(views, idxs[..i], rule) + [idxs[i]] else Keep(views, idxs[..i], rule)
  {
    hide Rule.Passes;
    assert idxs[..i + 1][..i] == idxs[..i];
  }

  function StakesOf(ws: seq<WorkerEntry>): (stakes: seq<int>)
    ensures |stakes| == |ws| && forall i :: 0 <= i < |ws| ==> stakes[i] == ws[i].stakeWei
  {
    if ws == [] then [] else StakesOf(ws[..|ws| - 1]) + [ws[|ws| - 1].stakeWei]
  }

  /** Adds up the stakes of the workers still in the draw. */
  method SumStakes(ws: seq<WorkerEntry>) returns (total: int)
    ensures total == Total(StakesOf(ws))
  {
    total := 0;
    for i := 0 to |ws|
      invariant total == Total(StakesOf(ws)[..i])
    {
      TotalSnoc(StakesOf(ws), i);
      total := total + ws[i].stakeWei;
    }
    assert StakesOf(ws)[..|ws|] == StakesOf(ws);
  }

  /** Walks the running total up to the position that the value falls on. */
  method FindWinner(remaining: seq<WorkerEntry>, x: int) returns (winner: nat)
    requires remaining != [] && 0 <= x < Total(StakesOf(remaining))
    ensures winner == Winner(StakesOf(remaining), x)
  {
    hide StakesOf, Total;
    ghost var stakes := StakesOf(remaining);
    winner := 0;
    var acc := 0;
    var idx: nat := 0;
    NoTotal();
    assert stakes[..0] == [] && stakes[..|stakes|] == stakes;
    while idx < |remaining|
      invariant idx <= |remaining| && acc == Total(stakes[..idx])
      invariant idx == |remaining| ==> acc <= x
      invariant idx < |remaining| ==> WinnerFrom(stakes, x, idx) == Winner(stakes, x)
    {
      TotalSnoc(stakes, idx);
      acc := acc + remaining[idx].stakeWei;
      if acc > x {
        return idx;
      }
      idx := idx + 1;
    }
    assert false;
  }

  lemma NoTotal()
    ensures Total([]) == 0
  {
  }

  lemma {:induction false} StakesAtOf(pool: seq<WorkerEntry>, idxs: seq<nat>)
    requires InRange(idxs, |pool|)
    ensures StakesAt(Views(pool), idxs) == StakesOf(At(pool, idxs))
    decreases |idxs|
  {
    hide Views;
    if idxs == [] {
    } else {
      var n := |idxs| - 1;
      StakesAtOf(pool, idxs[..n]);
      ViewsAt(pool, idxs[n]);
      assert At(pool, idxs)[..n] == At(pool, idxs[..n]);
    }
  }

  lemma {:induction false} AtWithout<T>(pool: seq<T>, idxs: seq<nat>, p: nat)
    requires InRange(idxs, |pool|) && p < |idxs|
    ensures InRange(Without(idxs, p), |pool|) && At(pool, Without(idxs, p)) == Without(At(pool, idxs), p)
  {
    hide At;
    var rest := Without(idxs, p);
    assert forall i :: 0 <= i < |rest| ==> rest[i] == idxs[if i < p then i else i + 1];
    forall i | 0 <= i < |rest| ensures At(pool, rest)[i] == Without(At(pool, idxs), p)[i] {
      AtIs(pool, rest, i);
      AtIs(pool, idxs, if i < p then i else i + 1);
    }
  }

  lemma DrawHead(views: seq<Entry>, remaining: seq<nat>, lot: Lot, i: nat, n: nat)
    requires InRange(remaining, |views|) && i < n && remaining != []
    ensures var p := DrawOne(StakesAt(views, remaining), lot.Value(i));
            InRange(Without(remaining, p), |views|)
            && Draw(views, remaining, lot, i, n) == [remaining[p]] + Draw(views, Without(remaining, p), lot, i + 1, n)
  {
    hide StakesAt, DrawOne, Lot.Value;
    WithoutKeeps(remaining, DrawOne(StakesAt(views, remaining), lot.Value(i)), |views|);
  }

  lemma DrawEnd(views: seq<Entry>, remaining: seq<nat>, lot: Lot, i: nat, n: nat)
    requires InRange(remaining, |views|) && (i >= n || remaining == [])
    ensures Draw(views, remaining, lot, i, n) == []
  {
  }

  /** Draws up to `r` of the eligible workers, by stake and without replacement. */
  method DrawWorkers(lot: Lot, eligible: seq<WorkerEntry>, r: int, ghost pool: seq<WorkerEntry>, ghost idxs: seq<nat>)
    returns (chosen: seq<WorkerEntry>)
    requires InRange(idxs, |pool|) && eligible == At(pool, idxs)
    ensures var picked := Draw(Views(pool), idxs, lot, 0, if r < 0 then 0 else r);
            InRange(picked, |pool|) && chosen == At(pool, picked)
  {
    hide Views, At, StakesAt, StakesOf, Total, Winner, Lot.Value, Draw;
    ghost var views, n := Views(pool), if r < 0 then 0 else r;
    chosen := [];
    var remaining := eligible;
    ghost var rest, done := idxs, [];
    var i: nat := 0;
    AtNone(pool);
    while i < r && remaining != []
      invariant InRange(rest, |pool|) && remaining == At(pool, rest)
      invariant InRange(done, |pool|) && chosen == At(pool, done)
      invariant i <= n && Draw(views, idxs, lot, 0, n) == done + Draw(views, rest, lot, i, n)
      decreases |remaining|
    {
      StakesAtOf(pool, rest);
      DrawHead(views, rest, lot, i, n);
      var total := SumStakes(remaining);
      var p: nat := 0;
      if total > 0 {
        p := FindWinner(remaining, lot.Value(i) % total);
      }
      AtSnoc(pool, done, rest[p]);
      AtIs(pool, rest, p);
      AtWithout(pool, rest, p);
      chosen := chosen + [remaining[p]];
      remaining := Without(remaining, p);
      done, rest := done + [rest[p]], Without(rest, p);
      i := i + 1;
    }
    DrawEnd(views, rest, lot, i, n);
    assert done + [] == done;
  }

  /** Books the cell on the chosen workers and on the counts. */
  method Book(chosen: seq<WorkerEntry>, tally: AssignedCount, deadline: int, ghost pool: seq<WorkerEntry>)
    requires forall w :: w in chosen ==> w in pool
    modifies pool, tally
    ensures tally.counts == Tally(old(tally.counts), Ids(chosen))
    ensures forall w :: w in pool ==> w.View() == if w in chosen then old(w.View()).(last := deadline) else old(w.View())
  {
    hide Tally, Ids;
    BookNone(tally.counts);
    for i := 0 to |chosen|
      invariant tally.counts == Tally(old(tally.counts), Ids(chosen[..i]))
      invariant forall w :: w in pool ==>
        w.View() == if w in chosen[..i] then old(w.View()).(last := deadline) else old(w.View())
    {
      BookOne(old(tally.counts), chosen[..i], chosen[i]);
      assert chosen[..i + 1] == chosen[..i] + [chosen[i]];
      tally.counts := tally.counts[chosen[i].workerId := CountOf(tally.counts, chosen[i].workerId) + 1];
      assert chosen[i] in chosen && chosen[i] in pool;
      chosen[i].lastAssignedDeadline := deadline;
    }
    assert chosen[..|chosen|] == chosen;
  }

  lemma BookNone(counts: map<WorkerId, int>)
    ensures Tally(counts, Ids([])) == counts
  {
  }

  lemma BookOne(counts: map<WorkerId, int>, ws: seq<WorkerEntry>, w: WorkerEntry)
    ensures var before := Tally(counts, Ids(ws));
            Tally(counts, Ids(ws + [w])) == before[w.workerId := CountOf(before, w.workerId) + 1]
  {
    assert (ws + [w])[..|ws|] == ws;
    assert Ids(ws + [w])[..|ws|] == Ids(ws);
  }

  /** Too few free workers among the live ones: the cooldown is not observed. */
  predicate CooldownRelaxes(views: seq<Entry>, deadline: int, r: int, cooldown: int) {
    |Keep(views, Live(views, deadline, r), FreeAt(deadline, cooldown))| < r
  }

  /** Too few workers under the cap among those left: the cap is not observed. */
  predicate CapRelaxes(views: seq<Entry>, deadline: int, r: int, cooldown: int, cap: int, counts: map<WorkerId, int>) {
    |Keep(views, Free(views, deadline, r, cooldown), Below(cap, counts))| < r
  }

  lemma FiltersAre(views: seq<Entry>, deadline: int, r: int, cooldown: int, cap: int, counts: map<WorkerId, int>)
    ensures var kept := Keep(views, Iota(|views|), LiveAt(deadline));
            Live(views, deadline, r) == if |kept| < r then Iota(|views|) else kept
    ensures var live := Live(views, deadline, r);
            var kept := Keep(views, live, FreeAt(deadline, cooldown));
            Free(views, deadline, r, cooldown) == (if |kept| < r then live else kept)
            && (CooldownRelaxes(views, deadline, r, cooldown) <==> |kept| < r)
    ensures var free := Free(views, deadline, r, cooldown);
            var kept := Keep(views, free, Below(cap, counts));
            Eligible(views, deadline, r, cooldown, cap, counts) == (if |kept| < r then free else kept)
            && (CapRelaxes(views, deadline, r, cooldown, cap, counts) <==> |kept| < r)
  {
    hide Keep, Iota;
  }

  /** The three filters, each dropped when it leaves fewer than `r`. */
  method FilterPool(pool: seq<WorkerEntry>, deadline: int, r: int, cap: int, counts: map<WorkerId, int>, cooldown: int, stats: LotteryStats)
    returns (eligible: seq<WorkerEntry>)
    modifies stats
    ensures eligible == At(pool, Eligible(Views(pool), deadline, r, cooldown, cap, counts))
    ensures stats.relaxedCooldown == (old(stats.relaxedCooldown) || CooldownRelaxes(Views(pool), deadline, r, cooldown))
    ensures stats.relaxedCap == (old(stats.relaxedCap) || CapRelaxes(Views(pool), deadline, r, cooldown, cap, counts))
  {
    hide Views, At, Keep, Iota, Rule.Passes, Live, Free, Eligible, CooldownRelaxes, CapRelaxes, InRange;
    ghost var views := Views(pool);
    AtIota(pool);
    FiltersAre(views, deadline, r, cooldown, cap, counts);

    var live := Filter(pool, LiveAt(deadline), pool, Iota(|pool|));
    stats.droppedSuspended := |pool| - |live|;
    if |live| < r {
      live := pool;
    }
    assert live == At(pool, Live(views, deadline, r));

    var free := Filter(live, FreeAt(deadline, cooldown), pool, Live(views, deadline, r));
    stats.droppedCooldown := |live| - |free|;
    if |free| < r {
      free := live;
      stats.relaxedCooldown := true;
    }
    assert free == At(pool, Free(views, deadline, r, cooldown));

    eligible := Filter(free, Below(cap, counts), pool, Free(views, deadline, r, cooldown));
    stats.droppedCap := |free| - |eligible|;
    if |eligible| < r {
      eligible := free;
      stats.relaxedCap := true;
    }
  }

  /**
   Chooses the workers for one shard at one deadline and books the cell on them. The result is the
   selection made on the records as they were before the call.
   */
  method WorkerLottery(keccak: Sha, beacon: ByteString, shard: nat, pool: seq<WorkerEntry>, deadline: int, r: int,
                       tally: AssignedCount, totalCells: int, cooldown: int, stats: LotteryStats)
    returns (chosen: seq<WorkerEntry>)
    modifies pool, tally, stats
    ensures var picked := Selected(old(Views(pool)), Lot(keccak, beacon, shard), deadline, r, cooldown, Cap(totalCells, |pool|, r), old(tally.counts));
            InRange(picked, |pool|) && chosen == At(pool, picked)
    ensures tally.counts == Tally(old(tally.counts), Ids(chosen))
    ensures forall w :: w in pool ==> w.View() == if w in chosen then old(w.View()).(last := deadline) else old(w.View())
    ensures pool != [] ==>
              stats.chosen == |chosen|
              && stats.relaxedCooldown == (old(stats.relaxedCooldown) || CooldownRelaxes(old(Views(pool)), deadline, r, cooldown))
              && stats.relaxedCap == (old(stats.relaxedCap)
                                      || CapRelaxes(old(Views(pool)), deadline, r, cooldown, Cap(totalCells, |pool|, r), old(tally.counts)))
  {
    hide Views, At, Eligible, Draw, Tally, Ids, Cap, CooldownRelaxes, CapRelaxes;
    stats.pool := |pool|;
    if pool == [] {
      EmptyPool(pool, Lot(keccak, beacon, shard), deadline, r, cooldown, Cap(totalCells, 0, r), tally.counts);
      return [];
    }
    var cap := Cap(totalCells, |pool|, r);
    var eligible := FilterPool(pool, deadline, r, cap, tally.counts, cooldown, stats);
    chosen := DrawWorkers(Lot(keccak, beacon, shard), eligible, r, pool, Eligible(Views(pool), deadline, r, cooldown, cap, tally.counts));
    assert Views(pool) == old(Views(pool));
    ghost var picked := Selected(Views(pool), Lot(keccak, beacon, shard), deadline, r, cooldown, cap, tally.counts);
    AtMembers(pool, picked);
    Book(chosen, tally, deadline, pool);
    stats.chosen := |chosen|;
  }

  lemma AtIota<T>(pool: seq<T>)
    ensures At(pool, Iota(|pool|)) == pool
  {
    hide At, Iota;
    IotaIs(|pool|);
    forall i | 0 <= i < |pool| ensures At(pool, Iota(|pool|))[i] == pool[i] {
      AtIs(pool, Iota(|pool|), i);
    }
  }

  lemma EmptyPool(pool: seq<WorkerEntry>, lot: Lot, deadline: int, r: int, cooldown: int, cap: int, counts: map<WorkerId, int>)
    requires pool == []
    ensures Views(pool) == [] && Selected([], lot, deadline, r, cooldown, cap, counts) == [] && At(pool, []) == []
    ensures Tally(counts, Ids([])) == counts
  {
  }
}
