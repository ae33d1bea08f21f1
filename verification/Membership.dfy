/**
 The membership registry: a hash chain over membership changes, and the deals each cell must answer
 for.
 */
module Membership {
  import opened Aggregate
  import opened Bytes
  import opened Numbers
  import opened Reconcile
  import opened Wrappers
  import KeccakTree

  datatype Kind = PROVIDER | DEAL_OPEN | DEAL_ACTIVE | DEAL_CLOSED {
    function Name(): ByteString {
      match this
      case PROVIDER => [80, 82, 79, 86, 73, 68, 69, 82]
      case DEAL_OPEN => [68, 69, 65, 76, 95, 79, 80, 69, 78]
      case DEAL_ACTIVE => [68, 69, 65, 76, 95, 65, 67, 84, 73, 86, 69]
      case DEAL_CLOSED => [68, 69, 65, 76, 95, 67, 76, 79, 83, 69, 68]
    }
  }

  datatype MembershipEntry = MembershipEntry(kind: Kind, a: ByteString, b: ByteString) {
    predicate Sized() { |a| <= 32 && |b| <= 32 }

    function Padded(): MembershipEntry { MembershipEntry(kind, RJust(a), RJust(b)) }

    /** What an entry adds to the preimage of the next value. */
    function Bytes(): ByteString { LJust(kind.Name()) + (RJust(a) + RJust(b)) }
  }

  function Zeros(n: nat): (z: ByteString)
    ensures |z| == n
  {
    seq(n, _ => 0)
  }

  /** A name at the front of 32 bytes. */
  function LJust(b: ByteString): (p: ByteString)
    ensures |b| <= 32 ==> |p| == 32
  {
    if |b| >= 32 then b else b + Zeros(32 - |b|)
  }

  /** A value at the end of 32 bytes; a longer one is left as it is. */
  function RJust(b: ByteString): (p: ByteString)
    ensures |b| <= 32 ==> |p| == 32
  {
    if |b| >= 32 then b else Zeros(32 - |b|) + b
  }

  /** The name fills its 32 bytes from the front, the two fields theirs from the end. */
  lemma EntryLayout(e: MembershipEntry)
    requires e.Sized()
    ensures var b, n := e.Bytes(), |e.kind.Name()|;
            |b| == 96 && n <= 32 && b[..n] == e.kind.Name() && b[64 - |e.a|..64] == e.a && b[96 - |e.b|..] == e.b
            && (forall i :: n <= i < 64 - |e.a| || 64 <= i < 96 - |e.b| ==> b[i] == 0)
  {
    hide Kind.Name;
    NamesShort(e.kind);
  }

  function EntryPreimage(log: ByteString, e: MembershipEntry): ByteString { log + e.Bytes() }

  function Replay(k: Sha, entries: seq<MembershipEntry>, genesis: Digest): Digest {
    if entries == [] then genesis
    else
      var n := |entries| - 1;
      k(EntryPreimage(Replay(k, entries[..n], genesis), entries[n]))
  }

  method ReplayLog(k: Sha, entries: seq<MembershipEntry>, genesis: Digest) returns (log: Digest)
    ensures log == Replay(k, entries, genesis)
  {
    hide EntryPreimage;
    log := genesis;
    for i := 0 to |entries|
      invariant log == Replay(k, entries[..i], genesis)
    {
      assert entries[..i + 1][..i] == entries[..i];
      log := k(EntryPreimage(log, entries[i]));
    }
    assert entries[..|entries|] == entries;
  }

  lemma KindsDiffer(x: Kind, y: Kind)
    requires LJust(x.Name()) == LJust(y.Name())
    ensures x == y
  {
    assert LJust(x.Name())[5] == LJust(y.Name())[5] && LJust(x.Name())[6] == LJust(y.Name())[6];
  }

  lemma NamesShort(kind: Kind)
    ensures |kind.Name()| <= 32
  {
  }

  /** Entries with fields of at most 32 bytes add the same bytes exactly when padding makes them equal. */
  lemma SizedEntriesBind(x: MembershipEntry, y: MembershipEntry)
    requires x.Sized() && y.Sized()
    ensures x.Bytes() == y.Bytes() <==> x.Padded() == y.Padded()
  {
    hide LJust, RJust, Kind.Name;
    if x.Bytes() == y.Bytes() {
      NamesShort(x.kind);
      NamesShort(y.kind);
      SplitEqual(LJust(x.kind.Name()), RJust(x.a) + RJust(x.b), LJust(y.kind.Name()), RJust(y.a) + RJust(y.b));
      SplitEqual(RJust(x.a), RJust(x.b), RJust(y.a), RJust(y.b));
      KindsDiffer(x.kind, y.kind);
    }
  }

  /** A short field and the same field after a zero byte are one field. */
  lemma ShortFieldsPadAlike(k: Sha, kind: Kind, b: ByteString, genesis: Digest)
    ensures Replay(k, [MembershipEntry(kind, [], b)], genesis) == Replay(k, [MembershipEntry(kind, [0], b)], genesis)
  {
    hide Kind.Name;
    assert RJust([]) == RJust([0]);
    assert MembershipEntry(kind, [], b).Bytes() == MembershipEntry(kind, [0], b).Bytes();
    ReplayOne(k, MembershipEntry(kind, [], b), genesis);
    ReplayOne(k, MembershipEntry(kind, [0], b), genesis);
  }

  /** Beyond 32 bytes the boundary between the fields is lost. */
  lemma LongFieldsLoseBoundary(k: Sha, kind: Kind, a: ByteString, c: Byte, b: ByteString, genesis: Digest)
    requires |a| == 32 && |b| == 32
    ensures Replay(k, [MembershipEntry(kind, a + [c], b)], genesis) == Replay(k, [MembershipEntry(kind, a, [c] + b)], genesis)
  {
    hide Kind.Name, LJust;
    assert (a + [c]) + b == a + ([c] + b);
    ReplayOne(k, MembershipEntry(kind, a + [c], b), genesis);
    ReplayOne(k, MembershipEntry(kind, a, [c] + b), genesis);
  }

  lemma ReplayOne(k: Sha, e: MembershipEntry, genesis: Digest)
    ensures Replay(k, [e], genesis) == k(EntryPreimage(genesis, e))
  {
    assert [e][..0] == [];
  }

  predicate AllSized(entries: seq<MembershipEntry>) { forall e :: e in entries ==> e.Sized() }

  /** Compares two logs from their last entries back. */
  function ReplayClash(k: Sha, a: seq<MembershipEntry>, b: seq<MembershipEntry>, genesis: Digest): (c: Clash)
    ensures c.Genuine(k)
    decreases |a|
  {
    if a == [] || b == [] then NoClash
    else
      var m, n := |a| - 1, |b| - 1;
      Compare(k, EntryPreimage(Replay(k, a[..m], genesis), a[m]), EntryPreimage(Replay(k, b[..n], genesis), b[n]))
      .Else(ReplayClash(k, a[..m], b[..n], genesis))
  }

  /** The entries of `a` add what the last entries of `b` add, and what `b` has before them adds nothing. */
  ghost predicate SameTail(k: Sha, a: seq<MembershipEntry>, b: seq<MembershipEntry>, genesis: Digest)
    requires |a| <= |b|
  {
    && (forall i :: 0 <= i < |a| ==> a[i].Bytes() == b[|b| - |a| + i].Bytes())
    && Replay(k, b[..|b| - |a|], genesis) == genesis
  }

  /**
   What a replayed value commits to, for any entries: two logs have one value exactly when the shorter
   adds the bytes of the end of the longer, and the longer starts with entries that replay to the
   genesis value; or a collision shows.
   */
  lemma {:induction false} ReplayBinds(k: Sha, a: seq<MembershipEntry>, b: seq<MembershipEntry>, genesis: Digest)
    requires |a| <= |b| && ReplayClash(k, a, b, genesis).NoClash?
    ensures Replay(k, a, genesis) == Replay(k, b, genesis) <==> SameTail(k, a, b, genesis)
    decreases |a|
  {
    hide Compare, MembershipEntry.Bytes, SameTail;
    if a == [] {
      NoTail(k, b, genesis);
    } else {
      var m, n := |a| - 1, |b| - 1;
      var x, y := Replay(k, a[..m], genesis), Replay(k, b[..n], genesis);
      ReplayBinds(k, a[..m], b[..n], genesis);
      if Replay(k, a, genesis) == Replay(k, b, genesis) {
        SplitEqual(x, a[m].Bytes(), y, b[n].Bytes());
      }
      TailSnoc(k, a, b, genesis);
    }
  }

  lemma NoTail(k: Sha, b: seq<MembershipEntry>, genesis: Digest)
    ensures SameTail(k, [], b, genesis) <==> Replay(k, b, genesis) == genesis
  {
    hide Replay;
    assert b[..|b|] == b;
  }

  lemma TailSnoc(k: Sha, a: seq<MembershipEntry>, b: seq<MembershipEntry>, genesis: Digest)
    requires a != [] && |a| <= |b|
    ensures SameTail(k, a, b, genesis)
            <==> SameTail(k, a[..|a| - 1], b[..|b| - 1], genesis) && a[|a| - 1].Bytes() == b[|b| - 1].Bytes()
  {
    hide MembershipEntry.Bytes, Replay;
    var m, n := |a| - 1, |b| - 1;
    assert b[..n][..n - m] == b[..|b| - |a|];
    if SameTail(k, a[..m], b[..n], genesis) && a[m].Bytes() == b[n].Bytes() {
      forall i | 0 <= i < |a| ensures a[i].Bytes() == b[|b| - |a| + i].Bytes() {
        if i < m {
          assert a[..m][i].Bytes() == b[..n][n - m + i].Bytes();
        }
      }
    }
    if SameTail(k, a, b, genesis) {
      assert a[m].Bytes() == b[|b| - |a| + m].Bytes();
    }
  }

  predicate SamePadded(a: seq<MembershipEntry>, b: seq<MembershipEntry>) {
    |a| == |b| && forall i :: 0 <= i < |a| ==> a[i].Padded() == b[i].Padded()
  }

  /**
   With fields of at most 32 bytes, as the contract has them, two logs of one length have one value
   exactly when padding the fields with zeros makes them equal, or a collision shows.
   */
  lemma SizedReplayBinds(k: Sha, a: seq<MembershipEntry>, b: seq<MembershipEntry>, genesis: Digest)
    requires |a| == |b| && AllSized(a) && AllSized(b) && ReplayClash(k, a, b, genesis).NoClash?
    ensures Replay(k, a, genesis) == Replay(k, b, genesis) <==> SamePadded(a, b)
  {
    hide AllSized, ReplayClash, Replay, SameTail, SamePadded;
    ReplayBinds(k, a, b, genesis);
    WholeTail(k, a, b, genesis);
  }

  lemma {:induction false} WholeTail(k: Sha, a: seq<MembershipEntry>, b: seq<MembershipEntry>, genesis: Digest)
    requires |a| == |b| && AllSized(a) && AllSized(b)
    ensures SameTail(k, a, b, genesis) <==> SamePadded(a, b)
  {
    hide MembershipEntry.Sized, MembershipEntry.Bytes, MembershipEntry.Padded;
    assert b[..0] == [];
    forall i | 0 <= i < |a| ensures a[i].Bytes() == b[i].Bytes() <==> a[i].Padded() == b[i].Padded() {
      SizedEntriesBind(a[i], b[i]);
    }
  }

  // --- deals -----------------------------------------------------------------------------

  datatype DealRecord = DealRecord(
    providerId: ByteString, dealId: ByteString, sealedRoot: ByteString, deadlineIdx: int, shard: int, declaredUnavailable: bool)
  {
    function Key(): DealKey { (providerId, dealId) }

    predicate InCell(d: int, s: int) { deadlineIdx == d && shard == s }
  }

  datatype MembershipRegistry = MembershipRegistry(epoch: int, cutHeight: int, entries: seq<MembershipEntry>, deals: seq<DealRecord>) {
    function SnapshotId(k: Sha): Digest { Replay(k, entries, KeccakTree.ZERO) }

    /** The deals of a cell, in key order. */
    function ExpectedFor(d: int, s: int): seq<DealRecord> { SortDeals(DealsIn(deals, d, s)) }
  }

  function DealsIn(deals: seq<DealRecord>, d: int, s: int): seq<DealRecord> {
    if deals == [] then []
    else
      var n := |deals| - 1;
      DealsIn(deals[..n], d, s) + if deals[n].InCell(d, s) then [deals[n]] else []
  }

  /** A stable insertion: after every deal with a key not above its own. */
  function InsertDeal(sorted: seq<DealRecord>, x: DealRecord): (r: seq<DealRecord>)
    ensures |r| == |sorted| + 1 && multiset(r) == multiset(sorted) + multiset{x}
  {
    if sorted == [] then [x]
    else
      var n := |sorted| - 1;
      assert sorted == sorted[..n] + [sorted[n]];
      if KeyLe(sorted[n].Key(), x.Key()) then sorted + [x] else InsertDeal(sorted[..n], x) + [sorted[n]]
  }

  function SortDeals(deals: seq<DealRecord>): (r: seq<DealRecord>)
    ensures |r| == |deals| && multiset(r) == multiset(deals)
  {
    if deals == [] then []
    else
      var n := |deals| - 1;
      assert deals == deals[..n] + [deals[n]];
      InsertDeal(SortDeals(deals[..n]), deals[n])
  }

  predicate InKeyOrder(deals: seq<DealRecord>) {
    forall i, j :: 0 <= i < j < |deals| ==> KeyLe(deals[i].Key(), deals[j].Key())
  }

  lemma AppendInOrder(s: seq<DealRecord>, x: DealRecord)
    requires InKeyOrder(s) && forall e :: e in s ==> KeyLe(e.Key(), x.Key())
    ensures InKeyOrder(s + [x])
  {
    hide KeyLe;
    forall i, j | 0 <= i < j < |s| + 1 ensures KeyLe((s + [x])[i].Key(), (s + [x])[j].Key()) {
      assert s[i] in s;
    }
  }

  lemma OrderedPrefix(s: seq<DealRecord>, n: nat)
    requires InKeyOrder(s) && n < |s|
    ensures InKeyOrder(s[..n]) && forall e :: e in s[..n] ==> KeyLe(e.Key(), s[n].Key())
  {
    hide KeyLe;
  }

  lemma {:induction false} InsertKeepsOrder(sorted: seq<DealRecord>, x: DealRecord)
    requires InKeyOrder(sorted)
    ensures InKeyOrder(InsertDeal(sorted, x))
    decreases |sorted|
  {
    hide KeyLe, InKeyOrder;
    if sorted == [] {
      NoneInOrder();
      AppendInOrder([], x);
      assert [] + [x] == [x];
    } else {
      var n := |sorted| - 1;
      OrderedPrefix(sorted, n);
      if KeyLe(sorted[n].Key(), x.Key()) {
        forall e | e in sorted ensures KeyLe(e.Key(), x.Key()) {
          if e != sorted[n] {
            assert sorted == sorted[..n] + [sorted[n]];
            KeyOrder(e.Key(), sorted[n].Key(), x.Key());
          }
        }
        AppendInOrder(sorted, x);
      } else {
        InsertKeepsOrder(sorted[..n], x);
        KeyOrder(x.Key(), sorted[n].Key(), x.Key());
        var r := InsertDeal(sorted[..n], x);
        forall e | e in r ensures KeyLe(e.Key(), sorted[n].Key()) {
          assert e in multiset(r);
        }
        AppendInOrder(r, sorted[n]);
      }
    }
  }

  lemma {:induction false} SortDealsOrders(deals: seq<DealRecord>)
    ensures InKeyOrder(SortDeals(deals))
    decreases |deals|
  {
    hide InKeyOrder, InsertDeal;
    if deals == [] {
      NoneInOrder();
    } else {
      SortDealsOrders(deals[..|deals| - 1]);
      InsertKeepsOrder(SortDeals(deals[..|deals| - 1]), deals[|deals| - 1]);
    }
  }

  lemma NoneInOrder()
    ensures InKeyOrder([])
  {
  }

  lemma {:induction false} DealsInMembers(deals: seq<DealRecord>, d: int, s: int)
    ensures forall x :: x in DealsIn(deals, d, s) <==> x in deals && x.InCell(d, s)
    decreases |deals|
  {
    if deals == [] {
    } else {
      DealsInMembers(deals[..|deals| - 1], d, s);
      assert deals == deals[..|deals| - 1] + [deals[|deals| - 1]];
    }
  }

  /** A cell answers for exactly the deals of its deadline and shard, in key order. */
  lemma ExpectedForMeans(r: MembershipRegistry, d: int, s: int)
    ensures forall x :: x in r.ExpectedFor(d, s) <==> x in r.deals && x.InCell(d, s)
    ensures InKeyOrder(r.ExpectedFor(d, s)) && |r.ExpectedFor(d, s)| == |DealsIn(r.deals, d, s)|
  {
    hide InKeyOrder;
    DealsInMembers(r.deals, d, s);
    var found := DealsIn(r.deals, d, s);
    SortDealsOrders(found);
    forall x ensures x in SortDeals(found) <==> x in found {
      assert x in SortDeals(found) <==> x in multiset(SortDeals(found));
    }
  }

  /** The registry may be used only for its own epoch and when it replays to the value on chain. */
  method VerifyRegistry(k: Sha, registry: MembershipRegistry, onchainSnapshotId: ByteString, epoch: int) returns (r: Result<(), Failure>)
    ensures r.Ok? <==> registry.epoch == epoch && registry.SnapshotId(k) == onchainSnapshotId
    ensures r.Err? ==> r.error == SnapshotMismatch
  {
    if registry.epoch != epoch {
      return Err(SnapshotMismatch);
    }
    var got := ReplayLog(k, registry.entries, KeccakTree.ZERO);
    if got != onchainSnapshotId {
      return Err(SnapshotMismatch);
    }
    return Ok(());
  }
}
