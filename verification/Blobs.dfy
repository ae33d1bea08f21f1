/**
 Blobs on the data-availability layer: an open list anyone may write to, and the filter that keeps,
 for each expected deal, the earliest blob its registered provider signed.
 */
module Blobs {
  import opened Bytes
  import opened Reconcile
  import opened Wrappers

  const PROTOCOL_VERSION: int := 1

  datatype BlobKind = BUNDLE | CHILD_PROOF | SETTLEMENT | MEMBERSHIP

  datatype BlobHeader = BlobHeader(
    kind: BlobKind, deadline: int, shard: int, providerId: ByteString, dealId: ByteString, payloadLen: int, version: int)
  {
    function Key(): DealKey { (providerId, dealId) }
  }

  datatype ObservedBlob = ObservedBlob(height: int, index: int, signer: ByteString, header: Option<BlobHeader>, payload: ByteString) {
    /** Earlier on the chain. */
    predicate Before(other: ObservedBlob) {
      height < other.height || (height == other.height && index < other.index)
    }

    function Position(): (int, int) { (height, index) }
  }

  /** What a cell's filter is told. */
  datatype Wanted = Wanted(
    keys: set<DealKey>, signerOf: map<ByteString, ByteString>, deadline: int, shard: int, maxPayload: int)
  {
    predicate LengthOk(b: ObservedBlob) { 0 < |b.payload| <= maxPayload }

    predicate HeaderOk(b: ObservedBlob) {
      b.header.Some? &&
      var h := b.header.value;
      h.version == PROTOCOL_VERSION && h.kind == BUNDLE && h.deadline == deadline && h.shard == shard && h.payloadLen == |b.payload|
    }

    predicate KeyOk(b: ObservedBlob)
      requires b.header.Some?
    {
      b.header.value.Key() in keys
    }

    predicate SignerOk(b: ObservedBlob)
      requires b.header.Some?
    {
      b.header.value.providerId in signerOf && signerOf[b.header.value.providerId] == b.signer
    }

    /** Past every rung of the filter. */
    predicate Passes(b: ObservedBlob) { LengthOk(b) && HeaderOk(b) && KeyOk(b) && SignerOk(b) }
  }

  /** All that a passing blob must be: its header in full, its key among those wanted, signed by the registered signer. */
  lemma PassesMeans(w: Wanted, b: ObservedBlob)
    ensures w.Passes(b) <==>
              && b.header.Some?
              && var (p, d) := (b.header.value.providerId, b.header.value.dealId);
                 && b.header.value == BlobHeader(BUNDLE, w.deadline, w.shard, p, d, |b.payload|, 1)
                 && (p, d) in w.keys && p in w.signerOf && w.signerOf[p] == b.signer && 1 <= |b.payload| <= w.maxPayload
  {
  }

  datatype FilterStats = FilterStats(seen: nat, dropLength: nat, dropHeader: nat, dropKey: nat, dropSigner: nat, kept: nat)

  type BestMap = map<DealKey, ObservedBlob>

  /** Keeps a passing blob unless an earlier one for its key is there. */
  function Place(best: BestMap, b: ObservedBlob): BestMap
    requires b.header.Some?
  {
    var key := b.header.value.Key();
    if key in best && !b.Before(best[key]) then best else best[key := b]
  }

  /** The kept blobs after a list. */
  function Best(w: Wanted, blobs: seq<ObservedBlob>): BestMap
    decreases |blobs|
  {
    if blobs == [] then map[]
    else
      var n := |blobs| - 1;
      var before := Best(w, blobs[..n]);
      if w.Passes(blobs[n]) then Place(before, blobs[n]) else before
  }

  /** The blobs that pass, in order. */
  function Passing(w: Wanted, blobs: seq<ObservedBlob>): seq<ObservedBlob>
    decreases |blobs|
  {
    if blobs == [] then []
    else
      var n := |blobs| - 1;
      Passing(w, blobs[..n]) + if w.Passes(blobs[n]) then [blobs[n]] else []
  }

  method FilterBlobs(blobs: seq<ObservedBlob>, expectedKeys: set<DealKey>, signerOf: map<ByteString, ByteString>,
                     deadline: int, shard: int, maxPayload: int)
    returns (best: BestMap, stats: FilterStats)
    ensures var w := Wanted(expectedKeys, signerOf, deadline, shard, maxPayload);
            best == Best(w, blobs) && stats.seen == |blobs| && stats.kept == |best|
            && stats.dropLength + stats.dropHeader + stats.dropKey + stats.dropSigner == |blobs| - |Passing(w, blobs)|
  {
    ghost var w := Wanted(expectedKeys, signerOf, deadline, shard, maxPayload);
    best := map[];
    var seen, dropLength, dropHeader, dropKey, dropSigner := 0, 0, 0, 0, 0;
    for i := 0 to |blobs|
      invariant best == Best(w, blobs[..i]) && seen == i
      invariant dropLength + dropHeader + dropKey + dropSigner == i - |Passing(w, blobs[..i])|
    {
      assert blobs[..i + 1][..i] == blobs[..i];
      var blob := blobs[i];
      seen := seen + 1;
      if !(0 < |blob.payload| <= maxPayload) {
        dropLength := dropLength + 1;
        continue;
      }
      if blob.header.None? || blob.header.value.version != PROTOCOL_VERSION {
        dropHeader := dropHeader + 1;
        continue;
      }
      var h := blob.header.value;
      if h.kind != BUNDLE || h.deadline != deadline || h.shard != shard {
        dropHeader := dropHeader + 1;
        continue;
      }
      if h.payloadLen != |blob.payload| {
        dropHeader := dropHeader + 1;
        continue;
      }
      var key := h.Key();
      if key !in expectedKeys {
        dropKey := dropKey + 1;
        continue;
      }
      if h.providerId !in signerOf || blob.signer != signerOf[h.providerId] {
        dropSigner := dropSigner + 1;
        continue;
      }
      if key !in best || blob.Before(best[key]) {
        best := best[key := blob];
      }
    }
    assert blobs[..|blobs|] == blobs;
    stats := FilterStats(seen, dropLength, dropHeader, dropKey, dropSigner, |best|);
  }

  // --- what is kept -----------------------------------------------------------------------

  /** Each kept blob is in the list, passes, carries its key, and none that does the same is earlier. */
  ghost predicate Earliest(w: Wanted, blobs: seq<ObservedBlob>, best: BestMap) {
    && (forall k :: k in best <==> exists b :: b in blobs && w.Passes(b) && b.header.value.Key() == k)
    && (forall k :: k in best ==> best[k] in blobs && w.Passes(best[k]) && best[k].header.value.Key() == k)
    && (forall b :: b in blobs && w.Passes(b) && b.header.value.Key() in best ==> !b.Before(best[b.header.value.Key()]))
  }

  lemma PlaceEarliest(w: Wanted, before: seq<ObservedBlob>, b: ObservedBlob, best: BestMap)
    requires Earliest(w, before, best)
    ensures Earliest(w, before + [b], if w.Passes(b) then Place(best, b) else best)
  {
    hide Wanted.Passes;
    PassesHasHeader(w);
    var all, after := before + [b], if w.Passes(b) then Place(best, b) else best;
    assert b in all && forall x :: x in before ==> x in all;
    forall k ensures k in after <==> exists x :: x in all && w.Passes(x) && x.header.value.Key() == k {
      if k in best {
        var x :| x in before && w.Passes(x) && x.header.value.Key() == k;
        assert x in all;
      }
    }
  }

  lemma PassesHasHeader(w: Wanted)
    ensures forall b :: w.Passes(b) ==> b.header.Some?
  {
  }

  /** The filter keeps, per key, the earliest of the blobs that pass every rung. */
  lemma {:induction false} BestIsEarliest(w: Wanted, blobs: seq<ObservedBlob>)
    ensures Earliest(w, blobs, Best(w, blobs))
    decreases |blobs|
  {
    hide Wanted.Passes, Place, Earliest;
    if blobs == [] {
      NoneEarliest(w);
    } else {
      var n := |blobs| - 1;
      BestIsEarliest(w, blobs[..n]);
      assert blobs == blobs[..n] + [blobs[n]];
      PlaceEarliest(w, blobs[..n], blobs[n], Best(w, blobs[..n]));
    }
  }

  lemma NoneEarliest(w: Wanted)
    ensures Earliest(w, [], map[])
  {
  }

  /** No two blobs at one position. */
  predicate DistinctPositions(blobs: seq<ObservedBlob>) {
    forall a, b :: a in blobs && b in blobs && a.Position() == b.Position() ==> a == b
  }

  lemma EarliestUnique(w: Wanted, a: seq<ObservedBlob>, b: seq<ObservedBlob>, x: BestMap, y: BestMap)
    requires Earliest(w, a, x) && Earliest(w, b, y) && DistinctPositions(a)
    requires forall blob :: w.Passes(blob) ==> (blob in a <==> blob in b)
    ensures x == y
  {
    hide Wanted.Passes;
    PassesHasHeader(w);
    assert x.Keys == y.Keys;
    forall k | k in x ensures x[k] == y[k] {
      assert x[k] in b && y[k] in a;
      assert x[k].Position() == y[k].Position();
    }
  }

  /**
   The kept blobs depend on the passing blobs only: with distinct positions, reordering the list or
   adding and removing blobs that do not pass, such as any with a foreign signer, changes nothing.
   */
  lemma FilterIgnoresOrderAndJunk(w: Wanted, a: seq<ObservedBlob>, b: seq<ObservedBlob>)
    requires DistinctPositions(a)
    requires forall blob :: w.Passes(blob) ==> (blob in a <==> blob in b)
    ensures Best(w, a) == Best(w, b)
  {
    hide Wanted.Passes, Best, DistinctPositions, Earliest;
    BestIsEarliest(w, a);
    BestIsEarliest(w, b);
    EarliestUnique(w, a, b, Best(w, a), Best(w, b));
  }

  /** Inserting foreign blobs anywhere leaves the kept blobs as they are, whatever the positions. */
  lemma {:induction false} JunkIsInvisible(w: Wanted, blobs: seq<ObservedBlob>)
    ensures Best(w, blobs) == Best(w, Passing(w, blobs))
    decreases |blobs|
  {
    hide Wanted.Passes, Place;
    if blobs == [] {
    } else {
      var n := |blobs| - 1;
      JunkIsInvisible(w, blobs[..n]);
      var before := Passing(w, blobs[..n]);
      if w.Passes(blobs[n]) {
        assert (before + [blobs[n]])[..|before|] == before;
      } else {
        assert before + [] == before;
      }
    }
  }

  /** A blob whose signer is not the one registered for its provider does not pass. */
  lemma ForeignSignerFails(w: Wanted, b: ObservedBlob)
    requires b.header.Some? ==> !(b.header.value.providerId in w.signerOf && w.signerOf[b.header.value.providerId] == b.signer)
    ensures !w.Passes(b)
  {
  }

  // --- the layer in memory -----------------------------------------------------------------

  type Namespaced = (ByteString, ObservedBlob)

  function CountAt(entries: seq<Namespaced>, height: int): nat {
    if entries == [] then 0
    else CountAt(entries[..|entries| - 1], height) + if entries[|entries| - 1].1.height == height then 1 else 0
  }

  function ReadOf(entries: seq<Namespaced>, namespace: ByteString, start: int, end: int): seq<ObservedBlob> {
    if entries == [] then []
    else
      var n := |entries| - 1;
      ReadOf(entries[..n], namespace, start, end)
      + if entries[n].0 == namespace && start <= entries[n].1.height < end then [entries[n].1] else []
  }

  /** Within one block the shares are numbered in the order of submission. */
  predicate Numbered(entries: seq<Namespaced>)
    decreases |entries|
  {
    entries == [] ||
    var n := |entries| - 1;
    entries[n].1.index == CountAt(entries[..n], entries[n].1.height) && Numbered(entries[..n])
  }

  const NAMESPACE_SIZE: nat := 29
  const SIGNER_SIZE: nat := 20

  /** The entry a submission appends: its index is the number of blobs already in its block. */
  function Stamped(entries: seq<Namespaced>, height: int, namespace: ByteString, header: BlobHeader, payload: ByteString,
                   signer: ByteString): Namespaced
  {
    (namespace, ObservedBlob(height, CountAt(entries, height), signer, Some(header), payload))
  }

  class MemoryDA {
    var height: int
    var entries: seq<Namespaced>

    predicate Valid()
      reads this
    {
      Numbered(entries)
    }

    constructor ()
      ensures Valid() && height == 1_000_000 && entries == []
    {
      height := 1_000_000;
      entries := [];
    }

    method Advance(n: int) returns (now: int)
      modifies this`height
      ensures height == old(height) + n && now == height
    {
      height := height + n;
      return height;
    }

    /** Appends a blob at the current height; a namespace or a signer of the wrong size is refused. */
    method Submit(namespace: ByteString, header: BlobHeader, payload: ByteString, signer: ByteString) returns (at: Option<int>)
      requires Valid()
      modifies this`entries
      ensures Valid()
      ensures |namespace| != NAMESPACE_SIZE || |signer| != SIGNER_SIZE ==> at == None && entries == old(entries)
      ensures |namespace| == NAMESPACE_SIZE && |signer| == SIGNER_SIZE ==>
                at == Some(height) && entries == old(entries) + [Stamped(old(entries), height, namespace, header, payload, signer)]
    {
      if |namespace| != NAMESPACE_SIZE || |signer| != SIGNER_SIZE {
        return None;
      }
      var idx := 0;
      for i := 0 to |entries|
        invariant entries == old(entries) && idx == CountAt(entries[..i], height)
      {
        assert entries[..i + 1][..i] == entries[..i];
        if entries[i].1.height == height {
          idx := idx + 1;
        }
      }
      assert entries[..|entries|] == entries;
      var entry := (namespace, ObservedBlob(height, idx, signer, Some(header), payload));
      assert (entries + [entry])[..|entries|] == entries;
      entries := entries + [entry];
      return Some(height);
    }

    method Read(namespace: ByteString, start: int, end: int) returns (blobs: seq<ObservedBlob>)
      ensures blobs == ReadOf(entries, namespace, start, end)
    {
      blobs := [];
      for i := 0 to |entries|
        invariant blobs == ReadOf(entries[..i], namespace, start, end)
      {
        assert entries[..i + 1][..i] == entries[..i];
        if entries[i].0 == namespace && start <= entries[i].1.height < end {
          blobs := blobs + [entries[i].1];
        }
      }
      assert entries[..|entries|] == entries;
    }
  }

  lemma {:induction false} IndexBelowCount(entries: seq<Namespaced>, i: nat)
    requires Numbered(entries) && i < |entries|
    ensures 0 <= entries[i].1.index < CountAt(entries, entries[i].1.height)
    decreases |entries|
  {
    if i >= |entries| - 1 {
    } else {
      IndexBelowCount(entries[..|entries| - 1], i);
    }
  }

  /** No two submissions share a position. */
  lemma {:induction false} SubmissionsApart(entries: seq<Namespaced>, i: nat, j: nat)
    requires Numbered(entries) && i < j < |entries|
    ensures entries[i].1.Position() != entries[j].1.Position()
    decreases |entries|
  {
    var n := |entries| - 1;
    if j < n {
      SubmissionsApart(entries[..n], i, j);
    } else {
      IndexBelowCount(entries[..n], i);
    }
  }

  lemma {:induction false} ReadMembers(entries: seq<Namespaced>, namespace: ByteString, start: int, end: int)
    ensures forall b :: b in ReadOf(entries, namespace, start, end) <==>
              (namespace, b) in entries && start <= b.height < end
    decreases |entries|
  {
    if entries == [] {
    } else {
      var n := |entries| - 1;
      ReadMembers(entries[..n], namespace, start, end);
      assert entries == entries[..n] + [entries[n]];
      assert entries[n] == (entries[n].0, entries[n].1);
    }
  }

  /** What is read has distinct positions, so the filter's outcome does not depend on the order of reading. */
  lemma ReadHasDistinctPositions(entries: seq<Namespaced>, namespace: ByteString, start: int, end: int)
    requires Numbered(entries)
    ensures DistinctPositions(ReadOf(entries, namespace, start, end))
  {
    hide Numbered, ReadOf;
    ReadMembers(entries, namespace, start, end);
    var blobs := ReadOf(entries, namespace, start, end);
    forall a, b | a in blobs && b in blobs && a.Position() == b.Position() ensures a == b {
      var i :| 0 <= i < |entries| && entries[i] == (namespace, a);
      var j :| 0 <= j < |entries| && entries[j] == (namespace, b);
      if i < j { SubmissionsApart(entries, i, j); }
      if j < i { SubmissionsApart(entries, j, i); }
    }
  }
}
