/**
 What providers and outsiders put on the data-availability layer in one window, and what a worker who
 reads it back must conclude.
 */
module Publishing {
  import opened Aggregate
  import opened Blobs
  import opened Bytes
  import opened Membership
  import opened Numbers
  import opened Reconcile
  import opened ShardVerification
  import opened Verdicts
  import opened Wrappers

  datatype SimDeal = SimDeal(
    dealId: ByteString, providerId: ByteString, providerCelestia: ByteString, sealedRoot: Digest,
    deadlineIdx: int, shard: int, lost: bool, offline: bool, declared: bool)
  {
    function Record(): DealRecord { DealRecord(providerId, dealId, sealedRoot, deadlineIdx, shard, declared) }

    function Key(): DealKey { (providerId, dealId) }

    /** A bundle carries the sealed root; a provider that lost the data can only send filler. */
    function Payload(): (b: ByteString)
      ensures |b| == BUNDLE_SIZE
    {
      if lost then Filler(255, BUNDLE_SIZE) else sealedRoot + Filler(0, BUNDLE_SIZE - 32)
    }

    function Header(deadline: int): BlobHeader {
      BlobHeader(BUNDLE, deadline, shard, providerId, dealId, BUNDLE_SIZE, PROTOCOL_VERSION)
    }

    /** Filler opens with the sealed root of a deal whose root is all 0xff. */
    predicate Recognizable() { sealedRoot == Filler(255, 32) }

    function Truth(): Verdict {
      if offline then ABSENT else if lost && !Recognizable() then FAIL else PASS
    }
  }

  function Filler(b: Byte, n: nat): (f: ByteString)
    ensures |f| == n
  {
    seq(n, _ => b)
  }

  lemma PayloadVerifies(x: SimDeal)
    ensures VerifyBundle(x.Payload(), x.Record()) <==> !(x.lost && !x.Recognizable())
  {
    if x.lost {
      assert x.Payload()[..32] == Filler(255, 32);
    } else {
      assert x.Payload()[..32] == x.sealedRoot;
    }
    assert First32(x.sealedRoot) == x.sealedRoot;
  }

  /** The 29-byte namespace of a shard's bundles. */
  function Namespace(chainId: nat, shard: nat): (ns: ByteString)
    ensures |ns| == NAMESPACE_SIZE
  {
    [0] + Filler(0, 18) + [PROTOCOL_VERSION, 1] + LeBytes(chainId, 4) + LeBytes(shard, 4)
  }

  /** An entry that is the bundle of a deal. */
  predicate IsBundle(chainId: nat, deadline: int, height: int, x: SimDeal, e: Namespaced)
    requires x.shard >= 0
  {
    e.0 == Namespace(chainId, x.shard) && IsBundleBlob(deadline, height, x, e.1)
  }

  predicate IsBundleBlob(deadline: int, height: int, x: SimDeal, b: ObservedBlob) {
    b.height == height && b.signer == x.providerCelestia && b.header == Some(x.Header(deadline)) && b.payload == x.Payload()
  }

  predicate ShardsOk(deals: seq<SimDeal>) { forall x :: x in deals ==> x.shard >= 0 }

  function Publish(entries: seq<Namespaced>, chainId: nat, deadline: int, height: int, x: SimDeal): seq<Namespaced>
    requires x.shard >= 0
  {
    if x.offline then entries
    else entries + [Stamped(entries, height, Namespace(chainId, x.shard), x.Header(deadline), x.Payload(), x.providerCelestia)]
  }

  /** The layer after the deals' providers have published, those that are online. */
  function Published(entries: seq<Namespaced>, chainId: nat, deadline: int, height: int, deals: seq<SimDeal>): seq<Namespaced>
    requires ShardsOk(deals)
  {
    if deals == [] then entries
    else
      var n := |deals| - 1;
      Publish(Published(entries, chainId, deadline, height, deals[..n]), chainId, deadline, height, deals[n])
  }

  /** The layer after an outsider has posted decoys under a deal's labels. */
  function WithDecoys(entries: seq<Namespaced>, chainId: nat, deadline: int, height: int, target: SimDeal, count: nat, attacker: ByteString): seq<Namespaced>
    requires target.shard >= 0
  {
    if count == 0 then entries
    else
      var before := WithDecoys(entries, chainId, deadline, height, target, count - 1, attacker);
      before + [Stamped(before, height, Namespace(chainId, target.shard), target.Header(deadline), Filler(255, BUNDLE_SIZE), attacker)]
  }

  predicate IsDecoy(height: int, target: SimDeal, attacker: ByteString, e: Namespaced) {
    e.1.height == height && e.1.signer == attacker && e.1.header.Some? && e.1.header.value.providerId == target.providerId
  }

  /** Everything a window adds: bundles of online deals, one each, and decoys. */
  lemma {:induction false} PublishedMembers(entries: seq<Namespaced>, chainId: nat, deadline: int, height: int, deals: seq<SimDeal>)
    requires ShardsOk(deals)
    ensures var after := Published(entries, chainId, deadline, height, deals);
            (forall e :: e in entries ==> e in after)
            && (forall e :: e in after ==>
                  e in entries || exists x :: x in deals && !x.offline && IsBundle(chainId, deadline, height, x, e))
            && (forall x :: x in deals && !x.offline ==> exists e :: e in after && IsBundle(chainId, deadline, height, x, e))
    decreases |deals|
  {
    hide Namespace, SimDeal.Payload, SimDeal.Header;
    if deals == [] {
    } else {
      var n := |deals| - 1;
      PublishedMembers(entries, chainId, deadline, height, deals[..n]);
      assert deals == deals[..n] + [deals[n]];
      var before, after := Published(entries, chainId, deadline, height, deals[..n]), Published(entries, chainId, deadline, height, deals);
      assert forall e :: e in before ==> e in after;
      if !deals[n].offline {
        var added := after[|after| - 1];
        assert added in after && IsBundle(chainId, deadline, height, deals[n], added);
      }
    }
  }

  lemma {:induction false} DecoyMembers(entries: seq<Namespaced>, chainId: nat, deadline: int, height: int, target: SimDeal, count: nat, attacker: ByteString)
    requires target.shard >= 0
    ensures var after := WithDecoys(entries, chainId, deadline, height, target, count, attacker);
            (forall e :: e in entries ==> e in after)
            && (forall e :: e in after ==> e in entries || IsDecoy(height, target, attacker, e))
    decreases count
  {
    hide Namespace;
    if count == 0 {
    } else {
      DecoyMembers(entries, chainId, deadline, height, target, count - 1, attacker);
    }
  }

  // --- what a worker reads -----------------------------------------------------------------

  /** The deals of a cell. */
  predicate InCell(x: SimDeal, d: int, s: int) { x.deadlineIdx == d && x.shard == s }

  /**
   The blobs read for a cell are faithful when they hold a bundle of every online deal of the cell,
   and of the blobs that pass the filter each is such a bundle.
   */
  ghost predicate Faithful(w: Wanted, observed: seq<ObservedBlob>, deals: seq<SimDeal>, d: int, s: int, height: int) {
    && (forall x :: x in deals && InCell(x, d, s) && !x.offline ==> exists b :: b in observed && IsBundleBlob(w.deadline, height, x, b))
    && (forall b :: b in observed && w.Passes(b) ==>
          exists x :: x in deals && InCell(x, d, s) && !x.offline && IsBundleBlob(w.deadline, height, x, b))
  }

  predicate DistinctDeals(deals: seq<SimDeal>) {
    forall x, y :: x in deals && y in deals && x.Key() == y.Key() ==> x == y
  }

  predicate Registered(signerOf: map<ByteString, ByteString>, x: SimDeal) {
    x.providerId in signerOf && signerOf[x.providerId] == x.providerCelestia
  }

  lemma BundlePasses(w: Wanted, x: SimDeal, b: ObservedBlob, height: int)
    requires IsBundleBlob(w.deadline, height, x, b) && x.shard == w.shard && x.Key() in w.keys && w.maxPayload == BUNDLE_SIZE
    requires Registered(w.signerOf, x)
    ensures w.Passes(b) && b.header.value.Key() == x.Key()
  {
  }

  lemma BundleKey(deadline: int, height: int, x: SimDeal, b: ObservedBlob)
    requires IsBundleBlob(deadline, height, x, b)
    ensures b.header.Some? && b.header.value.Key() == x.Key() && b.payload == x.Payload()
  {
  }

  /** From faithful blobs a deal is judged as it deserves. */
  lemma FaithfulJudges(w: Wanted, observed: seq<ObservedBlob>, deals: seq<SimDeal>, d: int, height: int, x: SimDeal)
    requires Faithful(w, observed, deals, d, w.shard, height) && DistinctDeals(deals)
    requires x in deals && InCell(x, d, w.shard) && Registered(w.signerOf, x) && x.Key() in w.keys && w.maxPayload == BUNDLE_SIZE
    ensures Judge(Best(w, observed), x.Record()) == x.Truth()
  {
    hide Wanted.Passes, Best, IsBundleBlob, SimDeal.Payload, VerifyBundle, Registered, SimDeal.Recognizable;
    var best := Best(w, observed);
    BestIsEarliest(w, observed);
    PayloadVerifies(x);
    if !x.offline {
      var b :| b in observed && IsBundleBlob(w.deadline, height, x, b);
      BundlePasses(w, x, b, height);
    }
    if x.Key() in best {
      var kept := best[x.Key()];
      var y :| y in deals && InCell(y, d, w.shard) && !y.offline && IsBundleBlob(w.deadline, height, y, kept);
      BundleKey(w.deadline, height, y, kept);
      assert y == x;
    }
  }

  /** Signed by the provider it names, as registered. */
  predicate FromRegistered(signerOf: map<ByteString, ByteString>, b: ObservedBlob) {
    b.header.Some? && b.header.value.providerId in signerOf && signerOf[b.header.value.providerId] == b.signer
  }

  /** Nothing on the layer since a height passes the filter. */
  predicate NonePass(entries: seq<Namespaced>, height: int, w: Wanted) {
    forall e :: e in entries && e.1.height >= height ==> !w.Passes(e.1)
  }

  /** Since the window opened: a bundle of every online deal, and nothing else that passes. */
  ghost predicate OnlyBundles(after: seq<Namespaced>, chainId: nat, height: int, due: seq<SimDeal>, w: Wanted)
    requires ShardsOk(due)
  {
    && (forall x :: x in due && !x.offline ==> exists e :: e in after && IsBundle(chainId, w.deadline, height, x, e))
    && (forall e :: e in after && e.1.height >= height && w.Passes(e.1) ==>
          exists x :: x in due && !x.offline && IsBundle(chainId, w.deadline, height, x, e))
  }

  lemma WindowHoldsOnlyBundles(entries: seq<Namespaced>, chainId: nat, height: int, due: seq<SimDeal>,
                               target: SimDeal, count: nat, attacker: ByteString, w: Wanted)
    requires ShardsOk(due) && target.shard >= 0 && NonePass(entries, height, w)
    requires count > 0 ==> !(target.providerId in w.signerOf && w.signerOf[target.providerId] == attacker)
    ensures OnlyBundles(WithDecoys(Published(entries, chainId, w.deadline, height, due), chainId, w.deadline, height, target, count, attacker),
              chainId, height, due, w)
  {
    hide Published, WithDecoys, Wanted.Passes, IsBundle, IsDecoy;
    var mid := Published(entries, chainId, w.deadline, height, due);
    var after := WithDecoys(mid, chainId, w.deadline, height, target, count, attacker);
    PublishedMembers(entries, chainId, w.deadline, height, due);
    DecoyMembers(mid, chainId, w.deadline, height, target, count, attacker);
    NoDecoys(mid, chainId, w.deadline, height, target, attacker);
    forall e | e in after && e.1.height >= height && w.Passes(e.1)
      ensures exists x :: x in due && !x.offline && IsBundle(chainId, w.deadline, height, x, e)
    {
      if e !in mid {
        DecoyFails(w, target, attacker, height, e);
      }
    }
  }

  lemma ReadIsFaithful(after: seq<Namespaced>, chainId: nat, height: int, end: int, due: seq<SimDeal>, w: Wanted, d: int)
    requires ShardsOk(due) && w.shard >= 0 && height < end && OnlyBundles(after, chainId, height, due, w)
    requires forall x :: x in due ==> x.deadlineIdx == d
    ensures Faithful(w, ReadOf(after, Namespace(chainId, w.shard), height, end), due, d, w.shard, height)
  {
    hide Namespace, ReadOf, SimDeal.Payload, Wanted.Passes;
    var ns := Namespace(chainId, w.shard);
    var observed := ReadOf(after, ns, height, end);
    ReadMembers(after, ns, height, end);
    forall x | x in due && InCell(x, d, w.shard) && !x.offline
      ensures exists b :: b in observed && IsBundleBlob(w.deadline, height, x, b)
    {
      var e :| e in after && IsBundle(chainId, w.deadline, height, x, e);
      assert e == (ns, e.1) && e.1 in observed;
    }
    forall b | b in observed && w.Passes(b)
      ensures exists x :: x in due && InCell(x, d, w.shard) && !x.offline && IsBundleBlob(w.deadline, height, x, b)
    {
      var e: Namespaced := (ns, b);
      var x :| x in due && !x.offline && IsBundle(chainId, w.deadline, height, x, e);
      PassesOwnShard(w, b);
    }
  }

  lemma PassesOwnShard(w: Wanted, b: ObservedBlob)
    requires w.Passes(b)
    ensures b.header.Some? && b.header.value.shard == w.shard
  {
  }

  /**
   Reading back one window: whatever was on the layer before it opened, whatever lay ready in it that
   does not pass, and however many decoys an outsider posted, the blobs read for a cell are faithful.
   */
  lemma WindowIsFaithful(entries: seq<Namespaced>, chainId: nat, height: int, end: int, due: seq<SimDeal>,
                         target: SimDeal, count: nat, attacker: ByteString, w: Wanted, d: int)
    requires ShardsOk(due) && target.shard >= 0 && w.shard >= 0 && height < end
    requires NonePass(entries, height, w) && forall x :: x in due ==> x.deadlineIdx == d
    requires count > 0 ==> !(target.providerId in w.signerOf && w.signerOf[target.providerId] == attacker)
    ensures var after := WithDecoys(Published(entries, chainId, w.deadline, height, due), chainId, w.deadline, height, target, count, attacker);
            Faithful(w, ReadOf(after, Namespace(chainId, w.shard), height, end), due, d, w.shard, height)
  {
    hide Published, WithDecoys, Namespace, ReadOf, OnlyBundles, Faithful;
    var after := WithDecoys(Published(entries, chainId, w.deadline, height, due), chainId, w.deadline, height, target, count, attacker);
    WindowHoldsOnlyBundles(entries, chainId, height, due, target, count, attacker, w);
    ReadIsFaithful(after, chainId, height, end, due, w, d);
  }

  lemma NoDecoys(entries: seq<Namespaced>, chainId: nat, deadline: int, height: int, target: SimDeal, attacker: ByteString)
    requires target.shard >= 0
    ensures WithDecoys(entries, chainId, deadline, height, target, 0, attacker) == entries
  {
  }

  lemma DecoyFails(w: Wanted, target: SimDeal, attacker: ByteString, height: int, e: Namespaced)
    requires IsDecoy(height, target, attacker, e)
    requires !(target.providerId in w.signerOf && w.signerOf[target.providerId] == attacker)
    ensures !w.Passes(e.1)
  {
  }
}
