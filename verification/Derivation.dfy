/** What is derived from hashes: the challenged chunks of a deal, and the cell it is settled in. */
module Derivation {
  import opened Bytes
  import opened Numbers

  function Bucket(challenges: int, chunks: int): (b: int)
    requires challenges > 0
    ensures b >= 1
  {
    if chunks / challenges > 1 then chunks / challenges else 1
  }

  /** Where challenge `i` of a deal falls. */
  function Challenge(hash: Sha, beacon: ByteString, dealId: ByteString, challenges: int, offset: int, chunks: int, i: nat): int
    requires challenges > 0
  {
    var bucket := Bucket(challenges, chunks);
    var pos := offset + i * bucket + LeValue(hash(beacon + dealId + LeBytes(i, 4))[..8]) % bucket;
    if pos < offset + chunks - 1 then pos else offset + chunks - 1
  }

  method SpreadChallenge(hash: Sha, beacon: ByteString, dealId: ByteString, challenges: int, offset: int, chunks: int)
    returns (out: seq<int>)
    requires challenges <= 0x1_0000_0000
    ensures challenges <= 0 || chunks <= 0 ==> out == []
    ensures challenges > 0 && chunks > 0 ==>
              |out| == challenges
              && forall i :: 0 <= i < challenges ==> out[i] == Challenge(hash, beacon, dealId, challenges, offset, chunks, i)
  {
    if challenges <= 0 || chunks <= 0 {
      return [];
    }
    hide LeValue, LeBytes;
    var bucket := Bucket(challenges, chunks);
    out := [];
    for i := 0 to challenges
      invariant |out| == i
      invariant forall j :: 0 <= j < i ==> out[j] == Challenge(hash, beacon, dealId, challenges, offset, chunks, j)
    {
      var seed := hash(beacon + dealId + LeBytes(i, 4));
      var pos := offset + i * bucket + LeValue(seed[..8]) % bucket;
      out := out + [if pos < offset + chunks - 1 then pos else offset + chunks - 1];
    }
  }

  /** No challenge leaves the deal's own range, whatever the counts. */
  lemma ChallengeInRange(hash: Sha, beacon: ByteString, dealId: ByteString, challenges: int, offset: int, chunks: int, i: nat)
    requires challenges > 0 && chunks > 0
    ensures offset <= Challenge(hash, beacon, dealId, challenges, offset, chunks, i) < offset + chunks
  {
    hide LeValue, LeBytes;
    var bucket := Bucket(challenges, chunks);
    MulMono(i, 0, bucket);
  }

  /** With no more challenges than chunks, bucket `i` holds challenge `i`. */
  lemma OnePerBucket(hash: Sha, beacon: ByteString, dealId: ByteString, challenges: int, offset: int, chunks: int, i: nat)
    requires 0 < challenges <= chunks && i < challenges
    ensures var b := chunks / challenges;
            b >= 1 && offset + i * b <= Challenge(hash, beacon, dealId, challenges, offset, chunks, i) < offset + (i + 1) * b
  {
    hide LeValue, LeBytes;
    var b := chunks / challenges;
    DivMod(chunks, challenges);
    AtLeastOne(chunks, challenges);
    MulDistr(b, i, 1);
    MulMono(b, i + 1, challenges);
    assert i * b == b * i && (i + 1) * b == b * (i + 1) && challenges * b == b * challenges;
  }

  /** Inside its bucket the challenge lies where the hash of beacon, deal and number points. */
  lemma PlaceInBucket(hash: Sha, beacon: ByteString, dealId: ByteString, challenges: int, offset: int, chunks: int, i: nat)
    requires 0 < challenges <= chunks && i < challenges
    ensures var b, place := chunks / challenges, Challenge(hash, beacon, dealId, challenges, offset, chunks, i) - offset;
            b >= 1 && place / b == i && place % b == LeValue(hash(beacon + dealId + LeBytes(i, 4))[..8]) % b
  {
    hide LeValue, LeBytes;
    var b := chunks / challenges;
    var r := LeValue(hash(beacon + dealId + LeBytes(i, 4))[..8]) % b;
    DivMod(chunks, challenges);
    AtLeastOne(chunks, challenges);
    MulDistr(b, i, 1);
    MulMono(b, i + 1, challenges);
    assert i * b == b * i && challenges * b == b * challenges;
    ModUnique(b * i + r, b, i, r);
  }

  /** With more challenges than chunks the first ones take the chunks in turn and the rest the last one. */
  lemma MoreChallengesThanChunks(hash: Sha, beacon: ByteString, dealId: ByteString, challenges: int, offset: int, chunks: int, i: nat)
    requires 0 < chunks < challenges
    ensures Challenge(hash, beacon, dealId, challenges, offset, chunks, i) == offset + if i < chunks then i else chunks - 1
  {
    hide LeValue, LeBytes;
    DivMod(chunks, challenges);
    ModUnique(chunks, challenges, 0, chunks);
  }

  lemma AtLeastOne(n: int, c: int)
    requires 0 < c <= n
    ensures n / c >= 1
  {
    DivMod(n, c);
    if n / c <= 0 {
      MulMono(c, n / c, 0);
    }
  }

  lemma MulLess(b: nat, x: int, y: int)
    requires b >= 1
    ensures x < y ==> b * x < b * y
  {
    if x < y {
      MulMono(b, x + 1, y);
      MulDistr(b, x, 1);
    }
  }

  /**
   Deleting a contiguous block does not dodge the challenges: any (k + 1) * bucket - 1 consecutive
   chunks among the first challenges * bucket contain k challenges in a row.
   */
  lemma WindowIsChallenged(hash: Sha, beacon: ByteString, dealId: ByteString, challenges: int, offset: int, chunks: int, a: nat, k: nat)
    returns (first: nat)
    requires 0 < challenges <= chunks
    requires var b := chunks / challenges; a + (k + 1) * b - 1 <= challenges * b
    ensures first + k <= challenges
    ensures var b := chunks / challenges;
            forall i :: first <= i < first + k ==>
              offset + a <= Challenge(hash, beacon, dealId, challenges, offset, chunks, i) < offset + a + (k + 1) * b - 1
  {
    hide LeValue, LeBytes, Challenge;
    var b := chunks / challenges;
    AtLeastOne(chunks, challenges);
    first := FirstBucket(a, b);
    LastBucket(a, b, k, first, challenges);
    forall i | first <= i < first + k
      ensures offset + a <= Challenge(hash, beacon, dealId, challenges, offset, chunks, i) < offset + a + (k + 1) * b - 1
    {
      OnePerBucket(hash, beacon, dealId, challenges, offset, chunks, i);
      BucketInside(b, first, k, i);
    }
  }

  /** The first bucket boundary at or after `a`. */
  lemma FirstBucket(a: nat, b: int) returns (first: nat)
    requires b >= 1
    ensures a <= b * first <= a + b - 1
  {
    first := (a + b - 1) / b;
    DivMod(a + b - 1, b);
  }

  lemma LastBucket(a: nat, b: int, k: nat, first: nat, challenges: int)
    requires b >= 1 && b * first <= a + b - 1 && a + (k + 1) * b - 1 <= challenges * b
    ensures first + k <= challenges && (first + k) * b <= a + (k + 1) * b - 1
  {
    MulDistr(b, first, k);
    MulDistr(b, k, 1);
    assert (k + 1) * b == b * (k + 1) && challenges * b == b * challenges && (first + k) * b == b * (first + k);
    MulLess(b, challenges, first + k);
  }

  lemma BucketInside(b: int, first: nat, k: nat, i: int)
    requires b >= 1 && first <= i < first + k
    ensures b * first <= i * b && (i + 1) * b <= (first + k) * b
  {
    MulMono(b, first, i);
    MulMono(b, i + 1, first + k);
  }

  function Modulus(n: int): (m: int)
    ensures m >= 1
  {
    if n > 1 then n else 1
  }

  function DeriveShard(k: Sha, dealId: ByteString, nShards: int): int {
    LeValue(k(dealId)[..8]) % Modulus(nShards)
  }

  /** "ENGRAM_DEADLINE" */
  const DEADLINE_TAG: ByteString := [69, 78, 71, 82, 65, 77, 95, 68, 69, 65, 68, 76, 73, 78, 69]

  function DeriveDeadline(k: Sha, dealId: ByteString, deadlinesPerEpoch: int): int {
    LeValue(k(DEADLINE_TAG + dealId)[..8]) % Modulus(deadlinesPerEpoch)
  }

  /** Every deal falls into some cell of a grid that has any. */
  lemma DerivedCellIsInGrid(k: Sha, dealId: ByteString, deadlines: int, shards: int)
    requires deadlines >= 1 && shards >= 1
    ensures 0 <= DeriveDeadline(k, dealId, deadlines) < deadlines && 0 <= DeriveShard(k, dealId, shards) < shards
  {
    hide LeValue;
  }
}
