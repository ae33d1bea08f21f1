/**
 Sealing a file: replicas R_i = H4(D_i, S_{i-1}, i, replica_id), states S_i = H2(S_{i-1}, R_i),
 and the Merkle root over the pairs.
 */
module Sealing {
  import opened Chunking
  import opened Field
  import opened Hashing
  import opened MerkleTree
  import opened Numbers
  import opened Storage
  import opened Wrappers

  /** What is sealed: the file, its chunk size, and whose replica it is. */
  datatype Sector = Sector(file: seq<Byte>, chunkSize: nat, replicaId: F)

  /** `c` bytes of the file from an offset; past the end of the file the buffer is zero. */
  function Window(file: seq<Byte>, start: nat, c: nat): (chunk: seq<Byte>)
    ensures |chunk| == c
  {
    var from := Least(start, |file|);
    var upto := Least(from + c, |file|);
    file[from..upto] + seq(c - (upto - from), _ => 0)
  }

  /** Chunk `i` counted from one. */
  function ChunkAt(sec: Sector, i: nat): (chunk: seq<Byte>)
    requires i >= 1
    ensures |chunk| == sec.chunkSize
  {
    MulMono(sec.chunkSize, 0, i - 1);
    Window(sec.file, (i - 1) * sec.chunkSize, sec.chunkSize)
  }

  function DigestAt(h: HashFn, sec: Sector, i: nat): F
    requires i >= 1
  {
    BytesToFr(h, ChunkAt(sec, i))
  }

  function StateAt(h: HashFn, sec: Sector, i: nat): F
    decreases i, 0
  {
    if i == 0 then sec.replicaId else h(StateAt(h, sec, i - 1), ReplicaAt(h, sec, i))
  }

  function ReplicaAt(h: HashFn, sec: Sector, i: nat): F
    requires i >= 1
    decreases i - 1, 1
  {
    Hash4(h, DigestAt(h, sec, i), StateAt(h, sec, i - 1), FromNat(i), sec.replicaId)
  }

  function Replicas(h: HashFn, sec: Sector, n: nat): (rs: seq<F>)
    ensures |rs| == n
  {
    if n == 0 then [] else Replicas(h, sec, n - 1) + [ReplicaAt(h, sec, n)]
  }

  /** The states are the running fold of the replicas, from the replica id on. */
  lemma {:induction false} StatesAreFold(h: HashFn, sec: Sector, n: nat)
    ensures StateAt(h, sec, n) == HashFold(h, sec.replicaId, Replicas(h, sec, n))
  {
    hide ReplicaAt;
    if n == 0 {
    } else {
      StatesAreFold(h, sec, n - 1);
      HashFoldNext(h, sec.replicaId, Replicas(h, sec, n - 1), ReplicaAt(h, sec, n));
    }
  }

  function Pairs(h: HashFn, sec: Sector, n: nat): (pairs: seq<(F, F)>)
    ensures |pairs| == n
    ensures forall i | 0 <= i < n :: pairs[i] == (ReplicaAt(h, sec, i + 1), StateAt(h, sec, i + 1))
  {
    if n == 0 then [] else Pairs(h, sec, n - 1) + [(ReplicaAt(h, sec, n), StateAt(h, sec, n))]
  }

  function SealedLeaves(h: HashFn, sec: Sector, n: nat): (leaves: seq<F>)
    ensures |leaves| == n
    ensures forall i | 0 <= i < n :: leaves[i] == h(ReplicaAt(h, sec, i + 1), StateAt(h, sec, i + 1))
  {
    LeafHashes(h, Pairs(h, sec, n))
  }

  function SealedRoot(h: HashFn, sec: Sector, height: nat): F {
    Root(h, SealedLeaves(h, sec, Pow2(height)), height)
  }

  /** The file fills its 2^height chunks exactly. */
  ghost predicate FullSize(sec: Sector, height: nat) {
    sec.chunkSize > 0 && |sec.file| == Pow2(height) * sec.chunkSize
  }

  // --- the sealer -----------------------------------------------------------

  /** Both tables are filled up to chunk `n`; replica 0 does not exist. */
  ghost predicate Sealed(h: HashFn, sec: Sector, n: nat, states: seq<Option<F>>, replicas: seq<Option<F>>) {
    && n < |states| && n < |replicas|
    && (forall k | 0 <= k <= n :: states[k] == Some(StateAt(h, sec, k)))
    && (forall k | 1 <= k <= n :: replicas[k] == Some(ReplicaAt(h, sec, k)))
  }

  /** What storage holds after sealing: every state and replica, the tree, and the file itself. */
  ghost predicate HoldsSealed(storage: ProverStorage, h: HashFn, sec: Sector, height: nat)
    reads storage
  {
    && storage.chunkSize == sec.chunkSize && storage.numChunks == Pow2(height)
    && storage.rawData == Some(sec.file) && storage.dropped == {}
    && Sealed(h, sec, Pow2(height), storage.states, storage.replicas)
    && storage.tree.Some? && storage.tree.value.leaves == SealedLeaves(h, sec, Pow2(height))
    && storage.tree.value.nodes == Levels(h, storage.tree.value.leaves, height)
    && storage.tree.value.root == SealedRoot(h, sec, height)
  }

  /** The file as it is read: what has not been read yet. */
  class Reader {
    var rest: seq<Byte>

    constructor (file: seq<Byte>)
      ensures rest == file
    {
      rest := file;
    }

    /** Hands out some of what is left, not necessarily all that was asked for; nothing only at the end. */
    method Read(want: nat) returns (got: seq<Byte>)
      requires want >= 1
      modifies this
      ensures |got| <= want && old(rest) == got + rest
      ensures got == [] <==> old(rest) == []
    {
      var n: nat :| n <= want && n <= |rest| && (n == 0 <==> rest == []);
      got := rest[..n];
      rest := rest[n..];
    }
  }

  /** Reads until the buffer is full or the file is at its end, however short the single reads are. */
  method FillChunk(reader: Reader, buf: array<Byte>) returns (total: nat)
    modifies reader, buf
    ensures total == Least(buf.Length, |old(reader.rest)|)
    ensures buf[..total] == old(reader.rest)[..total] && reader.rest == old(reader.rest)[total..]
  {
    total := 0;
    while total < buf.Length
      invariant total <= buf.Length && total <= |old(reader.rest)|
      invariant buf[..total] == old(reader.rest)[..total] && reader.rest == old(reader.rest)[total..]
      decreases buf.Length - total
    {
      var got := reader.Read(buf.Length - total);
      if got == [] {
        break;
      }
      GotMore(old(reader.rest), total, got, reader.rest);
      forall j | 0 <= j < |got| { buf[total + j] := got[j]; }
      total := total + |got|;
    }
  }

  lemma GotMore(file: seq<Byte>, total: nat, got: seq<Byte>, rest: seq<Byte>)
    requires total <= |file| && file[total..] == got + rest
    ensures total + |got| <= |file| && file[total..total + |got|] == got && file[total + |got|..] == rest
  {
    assert file[total..][..|got|] == got && file[total..][|got|..] == rest;
    assert file[total..][..|got|] == file[total..total + |got|] && file[total..][|got|..] == file[total + |got|..];
  }

  /** The next chunk of the file in the buffer, with zeros where the file has ended. */
  method ReadChunk(reader: Reader, buf: array<Byte>, ghost sec: Sector, ghost i: nat)
    requires i >= 1 && buf.Length == sec.chunkSize && reader.rest == Unread(sec, i - 1)
    modifies reader, buf
    ensures buf[..] == ChunkAt(sec, i) && reader.rest == Unread(sec, i)
  {
    hide ChunkAt, Unread;
    NextUnread(sec, i);
    var bytesRead := FillChunk(reader, buf);
    forall j | bytesRead <= j < buf.Length { buf[j] := 0; }
    assert buf[..] == buf[..bytesRead] + buf[bytesRead..];
    assert buf[bytesRead..] == seq(buf.Length - bytesRead, _ => 0);
  }

  function RestFrom(file: seq<Byte>, start: nat): seq<Byte> { file[Least(start, |file|)..] }

  /** What is left of the file after `i` chunks. */
  function Unread(sec: Sector, i: nat): seq<Byte> {
    MulMono(sec.chunkSize, 0, i);
    RestFrom(sec.file, i * sec.chunkSize)
  }

  lemma NextUnread(sec: Sector, i: nat)
    requires i >= 1
    ensures var left := Unread(sec, i - 1);
      var n := Least(sec.chunkSize, |left|);
      ChunkAt(sec, i) == left[..n] + seq(sec.chunkSize - n, _ => 0) && Unread(sec, i) == left[n..]
  {
    hide Window, RestFrom;
    MulMono(sec.chunkSize, 0, i - 1);
    assert (i - 1) * sec.chunkSize + sec.chunkSize == i * sec.chunkSize;
    CutTwice(sec.file, (i - 1) * sec.chunkSize, sec.chunkSize);
  }

  lemma CutTwice(file: seq<Byte>, start: nat, c: nat)
    ensures var left := RestFrom(file, start);
      var n := Least(c, |left|);
      Window(file, start, c) == left[..n] + seq(c - n, _ => 0) && RestFrom(file, start + c) == left[n..]
  {
  }

  /** Seals any file; the chunk count the configuration gives has to be a power of two. */
  method SealSectorStreaming(h: HashFn, sec: Sector, sectorSize: nat, ghost height: nat) returns (storage: ProverStorage)
    requires sec.chunkSize > 0 && sectorSize / sec.chunkSize == Pow2(height)
    ensures fresh(storage)
    ensures HoldsSealed(storage, h, sec, height)
  {
    hide Pow2, ChunkAt, Unread, Root, Levels, LeafHashes, HashFold, BytesToFr, Hash4, StateAt, ReplicaAt, Pairs, Sealed;
    var numChunks := sectorSize / sec.chunkSize;
    storage := new ProverStorage(numChunks, sec.chunkSize);
    storage.rawData := Some(sec.file);
    var reader := new Reader(sec.file);
    var chunkBuf := new Byte[sec.chunkSize](_ => 0);
    NothingRead(sec);
    var sPrev := sec.replicaId;
    var sealedPairs: seq<(F, F)> := [];
    storage.InsertState(0, sPrev);
    NothingSealed(h, sec, storage.states, storage.replicas);
    for i := 1 to numChunks + 1
      invariant fresh(storage) && fresh(reader) && fresh(chunkBuf)
      invariant reader.rest == Unread(sec, i - 1)
      invariant storage.chunkSize == sec.chunkSize && storage.numChunks == numChunks
      invariant storage.rawData == Some(sec.file) && storage.dropped == {}
      invariant |storage.states| == |storage.replicas| == numChunks + 1
      invariant Sealed(h, sec, i - 1, storage.states, storage.replicas)
      invariant sPrev == StateAt(h, sec, i - 1)
      invariant sealedPairs == Pairs(h, sec, i - 1)
    {
      ReadChunk(reader, chunkBuf, sec, i);
      var d := BytesToFr(h, chunkBuf[..]);
      var r := Hash4(h, d, sPrev, FromNat(i), sec.replicaId);
      var s := h(sPrev, r);
      SealStep(h, sec, i);
      SealedNext(h, sec, i, storage.states, storage.replicas);
      storage.InsertReplica(i, r);
      storage.InsertState(i, s);
      sealedPairs := sealedPairs + [(r, s)];
      sPrev := s;
    }
    var tree := Build(h, sealedPairs, height);
    storage.tree := Some(tree);
  }

  lemma SealedNext(h: HashFn, sec: Sector, i: nat, states: seq<Option<F>>, replicas: seq<Option<F>>)
    requires i >= 1 && i < |states| && i < |replicas| && Sealed(h, sec, i - 1, states, replicas)
    ensures Sealed(h, sec, i, states[i := Some(StateAt(h, sec, i))], replicas[i := Some(ReplicaAt(h, sec, i))])
  {
    hide StateAt, ReplicaAt;
  }

  lemma NothingSealed(h: HashFn, sec: Sector, states: seq<Option<F>>, replicas: seq<Option<F>>)
    requires states != [] && replicas != [] && states[0] == Some(sec.replicaId)
    ensures Sealed(h, sec, 0, states, replicas) && StateAt(h, sec, 0) == sec.replicaId && Pairs(h, sec, 0) == []
  {
  }

  lemma NothingRead(sec: Sector)
    ensures Unread(sec, 0) == sec.file
  {
  }

  lemma SealStep(h: HashFn, sec: Sector, i: nat)
    requires i >= 1
    ensures ReplicaAt(h, sec, i) == Hash4(h, BytesToFr(h, ChunkAt(sec, i)), StateAt(h, sec, i - 1), FromNat(i), sec.replicaId)
    ensures StateAt(h, sec, i) == h(StateAt(h, sec, i - 1), ReplicaAt(h, sec, i))
    ensures Pairs(h, sec, i) == Pairs(h, sec, i - 1) + [(ReplicaAt(h, sec, i), StateAt(h, sec, i))]
  {
  }

  // --- binding --------------------------------------------------------------

  /** What the sealer reads at offset `k`: the file, then zeros. */
  function ByteAt(sec: Sector, k: nat): Byte { if k < |sec.file| then sec.file[k] else 0 }

  ghost predicate SameBytes(a: Sector, b: Sector, n: nat) {
    forall k: nat | k < n :: ByteAt(a, k) == ByteAt(b, k)
  }

  lemma ChunkByte(sec: Sector, i: nat, j: nat)
    requires i >= 1 && j < sec.chunkSize
    ensures (i - 1) * sec.chunkSize >= 0
    ensures ChunkAt(sec, i)[j] == ByteAt(sec, (i - 1) * sec.chunkSize + j)
  {
    MulMono(sec.chunkSize, 0, i - 1);
  }

  /** The chunk that byte `k` lies in. */
  lemma ChunkOf(k: nat, c: nat, n: nat) returns (i: nat)
    requires c > 0 && k < n * c
    ensures 1 <= i <= n && (i - 1) * c <= k < (i - 1) * c + c
  {
    i := k / c + 1;
    DivMod(k, c);
    assert (i - 1) * c == c * (k / c);
    if i > n {
      MulMono(c, n, i - 1);
    }
  }

  lemma ByteOffset(i: nat, j: nat, c: nat, n: nat)
    requires 1 <= i <= n && j < c
    ensures 0 <= (i - 1) * c + j < n * c
  {
    MulMono(c, 0, i - 1);
    MulMono(c, i, n);
    assert (i - 1) * c + c == i * c;
  }

  lemma SameChunksGiveBytes(a: Sector, b: Sector, n: nat)
    requires a.chunkSize == b.chunkSize && forall i | 1 <= i <= n :: ChunkAt(a, i) == ChunkAt(b, i)
    ensures n * a.chunkSize >= 0 && SameBytes(a, b, n * a.chunkSize)
  {
    hide ChunkAt, ByteAt;
    var c := a.chunkSize;
    MulMono(c, 0, n);
    forall k: nat | k < n * c ensures ByteAt(a, k) == ByteAt(b, k) {
      assert c != 0;
      var i := ChunkOf(k, c, n);
      ChunkByte(a, i, k - (i - 1) * c);
      ChunkByte(b, i, k - (i - 1) * c);
    }
  }

  lemma SameBytesGiveChunk(a: Sector, b: Sector, n: nat, i: nat)
    requires a.chunkSize == b.chunkSize && 1 <= i <= n
    requires n * a.chunkSize >= 0 && SameBytes(a, b, n * a.chunkSize)
    ensures ChunkAt(a, i) == ChunkAt(b, i)
  {
    hide ChunkAt, ByteAt;
    forall j: nat | j < a.chunkSize ensures ChunkAt(a, i)[j] == ChunkAt(b, i)[j] {
      ChunkByte(a, i, j);
      ChunkByte(b, i, j);
      ByteOffset(i, j, a.chunkSize, n);
    }
  }

  /** Chunk by chunk or byte by byte, up to the size of the sector. */
  lemma SameChunksSameBytes(a: Sector, b: Sector, n: nat)
    requires a.chunkSize == b.chunkSize
    ensures n * a.chunkSize >= 0
    ensures (forall i | 1 <= i <= n :: ChunkAt(a, i) == ChunkAt(b, i)) <==> SameBytes(a, b, n * a.chunkSize)
  {
    hide ChunkAt, SameBytes;
    MulMono(a.chunkSize, 0, n);
    if forall i | 1 <= i <= n :: ChunkAt(a, i) == ChunkAt(b, i) {
      SameChunksGiveBytes(a, b, n);
    }
    if SameBytes(a, b, n * a.chunkSize) {
      forall i | 1 <= i <= n ensures ChunkAt(a, i) == ChunkAt(b, i) {
        SameBytesGiveChunk(a, b, n, i);
      }
    }
  }

  /** Unpacks one leaf: pair, replica, digest, limbs. */
  function ChunkClash(h: HashFn, a: Sector, b: Sector, i: nat): (c: Clash)
    requires i >= 1 && a.chunkSize == b.chunkSize
    ensures c.Genuine(h)
  {
    Compare(h, (ReplicaAt(h, a, i), StateAt(h, a, i)), (ReplicaAt(h, b, i), StateAt(h, b, i)))
      .Else(Hash4Clash(h, (DigestAt(h, a, i), StateAt(h, a, i - 1), FromNat(i), a.replicaId),
                          (DigestAt(h, b, i), StateAt(h, b, i - 1), FromNat(i), b.replicaId)))
      .Else(FoldClash(h, FromNat(a.chunkSize), BytesToLimbs(ChunkAt(a, i)),
                         FromNat(b.chunkSize), BytesToLimbs(ChunkAt(b, i))))
  }

  lemma ChunkBinds(h: HashFn, a: Sector, b: Sector, i: nat)
    requires i >= 1 && a.chunkSize == b.chunkSize
    requires h(ReplicaAt(h, a, i), StateAt(h, a, i)) == h(ReplicaAt(h, b, i), StateAt(h, b, i))
    requires ChunkClash(h, a, b, i).NoClash?
    ensures ChunkAt(a, i) == ChunkAt(b, i) && a.replicaId == b.replicaId
  {
    Hash4Binds(h, (DigestAt(h, a, i), StateAt(h, a, i - 1), FromNat(i), a.replicaId),
      (DigestAt(h, b, i), StateAt(h, b, i - 1), FromNat(i), b.replicaId));
    FoldBinds(h, FromNat(a.chunkSize), BytesToLimbs(ChunkAt(a, i)), FromNat(b.chunkSize), BytesToLimbs(ChunkAt(b, i)));
    LimbsInjective(ChunkAt(a, i), ChunkAt(b, i));
  }

  function ChunksClash(h: HashFn, a: Sector, b: Sector, n: nat): (c: Clash)
    requires a.chunkSize == b.chunkSize
    ensures c.Genuine(h)
  {
    if n == 0 then NoClash else ChunksClash(h, a, b, n - 1).Else(ChunkClash(h, a, b, n))
  }

  lemma {:induction false} NoChunksClash(h: HashFn, a: Sector, b: Sector, n: nat, i: nat)
    requires a.chunkSize == b.chunkSize && 1 <= i <= n && ChunksClash(h, a, b, n).NoClash?
    ensures ChunkClash(h, a, b, i).NoClash?
  {
    hide ChunkClash;
    if i >= n {
    } else {
      NoChunksClash(h, a, b, n - 1, i);
    }
  }

  /** Where to look for a collision between two sealed files: the trees, then every leaf. */
  function SealClash(h: HashFn, a: Sector, b: Sector, height: nat): (c: Clash)
    requires a.chunkSize == b.chunkSize
    ensures c.Genuine(h)
  {
    RootClash(h, SealedLeaves(h, a, Pow2(height)), SealedLeaves(h, b, Pow2(height)), height)
      .Else(ChunksClash(h, a, b, Pow2(height)))
  }

  /** Equal sealed roots are equal chunks of one replica, unless `SealClash` is a collision. */
  lemma SealedChunksBind(h: HashFn, a: Sector, b: Sector, height: nat)
    requires a.chunkSize == b.chunkSize
    requires SealClash(h, a, b, height).NoClash?
    ensures SealedRoot(h, a, height) == SealedRoot(h, b, height)
            <==> a.replicaId == b.replicaId && forall i | 1 <= i <= Pow2(height) :: ChunkAt(a, i) == ChunkAt(b, i)
  {
    hide Pow2, ChunkAt, Root, RootClash, ChunkClash, ChunksClash, StateAt, ReplicaAt;
    var n := Pow2(height);
    if SealedRoot(h, a, height) == SealedRoot(h, b, height) {
      var la, lb := SealedLeaves(h, a, n), SealedLeaves(h, b, n);
      RootBinds(h, la, lb, height);
      forall i | 1 <= i <= n ensures ChunkAt(a, i) == ChunkAt(b, i) && a.replicaId == b.replicaId {
        assert la[i - 1] == lb[i - 1];
        NoChunksClash(h, a, b, n, i);
        ChunkBinds(h, a, b, i);
      }
      assert ChunkAt(a, 1) == ChunkAt(b, 1);
    }
    if a.replicaId == b.replicaId && forall i | 1 <= i <= n :: ChunkAt(a, i) == ChunkAt(b, i) {
      SameChunksSameRoot(h, a, b, height);
    }
  }

  /** Only the chunks and the replica id go into the root. */
  lemma SameChunksSameRoot(h: HashFn, a: Sector, b: Sector, height: nat)
    requires a.chunkSize == b.chunkSize && a.replicaId == b.replicaId
    requires forall i | 1 <= i <= Pow2(height) :: ChunkAt(a, i) == ChunkAt(b, i)
    ensures SealedRoot(h, a, height) == SealedRoot(h, b, height)
  {
    hide ChunkAt, StateAt, ReplicaAt, Pow2, Root;
    var n := Pow2(height);
    SameChunksSameStates(h, a, b, n);
    assert SealedLeaves(h, a, n) == SealedLeaves(h, b, n);
  }

  lemma {:induction false} SameChunksSameStates(h: HashFn, a: Sector, b: Sector, n: nat)
    requires a.replicaId == b.replicaId
    requires forall i | 1 <= i <= n :: ChunkAt(a, i) == ChunkAt(b, i)
    ensures StateAt(h, a, n) == StateAt(h, b, n)
    ensures forall i | 1 <= i <= n :: ReplicaAt(h, a, i) == ReplicaAt(h, b, i)
    ensures forall i | 1 <= i <= n :: StateAt(h, a, i) == StateAt(h, b, i)
  {
    hide ChunkAt, BytesToLimbs, HashFold;
    if n == 0 {
    } else {
      SameChunksSameStates(h, a, b, n - 1);
    }
  }

  /**
   What a sealed root fixes, exactly: the replica id and the bytes of the sector, zeros after the
   end of a short file included, and what lies past the sector's end left out.
   */
  lemma SealedRootExactly(h: HashFn, a: Sector, b: Sector, height: nat)
    requires a.chunkSize == b.chunkSize
    requires SealClash(h, a, b, height).NoClash?
    ensures Pow2(height) * a.chunkSize >= 0
    ensures SealedRoot(h, a, height) == SealedRoot(h, b, height)
            <==> a.replicaId == b.replicaId && SameBytes(a, b, Pow2(height) * a.chunkSize)
  {
    SealedChunksBind(h, a, b, height);
    SameChunksSameBytes(a, b, Pow2(height));
  }

  /** The file fits into its 2^height chunks. */
  ghost predicate Fits(sec: Sector, height: nat) {
    |sec.file| <= Pow2(height) * sec.chunkSize
  }

  /** Files that fit and seal to one root are the same file exactly when they are of one length. */
  lemma SealingBindsExactly(h: HashFn, a: Sector, b: Sector, height: nat)
    requires Fits(a, height) && Fits(b, height) && a.chunkSize == b.chunkSize
    requires SealedRoot(h, a, height) == SealedRoot(h, b, height)
    requires SealClash(h, a, b, height).NoClash?
    ensures a == b <==> |a.file| == |b.file|
  {
    hide Pow2, SealedRoot, SealClash;
    SealedRootExactly(h, a, b, height);
    if |a.file| == |b.file| {
      forall k | 0 <= k < |a.file| ensures a.file[k] == b.file[k] {
        assert ByteAt(a, k) == ByteAt(b, k);
      }
    }
  }

  /** Two files that fill their chunks and seal to one root are the same file of the same replica. */
  lemma SealingBinds(h: HashFn, a: Sector, b: Sector, height: nat)
    requires FullSize(a, height) && FullSize(b, height) && a.chunkSize == b.chunkSize
    requires SealedRoot(h, a, height) == SealedRoot(h, b, height)
    ensures SealClash(h, a, b, height).Genuine(h)
    ensures SealClash(h, a, b, height).NoClash? ==> a == b
  {
    if SealClash(h, a, b, height).NoClash? {
      SealingBindsExactly(h, a, b, height);
    }
  }

  /** Without the lengths the file is not bound: a trailing zero byte leaves the root as it is. */
  lemma PaddingIsInvisible(h: HashFn, sec: Sector, height: nat)
    ensures SealedRoot(h, sec, height) == SealedRoot(h, sec.(file := sec.file + [0]), height)
  {
    var padded := sec.(file := sec.file + [0]);
    SameChunksSameBytes(sec, padded, Pow2(height));
    SameChunksSameRoot(h, sec, padded, height);
  }
}
