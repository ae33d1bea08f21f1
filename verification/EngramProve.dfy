/** The honest prover: seal the file, derive the challenges, synthesize and chain every step. */
module EngramProve {
  import opened Chunking
  import opened EpochRun
  import opened Field
  import opened Hashing
  import opened MerkleTree
  import opened Numbers
  import opened Poseidon2
  import opened R1cs
  import opened Sealing
  import opened StepCircuit
  import opened StepSynthesis
  import opened Storage

  /** Number of binary digits, as 64 minus the leading zeros counts them. */
  function BitLength(x: nat): nat { if x == 0 then 0 else 1 + BitLength(x / 2) }

  /** The tree height the prover insists on is the height of the tree. */
  lemma {:induction false} HeightNeeded(height: nat)
    ensures BitLength(Pow2(height) - 1) == height
  {
    if height == 0 {
    } else {
      HeightNeeded(height - 1);
      assert (Pow2(height) - 1) / 2 == Pow2(height - 1) - 1;
    }
  }

  /** The opening of chunk `i` that sealing leaves in storage. */
  function SealedOpening(h: HashFn, sec: Sector, height: nat, i: nat): Opening
    requires 1 <= i <= Pow2(height)
  {
    Opening(FromNat(i), StateAt(h, sec, i - 1), StateAt(h, sec, i), BytesToLimbs(ChunkAt(sec, i)),
            Path(h, SealedLeaves(h, sec, Pow2(height)), height, i - 1))
  }

  /** Sealing completeness: what sealing stored opens every challenge. */
  lemma SealedOpens(cfg: Config, sec: Sector, z: Z, i: nat)
    requires cfg.pathLen == cfg.height && cfg.chunkSize == sec.chunkSize && 1 <= i <= Pow2(cfg.height)
    requires z.root == SealedRoot(Hasher(cfg.rc), sec, cfg.height) && z.replica == sec.replicaId
    requires LeafIndex(Hasher(cfg.rc), z, cfg.height) == i - 1
    ensures Opens(cfg, z, SealedOpening(Hasher(cfg.rc), sec, cfg.height, i))
    ensures ReplicaOf(Hasher(cfg.rc), cfg.chunkSize, z, SealedOpening(Hasher(cfg.rc), sec, cfg.height, i))
         == ReplicaAt(Hasher(cfg.rc), sec, i)
  {
    hide Hash2, HashFold, Climb, Root, Path, Pow2, Seed, ChunkAt, BytesToLimbs, LeafHashes;
    var h := Hasher(cfg.rc);
    var leaves := SealedLeaves(h, sec, Pow2(cfg.height));
    assert leaves[i - 1] == h(ReplicaAt(h, sec, i), StateAt(h, sec, i));
    PathOpens(h, leaves, cfg.height, i - 1);
  }

  /** A chunk the file holds in full. */
  predicate InFile(sec: Sector, i: nat) { i * sec.chunkSize <= |sec.file| }

  lemma RawChunkIsThere(sec: Sector, i: nat)
    requires i >= 1
    ensures InFile(sec, i) <==> (i - 1) * sec.chunkSize + sec.chunkSize <= |sec.file|
    ensures InFile(sec, i) ==> (i - 1) * sec.chunkSize + sec.chunkSize <= |sec.file| && (i - 1) * sec.chunkSize >= 0
    ensures InFile(sec, i) ==> ChunkAt(sec, i) == sec.file[(i - 1) * sec.chunkSize..(i - 1) * sec.chunkSize + sec.chunkSize]
  {
    MulMono(sec.chunkSize, 0, i - 1);
    assert i * sec.chunkSize == (i - 1) * sec.chunkSize + sec.chunkSize;
  }

  /** Every chunk is sealed, but only those the file holds in full can be read back. */
  lemma SealedNotAlwaysReadable(storage: ProverStorage, h: HashFn, sec: Sector, height: nat, i: nat)
    requires HoldsSealed(storage, h, sec, height) && 1 <= i <= Pow2(height)
    ensures storage.GetState(i).Some?
    ensures storage.GetRawChunk(i).Some? <==> InFile(sec, i)
  {
    hide Pow2, Root, Levels, LeafHashes, StateAt, ReplicaAt, InFile;
    RawChunkIsThere(sec, i);
  }

  /** Assembles the private values of challenge `i` from storage. */
  method AssembleChallenge(rc: RoundTable, storage: ProverStorage, sec: Sector, height: nat,
                           epoch: U64, sectorId: U64, beacon: F, i: nat)
    returns (c: StepInput)
    requires 1 <= i <= Pow2(height) && InFile(sec, i)
    requires HoldsSealed(storage, Hasher(rc), sec, height)
    ensures c.epoch == FromNat(epoch) && c.sector == FromNat(sectorId) && c.beacon == beacon
    ensures c.root == SealedRoot(Hasher(rc), sec, height) && c.replica == sec.replicaId
    ensures c.Config(rc) == Config(rc, sec.chunkSize, height, height)
    ensures c.Opening() == SealedOpening(Hasher(rc), sec, height, i)
    ensures c.indices == IndexBits(i - 1, height) && |c.limbs| == NumLimbs(sec.chunkSize)
  {
    hide Hash2, HashFold, Climb, Root, Pow2, BytesToLimbs, LeafHashes, Levels, Path, StateAt, ReplicaAt, ChunkAt;
    RawChunkIsThere(sec, i);
    var raw := storage.GetRawChunk(i);
    var before, after := storage.GetState(i - 1), storage.GetState(i);
    var proof := GenerateProof(Hasher(rc), storage.tree.value, i - 1, height);
    c := StepInput(FromNat(epoch), FromNat(sectorId), storage.tree.value.root, beacon, FromNat(i),
                   before.value, after.value, sec.replicaId, proof.siblings, proof.pathIndices, height,
                   BytesToLimbs(raw.value), sec.chunkSize);
  }

  /** The assignment of step `k` opens the sealed chunk the host derives for challenge `k + 1`. */
  ghost predicate Answers(cfg: Config, sec: Sector, epoch: U64, sectorId: U64, beacon: F, w: seq<F>, k: nat) {
    && k + 1 < 0x1_0000_0000_0000_0000
    && var i := DeriveChallengeIndex(Hasher(cfg.rc), beacon, sectorId, epoch, k + 1, Pow2(cfg.height));
       && 1 <= i <= Pow2(cfg.height)
       && OpeningOf(cfg, w) == SealedOpening(Hasher(cfg.rc), sec, cfg.height, i)
  }

  /** The prover's run so far: `k` chained satisfied steps. */
  ghost predicate RunSoFar(cfg: Config, z0: Z, ws: seq<seq<F>>, z: Z, k: nat) {
    cfg.Indexable() && |ws| == k && Run(cfg, z0, ws) && z == StateBefore(cfg, z0, ws, k)
  }

  lemma RunGrows(cfg: Config, z0: Z, ws: seq<seq<F>>, z: Z, k: nat, w: seq<F>)
    requires RunSoFar(cfg, z0, ws, z, k) && Sat(StepShape(cfg).s, w) && ZIn(w) == z
    ensures RunSoFar(cfg, z0, ws + [w], ZOut(cfg, w), k + 1)
  {
    hide Sat, StepShape, ZIn, ZOut;
    var all := ws + [w];
    forall m | 0 <= m < |all| ensures Sat(StepShape(cfg).s, all[m]) && ZIn(all[m]) == StateBefore(cfg, z0, all, m) {
      if m < k {
        assert all[m] == ws[m];
        assert m > 0 ==> all[m - 1] == ws[m - 1];
      } else {
        assert k > 0 ==> all[k - 1] == ws[k - 1];
      }
    }
  }

  /** One honest step. */
  method ProveStep(rc: RoundTable, c: StepInput, z: Z, ghost sec: Sector, ghost i: nat) returns (w: seq<F>, next: Z)
    requires c.Config(rc) == Config(rc, sec.chunkSize, c.height, c.height) && c.height <= 63
    requires 1 <= i <= Pow2(c.height) && |c.limbs| == NumLimbs(sec.chunkSize)
    requires c.Matches(z) && c.root == SealedRoot(Hasher(rc), sec, c.height) && c.replica == sec.replicaId
    requires c.Opening() == SealedOpening(Hasher(rc), sec, c.height, i)
    requires c.indices == IndexBits(i - 1, c.height) && LeafIndex(Hasher(rc), z, c.height) == i - 1
    ensures Sat(StepShape(c.Config(rc)).s, w) && ZIn(w) == z && next == ZOut(c.Config(rc), w)
    ensures OpeningOf(c.Config(rc), w) == SealedOpening(Hasher(rc), sec, c.height, i)
  {
    hide Hash2, HashFold, Climb, Root, Pow2, Seed, LeafIndex, SealedRoot, SealedOpening, Opens, IndexBits, StepShape, ZOut, OpeningOf, Holds;
    var cs := new ConstraintSystem([z.epoch, z.counter, z.sector, z.root, z.beacon, z.replica, z.acc]);
    SealedOpens(c.Config(rc), sec, z, i);
    assert c.indices[..c.height] == c.indices by {
      assert |IndexBits(i - 1, c.height)| == c.height by { IndexBitsLength(i - 1, c.height); }
    }
    var out := Synthesize(cs, rc, c);
    w := cs.wit;
    next := ZRead(w, out.outputs);
  }

  lemma IndexBitsLength(index: nat, n: nat)
    ensures |IndexBits(index, n)| == n
  {
  }

  /** The file holds the chunks of the first `n` challenges in full. */
  ghost predicate AllInFile(h: HashFn, sec: Sector, beacon: F, sectorId: U64, epoch: U64, n: nat, nChunks: nat)
    requires nChunks > 0
  {
    forall c: U64 | 1 <= c <= n :: InFile(sec, DeriveChallengeIndex(h, beacon, sectorId, epoch, c, nChunks))
  }

  /**
   The whole honest run over any file: it is made exactly when the height given is the tree's, there is
   a challenge to set the circuit up with, and the file holds every challenged chunk in full; and then
   every step satisfies the circuit and starts where the previous one ended. Zeros that were sealed
   after the end of a short file cannot be proved.
   */
  method ProveEpoch(rc: RoundTable, sec: Sector, nChunks: nat, treeHeight: nat, nChallenges: U64,
                    epoch: U64, sectorId: U64, beacon: F, ghost height: nat)
    returns (ok: bool, z0: Z, ws: seq<seq<F>>)
    requires sec.chunkSize > 0 && nChunks == Pow2(height) && height <= 63
    ensures ok <==> treeHeight == height && nChallenges >= 1
                    && AllInFile(Hasher(rc), sec, beacon, sectorId, epoch, nChallenges, nChunks)
    ensures ok ==> |ws| == nChallenges && z0 == InitialZ(epoch, sectorId, SealedRoot(Hasher(rc), sec, height), beacon, sec.replicaId)
    ensures ok ==> Run(Config(rc, sec.chunkSize, height, height), z0, ws)
    ensures ok ==> forall k | 0 <= k < |ws| ::
      Answers(Config(rc, sec.chunkSize, height, height), sec, epoch, sectorId, beacon, ws[k], k)
  {
    hide Hash2, HashFold, Root, Pow2, Seed, SealedRoot, SealedOpening, IndexBits, StepShape, ZOut, OpeningOf, Sat, ZIn, DeriveChallengeIndex, LeafIndex, Accumulated, Openings, Levels, LeafHashes, StateAt, ReplicaAt, Run, BitLength;
    ws := [];
    z0 := Z(0, 0, 0, 0, 0, 0, 0);
    HeightNeeded(height);
    if treeHeight != BitLength(nChunks - 1) {
      return false, z0, ws;
    }
    SectorSize(nChunks, sec.chunkSize);
    var storage := SealSectorStreaming(Hasher(rc), sec, nChunks * sec.chunkSize, height);
    if nChallenges == 0 {
      return false, z0, ws;
    }
    ok := true;
    var cfg := Config(rc, sec.chunkSize, treeHeight, treeHeight);
    z0 := InitialZ(epoch, sectorId, storage.tree.value.root, beacon, sec.replicaId);
    var z := z0;
    RunStart(cfg, z0);
    for k := 0 to nChallenges
      invariant HoldsSealed(storage, Hasher(rc), sec, height)
      invariant RunSoFar(cfg, z0, ws, z, k) && AllInFile(Hasher(rc), sec, beacon, sectorId, epoch, k, nChunks)
      invariant forall m | 0 <= m < k :: Answers(cfg, sec, epoch, sectorId, beacon, ws[m], m)
    {
      var i := DeriveChallengeIndex(Hasher(rc), beacon, sectorId, epoch, k + 1, nChunks);
      ChallengeAhead(cfg, z0, ws, z, k, epoch, sectorId, storage.tree.value.root, beacon, sec.replicaId);
      SealedNotAlwaysReadable(storage, Hasher(rc), sec, height, i);
      if storage.GetRawChunk(i).None? {
        return false, z0, ws;
      }
      var c := AssembleChallenge(rc, storage, sec, treeHeight, epoch, sectorId, beacon, i);
      var w, next := ProveStep(rc, c, z, sec, i);
      RunGrows(cfg, z0, ws, z, k, w);
      assert Answers(cfg, sec, epoch, sectorId, beacon, w, k);
      ws := ws + [w];
      z := next;
    }
  }

  lemma SectorSize(n: nat, c: nat)
    requires c > 0
    ensures n * c / c == n
  {
    ModUnique(n * c, c, n, 0);
  }

  lemma RunStart(cfg: Config, z0: Z)
    requires cfg.Indexable()
    ensures RunSoFar(cfg, z0, [], z0, 0)
  {
  }

  /** The state a run has reached asks for the leaf the host derives next. */
  lemma ChallengeAhead(cfg: Config, z0: Z, ws: seq<seq<F>>, z: Z, k: nat,
                       epoch: U64, sectorId: U64, root: F, beacon: F, replicaId: F)
    requires cfg.height <= 63 && k + 1 < 0x1_0000_0000_0000_0000
    requires z0 == InitialZ(epoch, sectorId, root, beacon, replicaId) && RunSoFar(cfg, z0, ws, z, k)
    ensures z.epoch == z0.epoch && z.sector == z0.sector && z.root == root && z.beacon == beacon && z.replica == replicaId
    ensures var i := DeriveChallengeIndex(Hasher(cfg.rc), beacon, sectorId, epoch, k + 1, Pow2(cfg.height));
      1 <= i <= Pow2(cfg.height) && LeafIndex(Hasher(cfg.rc), z, cfg.height) == i - 1
  {
    hide Hash2, HashFold, Pow2, Seed, StepShape, ZOut, Sat, ZIn, DeriveChallengeIndex, LeafIndex, Accumulated, Openings, Run;
    RunProgress(cfg, z0, ws, k);
    CounterStep(0, k);
    DerivedIsLowBits(Hasher(cfg.rc), z, beacon, sectorId, epoch, k + 1, cfg.height);
  }
}
