/**
 Runs of the step circuit: what N satisfied steps say about the prover, and the honest run.
 A verified proof is read as "every step's constraints hold and the states are chained".
 */
module EpochRun {
  import opened Chunking
  import opened Field
  import opened Hashing
  import opened MerkleTree
  import opened Numbers
  import opened Poseidon2
  import opened R1cs
  import opened Sealing
  import opened StepCircuit
  import opened StepSynthesis
  import opened Storage

  /** The initial state: counter zero, and the accumulator starting at the replica id. */
  function InitialZ(epoch: U64, sectorId: U64, sealedRoot: F, beacon: F, replicaId: F): Z {
    Z(FromNat(epoch), 0, FromNat(sectorId), sealedRoot, beacon, replicaId, replicaId)
  }

  method Poseidon2Chain(h: HashFn, values: seq<F>) returns (acc: F)
    ensures acc == HashFold(h, 0, values)
  {
    acc := 0;
    for k := 0 to |values|
      invariant acc == HashFold(h, 0, values[..k])
    {
      assert values[..k + 1][..k] == values[..k];
      acc := h(acc, values[k]);
    }
    assert values[..|values|] == values;
  }

  /** The host's derivation: eight low bytes of the seed, modulo the chunk count, counted from one. */
  function DeriveChallengeIndex(h: HashFn, beacon: F, sectorId: U64, epoch: U64, challengeNo: U64, numChunks: nat): nat
    requires numChunks > 0
  {
    var seed := HashFold(h, 0, [beacon, FromNat(sectorId), FromNat(epoch), FromNat(challengeNo)]);
    var j := seed % 0x1_0000_0000_0000_0000;
    Least(j % numChunks + 1, 0xFFFF_FFFF_FFFF_FFFF)
  }

  /** Reducing to 64 bits first loses nothing when the chunk count is a power of two up to 2^63. */
  lemma DerivedIsLowBits(h: HashFn, z: Z, beacon: F, sectorId: U64, epoch: U64, challengeNo: U64, height: nat)
    requires height <= 63
    requires z.beacon == beacon && z.sector == FromNat(sectorId) && z.epoch == FromNat(epoch)
    requires (z.counter + 1) % P == FromNat(challengeNo)
    ensures DeriveChallengeIndex(h, beacon, sectorId, epoch, challengeNo, Pow2(height)) == LeafIndex(h, z, height) + 1
    ensures LeafIndex(h, z, height) < Pow2(height)
  {
    hide HashFold;
    var seed := Seed(h, z);
    Word64();
    Pow2Sum(height, 64 - height);
    ModOfMod(seed, Pow2(height), Pow2(64 - height));
    DivMod(seed, Pow2(height));
    HalfWord(height);
  }

  lemma Word64()
    ensures Pow2(64) == 0x1_0000_0000_0000_0000 && Pow2(63) == 0x8000_0000_0000_0000
  {
    hide Pow2;
    Pow2Byte();
    Pow2Sum(8, 8);
    Pow2Sum(16, 16);
    Pow2Sum(32, 32);
    Pow2Sum(8, 7);
    Pow2Sum(16, 15);
    Pow2Sum(32, 31);
  }

  lemma {:induction false} HalfWord(height: nat)
    requires height <= 63
    ensures Pow2(height) <= 0x8000_0000_0000_0000
  {
    Word64();
    Pow2Mono(height, 63);
  }

  // --- runs -----------------------------------------------------------------------

  /** The state before step `k` of a run of assignments. */
  function StateBefore(cfg: Config, z0: Z, ws: seq<seq<F>>, k: nat): Z
    requires k <= |ws|
  {
    if k == 0 then z0 else ZOut(cfg, ws[k - 1])
  }

  /** Every step satisfies the one fixed shape, and starts from the state the previous step ended in. */
  ghost predicate Run(cfg: Config, z0: Z, ws: seq<seq<F>>) {
    forall k | 0 <= k < |ws| :: ZIn(ws[k]) == StateBefore(cfg, z0, ws, k) && Sat(StepShape(cfg).s, ws[k])
  }

  /** The native accumulator after the given openings. */
  function Accumulated(h: HashFn, chunkSize: nat, z: Z, openings: seq<Opening>): F
    decreases |openings|
  {
    if openings == [] then z.acc
    else
      var n := |openings| - 1;
      var o := openings[n];
      h(Accumulated(h, chunkSize, z, openings[..n]), Hash4(h, o.j, o.s, ReplicaOf(h, chunkSize, z, o), 0))
  }

  /** What a step feeds the accumulator for an opening. */
  function Terms(h: HashFn, chunkSize: nat, z: Z, openings: seq<Opening>): (ts: seq<F>)
    ensures |ts| == |openings|
  {
    if openings == [] then []
    else
      var o := openings[|openings| - 1];
      Terms(h, chunkSize, z, openings[..|openings| - 1]) + [Hash4(h, o.j, o.s, ReplicaOf(h, chunkSize, z, o), 0)]
  }

  /** The accumulator is the left fold of the hash over those terms. */
  lemma {:induction false} AccumulatedIsFold(h: HashFn, chunkSize: nat, z: Z, openings: seq<Opening>)
    ensures Accumulated(h, chunkSize, z, openings) == HashFold(h, z.acc, Terms(h, chunkSize, z, openings))
    decreases |openings|
  {
    hide Hash4, ReplicaOf;
    if openings == [] {
    } else {
      var front := openings[..|openings| - 1];
      AccumulatedIsFold(h, chunkSize, z, front);
      var all := Terms(h, chunkSize, z, openings);
      HashFoldNext(h, z.acc, Terms(h, chunkSize, z, front), all[|openings| - 1]);
    }
  }

  function Openings(cfg: Config, ws: seq<seq<F>>): (os: seq<Opening>)
    ensures |os| == |ws|
  {
    if ws == [] then [] else Openings(cfg, ws[..|ws| - 1]) + [OpeningOf(cfg, ws[|ws| - 1])]
  }

  lemma {:induction false} OpeningsAt(cfg: Config, ws: seq<seq<F>>, k: nat)
    requires k < |ws|
    ensures Openings(cfg, ws)[k] == OpeningOf(cfg, ws[k])
  {
    hide OpeningOf;
    if k >= |ws| - 1 {
    } else {
      OpeningsAt(cfg, ws[..|ws| - 1], k);
    }
  }

  /** After `k` steps: the public context is untouched, the counter is `k`, the accumulator is the native fold. */
  ghost predicate Progress(cfg: Config, z0: Z, ws: seq<seq<F>>, k: nat)
    requires k <= |ws|
  {
    StateBefore(cfg, z0, ws, k)
      == z0.(counter := (z0.counter + k) % P,
             acc := Accumulated(Hasher(cfg.rc), cfg.chunkSize, z0, Openings(cfg, ws)[..k]))
  }

  lemma AccumulatedNext(h: HashFn, chunkSize: nat, z: Z, os: seq<Opening>, k: nat)
    requires k < |os|
    ensures Accumulated(h, chunkSize, z, os[..k + 1])
         == h(Accumulated(h, chunkSize, z, os[..k]), Hash4(h, os[k].j, os[k].s, ReplicaOf(h, chunkSize, z, os[k]), 0))
  {
    hide Hash4, ReplicaOf;
    assert os[..k + 1][..k] == os[..k];
  }

  lemma {:induction false} RunProgress(cfg: Config, z0: Z, ws: seq<seq<F>>, k: nat)
    requires cfg.Indexable() && Run(cfg, z0, ws) && k <= |ws|
    ensures Progress(cfg, z0, ws, k)
  {
    hide Sat, StepShape, ZIn, ZOut, OpeningOf, Hash2, Hash4, Opens, Hasher, Openings, Accumulated;
    var h, os := Hasher(cfg.rc), Openings(cfg, ws);
    if k == 0 {
      NothingAccumulated(h, cfg.chunkSize, z0, os);
    } else {
      RunProgress(cfg, z0, ws, k - 1);
      StepSound(cfg, ws[k - 1]);
      OpeningsAt(cfg, ws, k - 1);
      AccumulatedNext(h, cfg.chunkSize, z0, os, k - 1);
      CounterStep(z0.counter, k - 1);
      assert ReplicaOf(h, cfg.chunkSize, StateBefore(cfg, z0, ws, k - 1), os[k - 1])
          == ReplicaOf(h, cfg.chunkSize, z0, os[k - 1]);
    }
  }

  lemma NothingAccumulated(h: HashFn, chunkSize: nat, z: Z, os: seq<Opening>)
    ensures Accumulated(h, chunkSize, z, os[..0]) == z.acc
  {
  }

  lemma CounterStep(c: F, k: nat)
    ensures ((c + k) % P + 1) % P == (c + k + 1) % P
  {
  }

  /** The leaf opened from state `z` is the one the host derives for a challenge number. */
  ghost predicate AsDerived(cfg: Config, z: Z, beacon: F, sectorId: U64, epoch: U64, challengeNo: U64) {
    LeafIndex(Hasher(cfg.rc), z, cfg.height) + 1
    == DeriveChallengeIndex(Hasher(cfg.rc), beacon, sectorId, epoch, challengeNo, Pow2(cfg.height))
  }

  /** What one step of a run opens. */
  lemma RunStep(cfg: Config, epoch: U64, sectorId: U64, sealedRoot: F, beacon: F, replicaId: F, ws: seq<seq<F>>, k: nat)
    requires k < |ws| && cfg.Indexable() && Run(cfg, InitialZ(epoch, sectorId, sealedRoot, beacon, replicaId), ws)
    ensures cfg.height <= 63 && k + 1 < 0x1_0000_0000_0000_0000 ==>
      && LeafIndex(Hasher(cfg.rc), ZIn(ws[k]), cfg.height) < Pow2(cfg.height)
      && AsDerived(cfg, ZIn(ws[k]), beacon, sectorId, epoch, k + 1)
    ensures Opens(cfg, ZIn(ws[k]), OpeningOf(cfg, ws[k]))
    ensures ZIn(ws[k]).root == sealedRoot && ZIn(ws[k]).replica == replicaId
  {
    hide Sat, StepShape, ZIn, ZOut, OpeningOf, Hash2, Hash4, Opens, HashFold, Pow2, LeafIndex, DeriveChallengeIndex, Accumulated, Openings;
    RunProgress(cfg, InitialZ(epoch, sectorId, sealedRoot, beacon, replicaId), ws, k);
    StepSound(cfg, ws[k]);
    CounterStep(0, k);
    if cfg.height <= 63 && k + 1 < 0x1_0000_0000_0000_0000 {
      DerivedIsLowBits(Hasher(cfg.rc), ZIn(ws[k]), beacon, sectorId, epoch, k + 1, cfg.height);
    }
  }

  /**
   Whole-run safety, for every number of steps: step `k` opens the leaf the host derives for
   challenge `k + 1`, the public context never changes, the final counter counts the steps, and the
   accumulator is the native fold, from the replica id on, of what was opened.
   */
  lemma RunSafety(cfg: Config, epoch: U64, sectorId: U64, sealedRoot: F, beacon: F, replicaId: F, ws: seq<seq<F>>)
    requires cfg.Indexable() && Run(cfg, InitialZ(epoch, sectorId, sealedRoot, beacon, replicaId), ws)
    ensures cfg.height <= 63 ==> forall k | 0 <= k < |ws| && k + 1 < 0x1_0000_0000_0000_0000 ::
      AsDerived(cfg, ZIn(ws[k]), beacon, sectorId, epoch, k + 1)
    ensures forall k | 0 <= k < |ws| ::
      Opens(cfg, ZIn(ws[k]), OpeningOf(cfg, ws[k])) && ZIn(ws[k]).root == sealedRoot && ZIn(ws[k]).replica == replicaId
    ensures var h, z0 := Hasher(cfg.rc), InitialZ(epoch, sectorId, sealedRoot, beacon, replicaId);
      StateBefore(cfg, z0, ws, |ws|)
      == Z(FromNat(epoch), FromNat(|ws|), FromNat(sectorId), sealedRoot, beacon, replicaId,
           HashFold(h, replicaId, Terms(h, cfg.chunkSize, z0, Openings(cfg, ws))))
  {
    hide Sat, StepShape, ZIn, ZOut, OpeningOf, Hash2, Opens, HashFold, Pow2, LeafIndex, AsDerived, Accumulated, Terms, Openings, Run;
    var z0 := InitialZ(epoch, sectorId, sealedRoot, beacon, replicaId);
    RunProgress(cfg, z0, ws, |ws|);
    assert Openings(cfg, ws)[..|ws|] == Openings(cfg, ws);
    AccumulatedIsFold(Hasher(cfg.rc), cfg.chunkSize, z0, Openings(cfg, ws));
    forall k | 0 <= k < |ws|
      ensures Opens(cfg, ZIn(ws[k]), OpeningOf(cfg, ws[k])) && ZIn(ws[k]).root == sealedRoot && ZIn(ws[k]).replica == replicaId
      ensures cfg.height <= 63 && k + 1 < 0x1_0000_0000_0000_0000 ==>
        AsDerived(cfg, ZIn(ws[k]), beacon, sectorId, epoch, k + 1)
    {
      RunStep(cfg, epoch, sectorId, sealedRoot, beacon, replicaId, ws, k);
    }
  }

  // --- possession -------------------------------------------------------------------

  /** Compares an opening with the sealed sector: path, leaf, replica, then the chunk's limbs. */
  function OpeningClash(h: HashFn, sec: Sector, height: nat, z: Z, o: Opening): (c: Clash)
    requires |o.siblings| == height && |o.limbs| == NumLimbs(sec.chunkSize)
    requires LeafIndex(h, z, height) < Pow2(height)
    ensures c.Genuine(h)
  {
    var index := LeafIndex(h, z, height);
    var r := ReplicaOf(h, sec.chunkSize, z, o);
    var i := index + 1;
    ClimbClash(h, SealedLeaves(h, sec, Pow2(height)), height, h(r, o.s), o.siblings, index)
      .Else(Compare(h, (r, o.s), (ReplicaAt(h, sec, i), StateAt(h, sec, i))))
      .Else(Hash4Clash(h, (HashFold(h, FromNat(sec.chunkSize), o.limbs), o.sPrev, o.j, z.replica),
                          (DigestAt(h, sec, i), StateAt(h, sec, i - 1), FromNat(i), sec.replicaId)))
      .Else(FoldClash(h, FromNat(sec.chunkSize), o.limbs, FromNat(sec.chunkSize), BytesToLimbs(ChunkAt(sec, i))))
  }

  /** An accepted opening against a sealed root carries the sealed chunk's own limbs. */
  lemma OpeningBinds(cfg: Config, sec: Sector, z: Z, o: Opening)
    requires cfg.pathLen == cfg.height && cfg.chunkSize == sec.chunkSize && Opens(cfg, z, o)
    requires z.root == SealedRoot(Hasher(cfg.rc), sec, cfg.height)
    requires LeafIndex(Hasher(cfg.rc), z, cfg.height) < Pow2(cfg.height)
    requires OpeningClash(Hasher(cfg.rc), sec, cfg.height, z, o).NoClash?
    ensures o.limbs == BytesToLimbs(ChunkAt(sec, LeafIndex(Hasher(cfg.rc), z, cfg.height) + 1))
    ensures o.sPrev == StateAt(Hasher(cfg.rc), sec, LeafIndex(Hasher(cfg.rc), z, cfg.height))
    ensures z.replica == sec.replicaId
  {
    hide Hash2, HashFold, Climb, ClimbClash, Root, Pow2, Seed, ChunkAt, BytesToLimbs;
    var h := Hasher(cfg.rc);
    var index := LeafIndex(h, z, cfg.height);
    var leaves := SealedLeaves(h, sec, Pow2(cfg.height));
    var r := ReplicaOf(h, cfg.chunkSize, z, o);
    ClimbBinds(h, leaves, cfg.height, h(r, o.s), o.siblings, index);
    assert leaves[index] == h(ReplicaAt(h, sec, index + 1), StateAt(h, sec, index + 1));
    Hash4Binds(h, (HashFold(h, FromNat(sec.chunkSize), o.limbs), o.sPrev, o.j, z.replica),
      (DigestAt(h, sec, index + 1), StateAt(h, sec, index), FromNat(index + 1), sec.replicaId));
    FoldBinds(h, FromNat(sec.chunkSize), o.limbs, FromNat(sec.chunkSize), BytesToLimbs(ChunkAt(sec, index + 1)));
  }

  /**
   Possession: a run that satisfies the circuit against the sealed root of a file, for every number
   of steps, holds in step `k` exactly the limbs of the chunk the host challenges with number
   `k + 1`, from which the chunk's bytes are read back; otherwise the step's own values and the sealed
   file exhibit a hash collision.
   */
  lemma Possession(cfg: Config, sec: Sector, epoch: U64, sectorId: U64, beacon: F, ws: seq<seq<F>>, k: nat)
    requires cfg.height <= 63 && cfg.pathLen == cfg.height && cfg.chunkSize == sec.chunkSize
    requires var root := SealedRoot(Hasher(cfg.rc), sec, cfg.height);
      Run(cfg, InitialZ(epoch, sectorId, root, beacon, sec.replicaId), ws)
    requires k < |ws| && k + 1 < 0x1_0000_0000_0000_0000
    ensures var h := Hasher(cfg.rc);
      var i := DeriveChallengeIndex(h, beacon, sectorId, epoch, k + 1, Pow2(cfg.height));
      var z, o := ZIn(ws[k]), OpeningOf(cfg, ws[k]);
      && 1 <= i <= Pow2(cfg.height)
      && LeafIndex(h, z, cfg.height) < Pow2(cfg.height)
      && |o.siblings| == cfg.height && |o.limbs| == NumLimbs(sec.chunkSize)
      && var clash := OpeningClash(h, sec, cfg.height, z, o);
         && clash.Genuine(h)
         && (clash.NoClash? ==>
               o.limbs == BytesToLimbs(ChunkAt(sec, i)) && LimbsToBytes(o.limbs, sec.chunkSize) == ChunkAt(sec, i))
  {
    hide Sat, StepShape, ZOut, OpeningOf, ZIn, Hash2, Hash4, HashFold, Climb, NumLimbs, BytesToLimbs, LimbsToBytes, ChunkAt, SealedRoot, OpeningClash, DeriveChallengeIndex, Pow2, Seed, LeafIndex, Accumulated, Run;
    RunStep(cfg, epoch, sectorId, SealedRoot(Hasher(cfg.rc), sec, cfg.height), beacon, sec.replicaId, ws, k);
    var z, o := ZIn(ws[k]), OpeningOf(cfg, ws[k]);
    if OpeningClash(Hasher(cfg.rc), sec, cfg.height, z, o).NoClash? {
      OpeningBinds(cfg, sec, z, o);
      LimbsDecode(ChunkAt(sec, LeafIndex(Hasher(cfg.rc), z, cfg.height) + 1));
    }
  }
}
