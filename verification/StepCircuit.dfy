/**
 The step circuit for one storage challenge: the constraints a setup fixes, and what every
 satisfying assignment means.
 */
module StepCircuit {
  import opened Chunking
  import opened Field
  import opened Gadgets
  import opened Hashing
  import opened MerkleTree
  import opened Numbers
  import opened Poseidon2
  import opened R1cs

  /** Everything the shape of the circuit depends on. */
  datatype Config = Config(rc: RoundTable, chunkSize: nat, height: nat, pathLen: nat) {
    /** Both decompositions are indexed below their length. */
    predicate Indexable() { height <= FIELD_BITS && pathLen <= FIELD_BITS }
  }

  /** The state folded from step to step. */
  datatype Z = Z(epoch: F, counter: F, sector: F, root: F, beacon: F, replica: F, acc: F)

  /** The private values of one step. */
  datatype Opening = Opening(j: F, sPrev: F, s: F, limbs: seq<F>, siblings: seq<F>)

  // --- the native meaning of one step ------------------------------------------

  function Seed(h: HashFn, z: Z): F {
    HashFold(h, 0, [z.beacon, z.sector, z.epoch, (z.counter + 1) % P])
  }

  /** The zero-based leaf a step must open: the low `height` bits of the seed. */
  function LeafIndex(h: HashFn, z: Z, height: nat): nat { Seed(h, z) % Pow2(height) }

  function ReplicaOf(h: HashFn, chunkSize: nat, z: Z, o: Opening): F {
    Hash4(h, HashFold(h, FromNat(chunkSize), o.limbs), o.sPrev, o.j, z.replica)
  }

  function NextZ(h: HashFn, chunkSize: nat, z: Z, o: Opening): Z {
    z.(counter := (z.counter + 1) % P,
       acc := h(z.acc, Hash4(h, o.j, o.s, ReplicaOf(h, chunkSize, z, o), 0)))
  }

  /** The opening shows the challenged chunk of the sealed sector named by `z`. */
  ghost predicate Opens(cfg: Config, z: Z, o: Opening) {
    var h := Hasher(cfg.rc);
    var index := LeafIndex(h, z, cfg.height);
    var r := ReplicaOf(h, cfg.chunkSize, z, o);
    && |o.limbs| == NumLimbs(cfg.chunkSize)
    && |o.siblings| == cfg.pathLen
    && o.j == (index + 1) % P
    && o.s == h(o.sPrev, r)
    && Climb(h, h(r, o.s), o.siblings, index) == z.root
  }

  // --- the shape, section by section -------------------------------------------

  const Z_EPOCH: Var := 1
  const Z_COUNTER: Var := 2
  const Z_SECTOR: Var := 3
  const Z_ROOT: Var := 4
  const Z_BEACON: Var := 5
  const Z_REPLICA: Var := 6
  const Z_ACC: Var := 7

  const INPUTS := Shape(8, [])

  datatype Public = Public(s: Shape, epoch: Var, counter: Var, sector: Var, root: Var, beacon: Var, replica: Var)

  function PublicShape(): Public {
    var epoch := Linear(INPUTS, Of(Z_EPOCH));
    var counter := Linear(epoch.s, AddLc(Z_COUNTER, 1));
    var sector := Bound(counter.s, Of(Z_SECTOR));
    var root := Bound(sector.s, Of(Z_ROOT));
    var beacon := Bound(root.s, Of(Z_BEACON));
    var replica := Bound(beacon.s, Of(Z_REPLICA));
    Public(replica.s, epoch.v, counter.v, sector.v, root.v, beacon.v, replica.v)
  }

  datatype Folded = Folded(s: Shape, acc: Var, limbs: seq<Var>)

  /** `m` limbs allocated and absorbed one after the other. */
  function FoldShape(rc: RoundTable, s: Shape, acc: Var, m: nat): Folded {
    if m == 0 then Folded(s, acc, [])
    else
      var before := FoldShape(rc, s, acc, m - 1);
      var limb := Alloc(before.s);
      var next := Hash2Shape(rc, limb.s, before.acc, limb.v);
      Folded(next.s, next.v, before.limbs + [limb.v])
  }

  function ChunkShape(cfg: Config, s: Shape): Folded {
    var init := Bound(s, Plus(Zero, FromNat(cfg.chunkSize), ONE));
    FoldShape(cfg.rc, init.s, init.v, NumLimbs(cfg.chunkSize))
  }

  datatype Replayed = Replayed(s: Shape, j: Var, sPrev: Var, sj: Var, r: Var, limbs: seq<Var>)

  /** Possession of the chunk, reconstruction of the replica, and the state transition. */
  function ReplicaShape(cfg: Config, p: Public): Replayed {
    var j := Alloc(p.s);
    var sPrev := Alloc(j.s);
    var sj := Alloc(sPrev.s);
    var d := ChunkShape(cfg, sj.s);
    var r := Hash4Shape(cfg.rc, d.s, d.acc, sPrev.v, j.v, p.replica);
    var expected := Hash2Shape(cfg.rc, r.s, sPrev.v, r.v);
    Replayed(Enforce(expected.s, R1(Of(expected.v), One(), Of(sj.v))), j.v, sPrev.v, sj.v, r.v, d.limbs)
  }

  /** The low `h` bits as a linear combination with doubling factors. */
  function BitsLc(first: Var, h: nat): Lc {
    if h == 0 then Zero else Plus(BitsLc(first, h - 1), Pow2(h - 1), first + (h - 1))
  }

  /** The challenge index is derived, not chosen: r = low bits of the seed, j = r + 1. */
  function ChallengeShape(cfg: Config, p: Public, s: Shape, j: Var): Shape {
    var no := Linear(s, AddLc(Z_COUNTER, 1));
    var seed := ChainShape(cfg.rc, no.s, [p.beacon, p.sector, p.epoch, no.v]);
    var bits := Decompose(seed.s, seed.v);
    var r := Linear(bits.s, BitsLc(bits.v, cfg.height));
    Enforce(r.s, R1(AddLc(r.v, 1), One(), Of(j)))
  }

  datatype Climbed = Climbed(s: Shape, node: Var, siblings: seq<Var>)

  function LevelShape(rc: RoundTable, s: Shape, node: Var, bit: Var): Climbed {
    var sibling := Alloc(s);
    var isRight := Alloc(sibling.s);
    var s1 := Enforce(isRight.s, R1(Of(isRight.v), Plus(One(), -1, isRight.v), Zero));
    var s2 := Enforce(s1, R1(Of(isRight.v), One(), Of(bit)));
    var swap := SwapShape(s2, node, sibling.v, isRight.v);
    var up := Hash2Shape(rc, swap.s, swap.left, swap.right);
    Climbed(up.s, up.v, [sibling.v])
  }

  function ClimbShape(rc: RoundTable, s: Shape, node: Var, firstBit: Var, m: nat): Climbed {
    if m == 0 then Climbed(s, node, [])
    else
      var below := ClimbShape(rc, s, node, firstBit, m - 1);
      var level := LevelShape(rc, below.s, below.node, firstBit + (m - 1));
      Climbed(level.s, level.node, below.siblings + level.siblings)
  }

  /** The leaf, its index from `j`, the path, and equality with the public root. */
  function PathShape(cfg: Config, p: Public, q: Replayed, s: Shape): Climbed {
    var leaf := Hash2Shape(cfg.rc, s, q.r, q.sj);
    var index := Alloc(leaf.s);
    var s1 := Enforce(index.s, R1(AddLc(index.v, 1), One(), Of(q.j)));
    var bits := Decompose(s1, index.v);
    var top := ClimbShape(cfg.rc, bits.s, leaf.v, bits.v, cfg.pathLen);
    Climbed(Enforce(top.s, R1(Of(top.node), One(), Of(p.root))), top.node, top.siblings)
  }

  function AccumulateShape(cfg: Config, q: Replayed, s: Shape): Wire {
    var pad := ZeroWire(s);
    var inner := Hash4Shape(cfg.rc, pad.s, q.j, q.sj, q.r, pad.v);
    Hash2Shape(cfg.rc, inner.s, Z_ACC, inner.v)
  }

  datatype Step = Step(s: Shape, pub: Public, rep: Replayed, siblings: seq<Var>, acc: Var)

  function StepShape(cfg: Config): Step {
    var p := PublicShape();
    var q := ReplicaShape(cfg, p);
    var s1 := ChallengeShape(cfg, p, q.s, q.j);
    var top := PathShape(cfg, p, q, s1);
    var acc := AccumulateShape(cfg, q, top.s);
    Step(acc.s, p, q, top.siblings, acc.v)
  }

  // --- reading an assignment ----------------------------------------------------

  function ZIn(w: seq<F>): Z {
    Z(Val(w, Z_EPOCH), Val(w, Z_COUNTER), Val(w, Z_SECTOR), Val(w, Z_ROOT),
      Val(w, Z_BEACON), Val(w, Z_REPLICA), Val(w, Z_ACC))
  }

  function ZOut(cfg: Config, w: seq<F>): Z {
    var step := StepShape(cfg);
    var p := step.pub;
    Z(Val(w, p.epoch), Val(w, p.counter), Val(w, p.sector), Val(w, p.root),
      Val(w, p.beacon), Val(w, p.replica), Val(w, step.acc))
  }

  function OpeningOf(cfg: Config, w: seq<F>): Opening {
    var step := StepShape(cfg);
    var q := step.rep;
    Opening(Val(w, q.j), Val(w, q.sPrev), Val(w, q.sj), ReadAll(w, q.limbs), ReadAll(w, step.siblings))
  }

  // --- soundness of the sections ------------------------------------------------

  ghost predicate PublicMeans(p: Public, w: seq<F>) {
    && Val(w, p.epoch) == Val(w, Z_EPOCH)
    && Val(w, p.counter) == (Val(w, Z_COUNTER) + 1) % P
    && Val(w, p.sector) == Val(w, Z_SECTOR)
    && Val(w, p.root) == Val(w, Z_ROOT)
    && Val(w, p.beacon) == Val(w, Z_BEACON)
    && Val(w, p.replica) == Val(w, Z_REPLICA)
  }

  lemma PublicSound(w: seq<F>)
    requires Sat(PublicShape().s, w)
    ensures Sat(INPUTS, w) && PublicMeans(PublicShape(), w)
  {
    hide Holds, Sat;
    var epoch := Linear(INPUTS, Of(Z_EPOCH));
    var counter := Linear(epoch.s, AddLc(Z_COUNTER, 1));
    var sector := Bound(counter.s, Of(Z_SECTOR));
    var root := Bound(sector.s, Of(Z_ROOT));
    var beacon := Bound(root.s, Of(Z_BEACON));
    BoundSound(beacon.s, Of(Z_REPLICA), w);
    BoundSound(root.s, Of(Z_BEACON), w);
    BoundSound(sector.s, Of(Z_ROOT), w);
    BoundSound(counter.s, Of(Z_SECTOR), w);
    LinearSound(epoch.s, AddLc(Z_COUNTER, 1), w);
    LinearSound(INPUTS, Of(Z_EPOCH), w);
    SatOne(INPUTS, w);
    AddEval(Z_COUNTER, 1, w);
    OfEval(Z_EPOCH, w);
    OfEval(Z_SECTOR, w);
    OfEval(Z_ROOT, w);
    OfEval(Z_BEACON, w);
    OfEval(Z_REPLICA, w);
  }

  lemma SatOne(s: Shape, w: seq<F>)
    requires Sat(s, w)
    ensures Val(w, ONE) == 1
  {
  }

  lemma {:induction false} FoldSound(rc: RoundTable, s: Shape, acc: Var, m: nat, w: seq<F>)
    requires Sat(FoldShape(rc, s, acc, m).s, w)
    ensures Sat(s, w) && |FoldShape(rc, s, acc, m).limbs| == m
    ensures var f := FoldShape(rc, s, acc, m);
      Val(w, f.acc) == HashFold(Hasher(rc), Val(w, acc), ReadAll(w, f.limbs))
  {
    hide Holds, Hash2Shape, Hash2, Sat;
    if m == 0 {
    } else {
      var before := FoldShape(rc, s, acc, m - 1);
      var limb := Alloc(before.s);
      Hash2Sound(rc, limb.s, before.acc, limb.v, w);
      AllocSound(before.s, w);
      FoldSound(rc, s, acc, m - 1, w);
      var vars := before.limbs + [limb.v];
      assert vars[..m - 1] == before.limbs;
    }
  }

  lemma ChunkSound(cfg: Config, s: Shape, w: seq<F>)
    requires Sat(ChunkShape(cfg, s).s, w)
    ensures Sat(s, w) && |ChunkShape(cfg, s).limbs| == NumLimbs(cfg.chunkSize)
    ensures var f := ChunkShape(cfg, s);
      Val(w, f.acc) == HashFold(Hasher(cfg.rc), FromNat(cfg.chunkSize), ReadAll(w, f.limbs))
  {
    hide Holds, FoldShape, HashFold, Sat;
    var lc := Plus(Zero, FromNat(cfg.chunkSize), ONE);
    var init := Bound(s, lc);
    FoldSound(cfg.rc, init.s, init.v, NumLimbs(cfg.chunkSize), w);
    BoundSound(s, lc, w);
    SatOne(s, w);
    assert Eval(Zero, w) == 0;
    assert Eval(lc, w) == Eval(Zero, w) + FromNat(cfg.chunkSize) * Val(w, ONE);
  }

  ghost predicate ReplicaMeans(cfg: Config, p: Public, q: Replayed, w: seq<F>) {
    var h := Hasher(cfg.rc);
    && |q.limbs| == NumLimbs(cfg.chunkSize)
    && Val(w, q.r) == Hash4(h, HashFold(h, FromNat(cfg.chunkSize), ReadAll(w, q.limbs)),
                            Val(w, q.sPrev), Val(w, q.j), Val(w, p.replica))
    && Val(w, q.sj) == h(Val(w, q.sPrev), Val(w, q.r))
  }

  lemma ReplicaSound(cfg: Config, p: Public, w: seq<F>)
    requires Sat(ReplicaShape(cfg, p).s, w)
    ensures Sat(p.s, w) && ReplicaMeans(cfg, p, ReplicaShape(cfg, p), w)
  {
    hide Holds, ChunkShape, Hash4Shape, Hash2Shape, Hash2, Hash4, HashFold, Sat;
    var j := Alloc(p.s);
    var sPrev := Alloc(j.s);
    var sj := Alloc(sPrev.s);
    var d := ChunkShape(cfg, sj.s);
    var r := Hash4Shape(cfg.rc, d.s, d.acc, sPrev.v, j.v, p.replica);
    var expected := Hash2Shape(cfg.rc, r.s, sPrev.v, r.v);
    var same := R1(Of(expected.v), One(), Of(sj.v));
    EnforceSound(expected.s, same, w);
    SatOne(expected.s, w);
    BoundMeaning(expected.v, Of(sj.v), w);
    OfEval(sj.v, w);
    Hash2Sound(cfg.rc, r.s, sPrev.v, r.v, w);
    Hash4Sound(cfg.rc, d.s, d.acc, sPrev.v, j.v, p.replica, w);
    ChunkSound(cfg, sj.s, w);
    AllocSound(sPrev.s, w);
    AllocSound(j.s, w);
    AllocSound(p.s, w);
  }

  /** The combination of the low bits is the number they spell. */
  lemma {:induction false} BitsEval(first: Var, h: nat, x: F, w: seq<F>)
    requires h <= FIELD_BITS
    requires forall i: nat | i < FIELD_BITS :: Val(w, first + i) == Bit(x, i)
    ensures Eval(BitsLc(first, h), w) == LowSum(x, h)
  {
    hide Pow2, Bit, Val;
    if h == 0 {
    } else {
      BitsEval(first, h - 1, x, w);
      var i: nat := h - 1;
      assert Val(w, first + i) == Bit(x, i);
    }
  }

  lemma ChallengeSound(cfg: Config, p: Public, s: Shape, j: Var, w: seq<F>)
    requires Sat(ChallengeShape(cfg, p, s, j), w) && cfg.Indexable()
    requires PublicMeans(p, w)
    ensures Sat(s, w)
    ensures Val(w, j) == (LeafIndex(Hasher(cfg.rc), ZIn(w), cfg.height) + 1) % P
  {
    hide Holds, ChainShape, Hash2, HashFold, Pow2, Sat, BitsLc, ReadAll, Bit, LowSum, Eval, Enforce, Val;
    var h := Hasher(cfg.rc);
    var no := Linear(s, AddLc(Z_COUNTER, 1));
    var inputs := [p.beacon, p.sector, p.epoch, no.v];
    var seed := ChainShape(cfg.rc, no.s, inputs);
    var bits := Decompose(seed.s, seed.v);
    var r := Linear(bits.s, BitsLc(bits.v, cfg.height));
    EnforceSound(r.s, R1(AddLc(r.v, 1), One(), Of(j)), w);
    SatOne(r.s, w);
    LinearMeaning(AddLc(r.v, 1), j, w);
    AddEval(r.v, 1, w);
    LinearSound(bits.s, BitsLc(bits.v, cfg.height), w);
    DecomposeSound(seed.s, seed.v, w);
    ChainSound(cfg.rc, no.s, inputs, w);
    LinearSound(s, AddLc(Z_COUNTER, 1), w);
    AddEval(Z_COUNTER, 1, w);
    var z := ZIn(w);
    ReadFour(w, p.beacon, p.sector, p.epoch, no.v);
    BitsEval(bits.v, cfg.height, Val(w, seed.v), w);
    assert Val(w, seed.v) == Seed(h, z);
    IndexValue(Seed(h, z), cfg.height, Val(w, r.v), Val(w, j));
  }

  lemma {:induction false} IndexValue(seed: F, height: nat, r: F, j: F)
    requires r == LowSum(seed, height) % P && j == (r + 1) % P
    ensures j == (seed % Pow2(height) + 1) % P
  {
    hide Pow2, LowSum;
    var low := seed % Pow2(height);
    LowSumIsMod(seed, height);
    ModAtMost(seed, Pow2(height));
    ModUnique(low, P, 0, low);
  }

  lemma ReadFour(w: seq<F>, a: Var, b: Var, c: Var, d: Var)
    ensures ReadAll(w, [a, b, c, d]) == [Val(w, a), Val(w, b), Val(w, c), Val(w, d)]
  {
  }

  lemma ModAtMost(x: nat, m: nat)
    requires m >= 1
    ensures x % m <= x
  {
    DivMod(x, m);
    MulMono(m, 0, x / m);
  }

  lemma LevelSound(rc: RoundTable, s: Shape, node: Var, bit: Var, w: seq<F>)
    requires Sat(LevelShape(rc, s, node, bit).s, w) && Val(w, bit) < 2
    ensures Sat(s, w)
    ensures var up := LevelShape(rc, s, node, bit);
      |up.siblings| == 1 &&
      Val(w, up.node) == Parent(Hasher(rc), Val(w, node), Val(w, up.siblings[0]), Val(w, bit))
  {
    hide Holds, Hash2Shape, SwapShape, Hash2, Sat;
    var sibling := Alloc(s);
    var isRight := Alloc(sibling.s);
    var boolean := R1(Of(isRight.v), Plus(One(), -1, isRight.v), Zero);
    var s1 := Enforce(isRight.s, boolean);
    var same := R1(Of(isRight.v), One(), Of(bit));
    var s2 := Enforce(s1, same);
    var swap := SwapShape(s2, node, sibling.v, isRight.v);
    Hash2SoundPair(rc, s2, node, sibling.v, isRight.v, w);
    EnforceSound(s1, same, w);
    SatOne(s1, w);
    BoundMeaning(isRight.v, Of(bit), w);
    OfEval(bit, w);
    SwapSound(s2, node, sibling.v, isRight.v, w);
    EnforceSound(isRight.s, boolean, w);
    AllocSound(sibling.s, w);
    AllocSound(s, w);
  }

  /** Soundness of a swap followed by a hash, given the swap's constraints come first. */
  lemma Hash2SoundPair(rc: RoundTable, s: Shape, a: Var, b: Var, cond: Var, w: seq<F>)
    requires var swap := SwapShape(s, a, b, cond); Sat(Hash2Shape(rc, swap.s, swap.left, swap.right).s, w)
    ensures var swap := SwapShape(s, a, b, cond);
      && Sat(swap.s, w)
      && Val(w, Hash2Shape(rc, swap.s, swap.left, swap.right).v) == Hash2(rc, Val(w, swap.left), Val(w, swap.right))
    ensures Sat(s, w)
  {
    var swap := SwapShape(s, a, b, cond);
    Hash2Sound(rc, swap.s, swap.left, swap.right, w);
    var l := Alloc(s);
    var s1 := Enforce(l.s, SwapLeft(a, b, cond, l.v));
    var r := Alloc(s1);
    EnforceSound(r.s, SwapRight(a, b, cond, r.v), w);
    AllocSound(s1, w);
    EnforceSound(l.s, SwapLeft(a, b, cond, l.v), w);
    AllocSound(s, w);
  }

  lemma {:induction false} ClimbSound(rc: RoundTable, s: Shape, node: Var, firstBit: Var, m: nat, index: F, w: seq<F>)
    requires m <= FIELD_BITS && Sat(ClimbShape(rc, s, node, firstBit, m).s, w)
    requires forall i: nat | i < FIELD_BITS :: Val(w, firstBit + i) == Bit(index, i)
    ensures Sat(s, w) && |ClimbShape(rc, s, node, firstBit, m).siblings| == m
    ensures var top := ClimbShape(rc, s, node, firstBit, m);
      Val(w, top.node) == Climb(Hasher(rc), Val(w, node), ReadAll(w, top.siblings), index)
  {
    hide Holds, LevelShape, Hash2, Parent, Pow2, Sat, Val;
    if m == 0 {
    } else {
      var h := Hasher(rc);
      var below := ClimbShape(rc, s, node, firstBit, m - 1);
      var i: nat := m - 1;
      assert Val(w, firstBit + i) == Bit(index, i);
      var level := LevelShape(rc, below.s, below.node, firstBit + i);
      LevelSound(rc, below.s, below.node, firstBit + i, w);
      ClimbSound(rc, s, node, firstBit, m - 1, index, w);
      var sibs := ReadAll(w, below.siblings);
      var last := Val(w, level.siblings[0]);
      assert ReadAll(w, below.siblings + level.siblings) == sibs + [last];
      ClimbSnoc(h, Val(w, node), sibs, last, index);
    }
  }

  lemma PathSound(cfg: Config, p: Public, q: Replayed, s: Shape, index: F, w: seq<F>)
    requires Sat(PathShape(cfg, p, q, s).s, w) && cfg.Indexable()
    requires Val(w, q.j) == (index + 1) % P
    ensures Sat(s, w)
    ensures |PathShape(cfg, p, q, s).siblings| == cfg.pathLen
    ensures var h := Hasher(cfg.rc);
      Climb(h, h(Val(w, q.r), Val(w, q.sj)), ReadAll(w, PathShape(cfg, p, q, s).siblings), index) == Val(w, p.root)
  {
    hide Holds, Hash2Shape, ClimbShape, Climb, Hash2, Sat;
    var leaf := Hash2Shape(cfg.rc, s, q.r, q.sj);
    var idx := Alloc(leaf.s);
    var next := R1(AddLc(idx.v, 1), One(), Of(q.j));
    var s1 := Enforce(idx.s, next);
    var bits := Decompose(s1, idx.v);
    var top := ClimbShape(cfg.rc, bits.s, leaf.v, bits.v, cfg.pathLen);
    var atRoot := R1(Of(top.node), One(), Of(p.root));
    EnforceSound(top.s, atRoot, w);
    SatOne(top.s, w);
    BoundMeaning(top.node, Of(p.root), w);
    OfEval(p.root, w);
    ClimbSound0(cfg.rc, s1, idx.v, leaf.v, cfg.pathLen, w);
    EnforceSound(idx.s, next, w);
    LinearMeaning(AddLc(idx.v, 1), q.j, w);
    AddEval(idx.v, 1, w);
    SuccessorFixes(Val(w, idx.v), index);
    AllocSound(leaf.s, w);
    Hash2Sound(cfg.rc, s, q.r, q.sj, w);
  }

  /** The climb over a decomposition, whose bits are read off the decomposed variable. */
  lemma ClimbSound0(rc: RoundTable, s: Shape, x: Var, node: Var, m: nat, w: seq<F>)
    requires m <= FIELD_BITS
    requires var bits := Decompose(s, x); Sat(ClimbShape(rc, bits.s, node, bits.v, m).s, w)
    ensures Sat(s, w)
    ensures var bits := Decompose(s, x);
      var top := ClimbShape(rc, bits.s, node, bits.v, m);
      && |top.siblings| == m
      && Val(w, top.node) == Climb(Hasher(rc), Val(w, node), ReadAll(w, top.siblings), Val(w, x))
  {
    hide Holds, Climb, Hash2;
    var bits := Decompose(s, x);
    ClimbPrefix(rc, bits.s, node, bits.v, m, w);
    DecomposeSound(s, x, w);
    ClimbSound(rc, bits.s, node, bits.v, m, Val(w, x), w);
  }

  /** The constraints before a climb are still there after it. */
  lemma {:induction false} ClimbPrefix(rc: RoundTable, s: Shape, node: Var, firstBit: Var, m: nat, w: seq<F>)
    requires Sat(ClimbShape(rc, s, node, firstBit, m).s, w)
    ensures Sat(s, w)
  {
    hide Holds, Hash2Shape, SwapShape, Sat;
    if m == 0 {
    } else {
      var below := ClimbShape(rc, s, node, firstBit, m - 1);
      var bit := firstBit + (m - 1);
      var sibling := Alloc(below.s);
      var isRight := Alloc(sibling.s);
      var boolean := R1(Of(isRight.v), Plus(One(), -1, isRight.v), Zero);
      var s1 := Enforce(isRight.s, boolean);
      var same := R1(Of(isRight.v), One(), Of(bit));
      Hash2SoundPair(rc, Enforce(s1, same), below.node, sibling.v, isRight.v, w);
      EnforceSound(s1, same, w);
      EnforceSound(isRight.s, boolean, w);
      AllocSound(sibling.s, w);
      AllocSound(below.s, w);
      ClimbPrefix(rc, s, node, firstBit, m - 1, w);
    }
  }

  lemma SuccessorFixes(a: F, b: F)
    requires (a + 1) % P == (b + 1) % P
    ensures a == b
  {
  }

  lemma AccumulateSound(cfg: Config, q: Replayed, s: Shape, w: seq<F>)
    requires Sat(AccumulateShape(cfg, q, s).s, w)
    ensures Sat(s, w)
    ensures var h := Hasher(cfg.rc);
      Val(w, AccumulateShape(cfg, q, s).v)
      == h(Val(w, Z_ACC), Hash4(h, Val(w, q.j), Val(w, q.sj), Val(w, q.r), 0))
  {
    hide Holds, Hash4Shape, Hash2Shape, Hash2, Hash4, Sat;
    var pad := ZeroWire(s);
    var inner := Hash4Shape(cfg.rc, pad.s, q.j, q.sj, q.r, pad.v);
    Hash2Sound(cfg.rc, inner.s, Z_ACC, inner.v, w);
    Hash4Sound(cfg.rc, pad.s, q.j, q.sj, q.r, pad.v, w);
    ZeroWireSound(s, w);
  }

  // --- soundness of the step ----------------------------------------------------

  /**
   Every assignment that satisfies the circuit opens the challenged chunk: the challenge index is
   the one derived from the public state, the replica is rebuilt from the limbs, the state follows,
   the leaf at that index hashes up to the public root, and the next state is the native one.
   */
  lemma StepSound(cfg: Config, w: seq<F>)
    requires cfg.Indexable() && Sat(StepShape(cfg).s, w)
    ensures Opens(cfg, ZIn(w), OpeningOf(cfg, w))
    ensures ZOut(cfg, w) == NextZ(Hasher(cfg.rc), cfg.chunkSize, ZIn(w), OpeningOf(cfg, w))
  {
    hide Holds, PublicShape, ReplicaShape, ChallengeShape, PathShape, AccumulateShape, Hash2, Hash4, HashFold, Climb, Sat, Pow2, Seed;
    var h, z := Hasher(cfg.rc), ZIn(w);
    var p := PublicShape();
    var q := ReplicaShape(cfg, p);
    var s1 := ChallengeShape(cfg, p, q.s, q.j);
    var top := PathShape(cfg, p, q, s1);
    AccumulateSound(cfg, q, top.s, w);
    PathPrefix(cfg, p, q, s1, w);
    ChallengePrefix(cfg, p, q.s, q.j, w);
    ReplicaSound(cfg, p, w);
    PublicSound(w);
    ChallengeSound(cfg, p, q.s, q.j, w);
    ModAtMost(Seed(h, z), Pow2(cfg.height));
    PathSound(cfg, p, q, s1, LeafIndex(h, z, cfg.height), w);
  }

  lemma PathPrefix(cfg: Config, p: Public, q: Replayed, s: Shape, w: seq<F>)
    requires Sat(PathShape(cfg, p, q, s).s, w)
    ensures Sat(s, w)
  {
    hide Holds, Hash2Shape, ClimbShape, Sat;
    var leaf := Hash2Shape(cfg.rc, s, q.r, q.sj);
    var idx := Alloc(leaf.s);
    var next := R1(AddLc(idx.v, 1), One(), Of(q.j));
    var s1 := Enforce(idx.s, next);
    var bits := Decompose(s1, idx.v);
    var top := ClimbShape(cfg.rc, bits.s, leaf.v, bits.v, cfg.pathLen);
    EnforceSound(top.s, R1(Of(top.node), One(), Of(p.root)), w);
    ClimbPrefix(cfg.rc, bits.s, leaf.v, bits.v, cfg.pathLen, w);
    DecomposeSound(s1, idx.v, w);
    EnforceSound(idx.s, next, w);
    AllocSound(leaf.s, w);
    Hash2Sound(cfg.rc, s, q.r, q.sj, w);
  }

  lemma ChallengePrefix(cfg: Config, p: Public, s: Shape, j: Var, w: seq<F>)
    requires Sat(ChallengeShape(cfg, p, s, j), w)
    ensures Sat(s, w)
  {
    hide Holds, ChainShape, Sat;
    var no := Linear(s, AddLc(Z_COUNTER, 1));
    var inputs := [p.beacon, p.sector, p.epoch, no.v];
    var seed := ChainShape(cfg.rc, no.s, inputs);
    var bits := Decompose(seed.s, seed.v);
    var lc := BitsLc(bits.v, cfg.height);
    var r := Linear(bits.s, lc);
    EnforceSound(r.s, R1(AddLc(r.v, 1), One(), Of(j)), w);
    LinearSound(bits.s, lc, w);
    DecomposeSound(seed.s, seed.v, w);
    ChainSound(cfg.rc, no.s, inputs, w);
    LinearSound(s, AddLc(Z_COUNTER, 1), w);
  }
}
