/** Synthesis of the step circuit from one challenge's private and public values. */
module StepSynthesis {
  import opened Chunking
  import opened Field
  import opened GadgetSynthesis
  import opened Gadgets
  import opened Hashing
  import opened MerkleTree
  import opened Numbers
  import opened Poseidon2
  import opened R1cs
  import opened StepCircuit

  /** The fields a prover fills in for one challenge. */
  datatype StepInput = StepInput(
    epoch: F, sector: F, root: F, beacon: F, j: F, sPrev: F, s: F, replica: F,
    siblings: seq<F>, indices: seq<bool>, height: nat, limbs: seq<F>, chunkSize: nat)
  {
    function Config(rc: RoundTable): Config {
      StepCircuit.Config(rc, chunkSize, height, Least(|siblings|, |indices|))
    }

    function Opening(): Opening {
      StepCircuit.Opening(j, sPrev, s, limbs, siblings[..Least(|siblings|, |indices|)])
    }

    /** The public values are the ones being folded. */
    predicate Matches(z: Z) {
      epoch == z.epoch && sector == z.sector && root == z.root && beacon == z.beacon && replica == z.replica
    }
  }

  datatype Outcome = Unsatisfiable | Synthesized(outputs: seq<Var>)

  method SynthesizePublic(cs: ConstraintSystem, c: StepInput) returns (p: Public)
    requires cs.Valid() && cs.Recorded() == INPUTS
    modifies cs
    ensures cs.Valid()
    ensures p == PublicShape() && cs.Recorded() == p.s
    ensures cs.wit == old(cs.wit) + [c.epoch, (old(cs.wit)[Z_COUNTER] + 1) % P, c.sector, c.root, c.beacon, c.replica]
    ensures cs.Satisfied() <==> old(cs.Satisfied()) && c.Matches(ZIn(old(cs.wit)))
  {
    hide Holds, ConstraintSystem.Satisfied;
    ghost var w := cs.wit;
    var counter := (cs.wit[Z_COUNTER] + 1) % P;
    InputsEval(w);
    var v0 := cs.AllocChecked(c.epoch, Of(Z_EPOCH));
    assert cs.wit == w + [c.epoch];
    EvalKept(w, cs.wit);
    var v1 := cs.AllocChecked(counter, AddLc(Z_COUNTER, 1));
    assert cs.wit == w + [c.epoch, counter];
    EvalKept(w, cs.wit);
    var v2 := cs.AllocBound(c.sector, Of(Z_SECTOR));
    assert cs.wit == w + [c.epoch, counter, c.sector];
    EvalKept(w, cs.wit);
    var v3 := cs.AllocBound(c.root, Of(Z_ROOT));
    assert cs.wit == w + [c.epoch, counter, c.sector, c.root];
    EvalKept(w, cs.wit);
    var v4 := cs.AllocBound(c.beacon, Of(Z_BEACON));
    assert cs.wit == w + [c.epoch, counter, c.sector, c.root, c.beacon];
    EvalKept(w, cs.wit);
    var v5 := cs.AllocBound(c.replica, Of(Z_REPLICA));
    p := Public(cs.Recorded(), v0, v1, v2, v3, v4, v5);
  }

  ghost predicate InputsRead(w0: seq<F>, w: seq<F>)
    requires |w0| == 8
  {
    && Eval(Of(Z_EPOCH), w) % P == w0[Z_EPOCH]
    && Eval(AddLc(Z_COUNTER, 1), w) % P == (w0[Z_COUNTER] + 1) % P
    && Eval(Of(Z_SECTOR), w) % P == w0[Z_SECTOR]
    && Eval(Of(Z_ROOT), w) % P == w0[Z_ROOT]
    && Eval(Of(Z_BEACON), w) % P == w0[Z_BEACON]
    && Eval(Of(Z_REPLICA), w) % P == w0[Z_REPLICA]
  }

  lemma InputsEval(w: seq<F>)
    requires |w| == 8 && w[ONE] == 1
    ensures InputsRead(w, w)
  {
    OfEval(Z_EPOCH, w);
    AddEval(Z_COUNTER, 1, w);
    OfEval(Z_SECTOR, w);
    OfEval(Z_ROOT, w);
    OfEval(Z_BEACON, w);
    OfEval(Z_REPLICA, w);
  }

  lemma EvalKept(w0: seq<F>, w: seq<F>)
    requires |w0| == 8 && w0[ONE] == 1 && w0 <= w
    ensures InputsRead(w0, w)
  {
    OfEval(Z_EPOCH, w);
    AddEval(Z_COUNTER, 1, w);
    OfEval(Z_SECTOR, w);
    OfEval(Z_ROOT, w);
    OfEval(Z_BEACON, w);
    OfEval(Z_REPLICA, w);
  }

  lemma FoldStart(rc: RoundTable, s: Shape, acc: Var, h: HashFn, w: seq<F>)
    ensures FoldShape(rc, s, acc, 0) == Folded(s, acc, []) && ReadAll(w, []) == []
    ensures forall x: F :: HashFold(h, x, []) == x
  {
  }

  lemma FoldNext(rc: RoundTable, s: Shape, acc: Var, m: nat)
    ensures var before := FoldShape(rc, s, acc, m);
      var limb := Alloc(before.s);
      var next := Hash2Shape(rc, limb.s, before.acc, limb.v);
      FoldShape(rc, s, acc, m + 1) == Folded(next.s, next.v, before.limbs + [limb.v])
  {
  }

  lemma ConstantEval(c: F, w: seq<F>)
    requires Val(w, ONE) == 1
    ensures Eval(Plus(Zero, c, ONE), w) == c
  {
    assert Eval(Zero, w) == 0;
    assert Eval(Plus(Zero, c, ONE), w) == Eval(Zero, w) + c * Val(w, ONE);
  }

  /** Absorbs one limb. */
  method SynthesizeLimb(cs: ConstraintSystem, rc: RoundTable, d: Folded, value: F, ghost s1: Shape, ghost acc1: Var, ghost k: nat)
    returns (next: Folded)
    requires cs.Valid() && d.acc < |cs.wit| && cs.Recorded() == d.s && d == FoldShape(rc, s1, acc1, k)
    requires forall i | 0 <= i < |d.limbs| :: d.limbs[i] < |cs.wit|
    modifies cs
    ensures Grew(cs) && next.acc < |cs.wit| && cs.Recorded() == next.s && next == FoldShape(rc, s1, acc1, k + 1)
    ensures forall i | 0 <= i < |next.limbs| :: next.limbs[i] < |cs.wit|
    ensures ReadAll(cs.wit, next.limbs) == old(ReadAll(cs.wit, d.limbs)) + [value]
    ensures cs.wit[next.acc] == Hasher(rc)(old(cs.wit[d.acc]), value)
  {
    hide Holds, Hash2, Hash2Shape, FoldShape, ReadAll;
    FoldNext(rc, s1, acc1, k);
    var limb := cs.AllocVar(value);
    var acc := Hash2Gadget(cs, rc, d.acc, limb);
    ReadAllAppend(old(cs.wit), cs.wit, d.limbs, limb);
    next := Folded(cs.Recorded(), acc, d.limbs + [limb]);
  }

  /** The chunk fold: the accumulator is pinned to the chunk size, then absorbs every limb. */
  method SynthesizeChunk(cs: ConstraintSystem, cfg: Config, limbs: seq<F>) returns (d: Folded)
    requires cs.Valid() && |limbs| == NumLimbs(cfg.chunkSize)
    modifies cs
    ensures Grew(cs) && d.acc < |cs.wit|
    ensures d == ChunkShape(cfg, old(cs.Recorded())) && cs.Recorded() == d.s
    ensures (forall i | 0 <= i < |d.limbs| :: d.limbs[i] < |cs.wit|) && ReadAll(cs.wit, d.limbs) == limbs
    ensures cs.wit[d.acc] == HashFold(Hasher(cfg.rc), FromNat(cfg.chunkSize), limbs)
  {
    hide Holds, Hash2, Hash2Shape, FoldShape, ReadAll, HashFold, Eval;
    var lc := Plus(Zero, FromNat(cfg.chunkSize), ONE);
    ConstantEval(FromNat(cfg.chunkSize), cs.wit);
    var init := cs.AllocBound(FromNat(cfg.chunkSize), lc);
    ghost var s1 := cs.Recorded();
    d := Folded(cs.Recorded(), init, []);
    FoldStart(cfg.rc, s1, init, Hasher(cfg.rc), cs.wit);
    for k := 0 to |limbs|
      invariant Grew(cs) && d.acc < |cs.wit| && cs.Recorded() == d.s
      invariant d == FoldShape(cfg.rc, s1, init, k)
      invariant forall i | 0 <= i < |d.limbs| :: d.limbs[i] < |cs.wit|
      invariant ReadAll(cs.wit, d.limbs) == limbs[..k]
      invariant cs.wit[d.acc] == HashFold(Hasher(cfg.rc), FromNat(cfg.chunkSize), limbs[..k])
    {
      assert limbs[..k + 1] == limbs[..k] + [limbs[k]];
      HashFoldNext(Hasher(cfg.rc), FromNat(cfg.chunkSize), limbs[..k], limbs[k]);
      d := SynthesizeLimb(cs, cfg.rc, d, limbs[k], s1, init, k);
    }
    assert limbs[..|limbs|] == limbs;
  }

  method SynthesizeReplica(cs: ConstraintSystem, cfg: Config, c: StepInput, p: Public) returns (q: Replayed)
    requires cs.Valid() && cs.Recorded() == p.s && p.replica < |cs.wit| && cs.wit[p.replica] == c.replica
    requires |c.limbs| == NumLimbs(cfg.chunkSize)
    modifies cs
    ensures cs.Valid() && Extends(old(cs.wit), cs.wit)
    ensures q == ReplicaShape(cfg, p) && cs.Recorded() == q.s
    ensures q.j < |cs.wit| && q.sPrev < |cs.wit| && q.sj < |cs.wit| && q.r < |cs.wit|
    ensures forall i | 0 <= i < |q.limbs| :: q.limbs[i] < |cs.wit|
    ensures cs.wit[q.j] == c.j && cs.wit[q.sPrev] == c.sPrev && cs.wit[q.sj] == c.s
    ensures ReadAll(cs.wit, q.limbs) == c.limbs
    ensures var h := Hasher(cfg.rc);
      cs.wit[q.r] == Hash4(h, HashFold(h, FromNat(cfg.chunkSize), c.limbs), c.sPrev, c.j, c.replica)
    ensures cs.Satisfied() <==> old(cs.Satisfied()) && c.s == Hasher(cfg.rc)(c.sPrev, cs.wit[q.r])
  {
    hide Holds, ConstraintSystem.Satisfied, Hash2, Hash2Shape, Hash4Shape, ChunkShape, HashFold, Hash4;
    var j := cs.AllocVar(c.j);
    var sPrev := cs.AllocVar(c.sPrev);
    var sj := cs.AllocVar(c.s);
    var d := SynthesizeChunk(cs, cfg, c.limbs);
    var r := Hash4Gadget(cs, cfg.rc, d.acc, sPrev, j, p.replica);
    var expected := Hash2Gadget(cs, cfg.rc, sPrev, r);
    cs.EnforceEqual(expected, sj);
    q := Replayed(cs.Recorded(), j, sPrev, sj, r, d.limbs);
  }

  lemma {:induction false} BitsLcWithin(first: Var, h: nat, n: nat)
    requires first + h <= n
    ensures LcWithin(BitsLc(first, h), n)
  {
    hide Pow2;
    if h == 0 {
    } else {
      BitsLcWithin(first, h - 1, n);
    }
  }

  /** `r + 1 = j` as a constraint. */
  method EnforceSuccessor(cs: ConstraintSystem, r: Var, j: Var)
    requires cs.Valid() && r < |cs.wit| && j < |cs.wit|
    modifies cs
    ensures cs.Valid() && cs.wit == old(cs.wit)
    ensures cs.Recorded() == Enforce(old(cs.Recorded()), R1(AddLc(r, 1), One(), Of(j)))
    ensures cs.Satisfied() <==> old(cs.Satisfied()) && cs.wit[j] == (cs.wit[r] + 1) % P
  {
    hide Holds;
    LinearMeaning(AddLc(r, 1), j, cs.wit);
    AddEval(r, 1, cs.wit);
    cs.AddConstraint(R1(AddLc(r, 1), One(), Of(j)));
  }

  /** The seed as this step's values give it. */
  function SeedOf(h: HashFn, c: StepInput, counter: F): F {
    HashFold(h, 0, [c.beacon, c.sector, c.epoch, (counter + 1) % P])
  }

  /** The index this step's values call for, counted from one. */
  function ChallengeOf(h: HashFn, c: StepInput, counter: F): F { (SeedOf(h, c, counter) % Pow2(c.height) + 1) % P }

  lemma ChallengeValue(h: HashFn, c: StepInput, counter: F, seed: F)
    requires seed == SeedOf(h, c, counter)
    ensures (LowSum(seed, c.height) % P + 1) % P == ChallengeOf(h, c, counter)
  {
    hide HashFold, LowSum, Pow2;
    var r := LowSum(seed, c.height) % P;
    IndexValue(seed, c.height, r, (r + 1) % P);
  }

  lemma ChallengeIsLeaf(h: HashFn, c: StepInput, z: Z)
    requires c.Matches(z)
    ensures LeafIndex(h, z, c.height) < P && ChallengeOf(h, c, z.counter) == (LeafIndex(h, z, c.height) + 1) % P
  {
    hide HashFold, Pow2;
    assert SeedOf(h, c, z.counter) == Seed(h, z);
    ModAtMost(Seed(h, z), Pow2(c.height));
  }

  method SynthesizeChallenge(cs: ConstraintSystem, cfg: Config, c: StepInput, p: Public, j: Var)
    requires cs.Valid() && cfg.Indexable() && c.height == cfg.height && j < |cs.wit| && Z_COUNTER < |cs.wit|
    requires p.beacon < |cs.wit| && p.sector < |cs.wit| && p.epoch < |cs.wit|
    requires cs.wit[p.beacon] == c.beacon && cs.wit[p.sector] == c.sector && cs.wit[p.epoch] == c.epoch
    modifies cs
    ensures cs.Valid() && Extends(old(cs.wit), cs.wit)
    ensures cs.Recorded() == ChallengeShape(cfg, p, old(cs.Recorded()), j)
    ensures cs.Satisfied() <==>
      && old(cs.Satisfied())
      && old(cs.wit[j]) == ChallengeOf(Hasher(cfg.rc), c, old(cs.wit[Z_COUNTER]))
  {
    hide Holds, ConstraintSystem.Satisfied, Hash2, HashFold, ChainShape, Pow2, BitsLc, ReadAll, Bit, LowSum, Eval, ChallengeOf;
    AddEval(Z_COUNTER, 1, cs.wit);
    var no := cs.AllocLinear(AddLc(Z_COUNTER, 1));
    var values := [p.beacon, p.sector, p.epoch, no];
    ReadFour(cs.wit, p.beacon, p.sector, p.epoch, no);
    var seed := HashChainGadget(cs, cfg.rc, values);
    ghost var seedValue := cs.wit[seed];
    var bits := cs.AllocBits(seed);
    var lc := BitsLc(bits, cfg.height);
    BitsLcWithin(bits, cfg.height, |cs.wit|);
    BitsEval(bits, cfg.height, seedValue, cs.wit);
    var r := cs.AllocLinear(lc);
    EnforceSuccessor(cs, r, j);
    ChallengeValue(Hasher(cfg.rc), c, old(cs.wit[Z_COUNTER]), seedValue);
  }

  /** Climbing by given turns, as the swap gadget does. */
  function ClimbBy(h: HashFn, node: F, siblings: seq<F>, turns: seq<bool>): F
    requires |siblings| == |turns|
  {
    if siblings == [] then node
    else
      var n := |siblings| - 1;
      Parent(h, ClimbBy(h, node, siblings[..n], turns[..n]), siblings[n], if turns[n] then 1 else 0)
  }

  lemma {:induction false} ClimbByBits(h: HashFn, node: F, siblings: seq<F>, index: nat)
    ensures ClimbBy(h, node, siblings, IndexBits(index, |siblings|)) == Climb(h, node, siblings, index)
    decreases |siblings|
  {
    hide Parent, Pow2, Bit;
    if siblings == [] {
    } else {
      var n: nat := |siblings| - 1;
      assert IndexBits(index, n + 1)[..n] == IndexBits(index, n);
      assert siblings == siblings[..n] + [siblings[n]];
      ClimbByBits(h, node, siblings[..n], index);
      ClimbSnoc(h, node, siblings[..n], siblings[n], index);
      assert Bit(index, n) < 2;
    }
  }

  /** One level of the path. */
  method SynthesizeLevel(cs: ConstraintSystem, rc: RoundTable, node: Var, bit: Var, siblingValue: F, right: bool)
    returns (up: Climbed)
    requires cs.Valid() && node < |cs.wit| && bit < |cs.wit|
    modifies cs
    ensures cs.Valid() && Extends(old(cs.wit), cs.wit)
    ensures up == LevelShape(rc, old(cs.Recorded()), node, bit) && cs.Recorded() == up.s
    ensures up.node < |cs.wit| && |up.siblings| == 1 && up.siblings[0] < |cs.wit|
    ensures cs.wit[up.siblings[0]] == siblingValue
    ensures cs.wit[up.node] == Parent(Hasher(rc), old(cs.wit[node]), siblingValue, if right then 1 else 0)
    ensures cs.Satisfied() <==> old(cs.Satisfied()) && old(cs.wit[bit]) == if right then 1 else 0
  {
    hide Holds, ConstraintSystem.Satisfied, Hash2, Hash2Shape, SwapShape;
    var sibling := cs.AllocVar(siblingValue);
    var isRight := cs.AllocVar(if right then 1 else 0);
    BooleanHolds(isRight, cs.wit);
    cs.AddConstraint(R1(Of(isRight), Plus(One(), -1, isRight), Zero));
    cs.EnforceEqual(isRight, bit);
    var left, rightVar := ConditionalSwapGadget(cs, node, sibling, isRight);
    var next := Hash2Gadget(cs, rc, left, rightVar);
    up := Climbed(cs.Recorded(), next, [sibling]);
  }

  /** x * (1 - x) = 0 holds of zero and of one. */
  lemma BooleanHolds(x: Var, w: seq<F>)
    requires Val(w, ONE) == 1 && Val(w, x) < 2
    ensures Holds(R1(Of(x), Plus(One(), -1, x), Zero), w)
  {
    OfEval(x, w);
    assert Eval(Plus(One(), -1, x), w) == 1 - Val(w, x);
    assert Eval(Zero, w) == 0;
  }

  method SynthesizeClimb(cs: ConstraintSystem, rc: RoundTable, node: Var, firstBit: Var,
                         siblings: seq<F>, indices: seq<bool>, index: F)
    returns (top: Climbed)
    requires cs.Valid() && node < |cs.wit| && firstBit + FIELD_BITS <= |cs.wit|
    requires |siblings| == |indices| <= FIELD_BITS
    requires forall i: nat | i < FIELD_BITS :: Val(cs.wit, firstBit + i) == Bit(index, i)
    modifies cs
    ensures cs.Valid() && Extends(old(cs.wit), cs.wit)
    ensures top == ClimbShape(rc, old(cs.Recorded()), node, firstBit, |siblings|) && cs.Recorded() == top.s
    ensures top.node < |cs.wit| && forall i | 0 <= i < |top.siblings| :: top.siblings[i] < |cs.wit|
    ensures ReadAll(cs.wit, top.siblings) == siblings
    ensures cs.wit[top.node] == ClimbBy(Hasher(rc), old(cs.wit[node]), siblings, indices)
    ensures cs.Satisfied() <==> old(cs.Satisfied()) && indices == IndexBits(index, |indices|)
  {
    hide Holds, Hash2, LevelShape, Parent, Bit, ReadAll, ClimbShape, ClimbBy, IndexBits;
    ClimbStart(rc, cs.Recorded(), node, firstBit, Hasher(rc), cs.wit, index);
    top := Climbed(cs.Recorded(), node, []);
    ghost var s0 := cs.Recorded();
    for i := 0 to |siblings|
      invariant cs.Valid() && Extends(old(cs.wit), cs.wit) && top.node < |cs.wit|
      invariant cs.Recorded() == top.s && top == ClimbShape(rc, s0, node, firstBit, i)
      invariant forall k | 0 <= k < |top.siblings| :: top.siblings[k] < |cs.wit|
      invariant ReadAll(cs.wit, top.siblings) == siblings[..i]
      invariant cs.wit[top.node] == ClimbBy(Hasher(rc), old(cs.wit[node]), siblings[..i], indices[..i])
      invariant cs.Satisfied() <==> old(cs.Satisfied()) && indices[..i] == IndexBits(index, i)
    {
      ghost var w := cs.wit;
      BitKept(old(cs.wit), w, firstBit, i, index);
      var up := SynthesizeLevel(cs, rc, top.node, firstBit + i, siblings[i], indices[i]);
      ClimbByNext(Hasher(rc), old(cs.wit[node]), siblings, indices, i);
      TurnsNext(indices, index, i);
      ClimbNext(rc, s0, node, firstBit, i);
      assert up.siblings == [up.siblings[0]] && siblings[..i + 1] == siblings[..i] + [siblings[i]];
      ReadAllAppend(w, cs.wit, top.siblings, up.siblings[0]);
      top := Climbed(cs.Recorded(), up.node, top.siblings + up.siblings);
    }
    assert siblings[..|siblings|] == siblings && indices[..|siblings|] == indices;
  }

  lemma BitKept(w0: seq<F>, w: seq<F>, firstBit: Var, i: nat, index: F)
    requires Extends(w0, w) && firstBit + FIELD_BITS <= |w0| && i < FIELD_BITS
    requires forall k: nat | k < FIELD_BITS :: Val(w0, firstBit + k) == Bit(index, k)
    ensures firstBit + i < |w| && w[firstBit + i] == Bit(index, i)
  {
    assert Val(w0, firstBit + i) == Bit(index, i);
  }

  lemma ClimbStart(rc: RoundTable, s: Shape, node: Var, firstBit: Var, h: HashFn, w: seq<F>, index: nat)
    ensures ClimbShape(rc, s, node, firstBit, 0) == Climbed(s, node, [])
    ensures ReadAll(w, []) == [] && IndexBits(index, 0) == []
    ensures forall x: F :: ClimbBy(h, x, [], []) == x
  {
  }

  lemma ClimbNext(rc: RoundTable, s: Shape, node: Var, firstBit: Var, m: nat)
    ensures var below := ClimbShape(rc, s, node, firstBit, m);
      var level := LevelShape(rc, below.s, below.node, firstBit + m);
      ClimbShape(rc, s, node, firstBit, m + 1) == Climbed(level.s, level.node, below.siblings + level.siblings)
  {
  }

  lemma ClimbByNext(h: HashFn, node: F, siblings: seq<F>, turns: seq<bool>, i: nat)
    requires |siblings| == |turns| && i < |siblings|
    ensures ClimbBy(h, node, siblings[..i + 1], turns[..i + 1])
         == Parent(h, ClimbBy(h, node, siblings[..i], turns[..i]), siblings[i], if turns[i] then 1 else 0)
  {
    assert siblings[..i + 1][..i] == siblings[..i] && turns[..i + 1][..i] == turns[..i];
  }

  lemma TurnsNext(turns: seq<bool>, index: nat, i: nat)
    requires i < |turns|
    ensures turns[..i + 1] == IndexBits(index, i + 1)
       <==> turns[..i] == IndexBits(index, i) && Bit(index, i) == if turns[i] then 1 else 0
  {
    hide Pow2;
    var bits := IndexBits(index, i + 1);
    assert bits[..i] == IndexBits(index, i) && bits[i] == (Bit(index, i) == 1);
    assert turns[..i + 1] == turns[..i] + [turns[i]] && bits == bits[..i] + [bits[i]];
  }

  method SynthesizePath(cs: ConstraintSystem, cfg: Config, p: Public, q: Replayed, siblings: seq<F>, indices: seq<bool>)
    returns (top: Climbed)
    requires cs.Valid() && cfg.Indexable() && |siblings| == |indices| == cfg.pathLen
    requires p.root < |cs.wit| && q.r < |cs.wit| && q.sj < |cs.wit| && q.j < |cs.wit|
    modifies cs
    ensures cs.Valid() && Extends(old(cs.wit), cs.wit)
    ensures top == PathShape(cfg, p, q, old(cs.Recorded())) && cs.Recorded() == top.s
    ensures forall i | 0 <= i < |top.siblings| :: top.siblings[i] < |cs.wit|
    ensures ReadAll(cs.wit, top.siblings) == siblings
    ensures var h, index := Hasher(cfg.rc), (old(cs.wit[q.j]) - 1) % P;
      cs.Satisfied() <==>
        && old(cs.Satisfied())
        && indices == IndexBits(index, cfg.pathLen)
        && Climb(h, h(old(cs.wit[q.r]), old(cs.wit[q.sj])), siblings, index) == old(cs.wit[p.root])
  {
    hide Holds, ConstraintSystem.Satisfied, Hash2, Hash2Shape, ClimbShape, Climb, ClimbBy, IndexBits, Bit;
    var leaf := Hash2Gadget(cs, cfg.rc, q.r, q.sj);
    var index := (cs.wit[q.j] - 1) % P;
    var idx := cs.AllocVar(index);
    Predecessor(cs.wit[q.j]);
    EnforceSuccessor(cs, idx, q.j);
    assert cs.wit[idx] == index;
    var bits := cs.AllocBits(idx);
    assert forall i: nat | i < FIELD_BITS :: Val(cs.wit, bits + i) == Bit(index, i);
    var climbed := SynthesizeClimb(cs, cfg.rc, leaf, bits, siblings, indices, index);
    ClimbByBits(Hasher(cfg.rc), Hasher(cfg.rc)(old(cs.wit[q.r]), old(cs.wit[q.sj])), siblings, index);
    cs.EnforceEqual(climbed.node, p.root);
    top := Climbed(cs.Recorded(), climbed.node, climbed.siblings);
  }

  lemma Predecessor(j: F)
    ensures ((j - 1) % P + 1) % P == j
  {
  }

  method SynthesizeAccumulate(cs: ConstraintSystem, cfg: Config, q: Replayed) returns (acc: Var)
    requires cs.Valid() && Z_ACC < |cs.wit|
    requires q.j < |cs.wit| && q.sj < |cs.wit| && q.r < |cs.wit|
    modifies cs
    ensures Grew(cs) && acc < |cs.wit|
    ensures Wire(cs.Recorded(), acc) == AccumulateShape(cfg, q, old(cs.Recorded()))
  {
    hide Holds, Hash2, Hash2Shape, Hash4Shape, Hash4;
    var pad := cs.AllocZero();
    var inner := Hash4Gadget(cs, cfg.rc, q.j, q.sj, q.r, pad);
    acc := Hash2Gadget(cs, cfg.rc, Z_ACC, inner);
  }

  lemma PublicVars()
    ensures var p := PublicShape();
      p.epoch == 8 && p.counter == 9 && p.sector == 10 && p.root == 11 && p.beacon == 12 && p.replica == 13
  {
  }

  /** The values of one step are honest: public values as folded, turns as the index says, a true opening. */
  ghost predicate Honest(rc: RoundTable, c: StepInput, z: Z) {
    var cfg := c.Config(rc);
    && c.Matches(z)
    && c.indices[..cfg.pathLen] == IndexBits(LeafIndex(Hasher(rc), z, c.height), cfg.pathLen)
    && Opens(cfg, z, c.Opening())
  }

  /** What the sections check, together, is honesty. */
  lemma {:induction false} SectionsMeanHonest(rc: RoundTable, c: StepInput, z: Z, r: F)
    requires c.Config(rc).Indexable() && |c.limbs| == NumLimbs(c.chunkSize)
    requires c.Matches(z) && r == ReplicaOf(Hasher(rc), c.chunkSize, z, c.Opening())
    ensures var h, n := Hasher(rc), Least(|c.siblings|, |c.indices|);
      Honest(rc, c, z) <==>
        && c.s == h(c.sPrev, r)
        && c.j == ChallengeOf(h, c, z.counter)
        && c.indices[..n] == IndexBits((c.j - 1) % P, n)
        && Climb(h, h(r, c.s), c.siblings[..n], (c.j - 1) % P) == c.root
  {
    hide Hash2, HashFold, Climb, IndexBits, Hash4, Pow2, LeafIndex, ChallengeOf;
    var h := Hasher(rc);
    ChallengeIsLeaf(h, c, z);
    IndexRecovered(LeafIndex(h, z, c.height));
  }

  lemma IndexRecovered(index: F)
    ensures ((index + 1) % P - 1) % P == index
  {
  }

  /**
   Synthesis records the one shape its configuration fixes, whatever the values; and the values it
   assigns satisfy the constraints exactly when they are honest.
   */
  method Synthesize(cs: ConstraintSystem, rc: RoundTable, c: StepInput) returns (out: Outcome)
    requires cs.Valid() && cs.Recorded() == INPUTS && cs.Satisfied()
    requires c.Config(rc).Indexable()
    modifies cs
    ensures cs.Valid()
    ensures out.Unsatisfiable? <==> |c.limbs| != NumLimbs(c.chunkSize)
    ensures out.Synthesized? ==>
      var cfg, z := c.Config(rc), ZIn(old(cs.wit));
      && |out.outputs| == 7
      && ZRead(cs.wit, out.outputs) == ZOut(cfg, cs.wit)
      && cs.Recorded() == StepShape(cfg).s
      && ZIn(cs.wit) == z
      && OpeningOf(cfg, cs.wit) == c.Opening()
      && (cs.Satisfied() <==> Honest(rc, c, z))
  {
    hide Holds, ConstraintSystem.Satisfied, Hash2, HashFold, Climb, IndexBits, Hash4, Pow2, ReplicaShape, ChallengeShape, PathShape, AccumulateShape, Seed, ReadAll, ChallengeOf;
    var cfg := c.Config(rc);
    ghost var z := ZIn(cs.wit);
    var p := SynthesizePublic(cs, c);
    PublicVars();
    if |c.limbs| != NumLimbs(c.chunkSize) {
      return Unsatisfiable;
    }
    var n := Least(|c.siblings|, |c.indices|);
    var siblings, turns := c.siblings[..n], c.indices[..n];
    var q := SynthesizeReplica(cs, cfg, c, p);
    ghost var r := cs.wit[q.r];
    SynthesizeChallenge(cs, cfg, c, p, q.j);
    var top := SynthesizePath(cs, cfg, p, q, siblings, turns);
    ghost var w := cs.wit;
    var acc := SynthesizeAccumulate(cs, cfg, q);
    out := Synthesized([p.epoch, p.counter, p.sector, p.root, p.beacon, p.replica, acc]);
    ReadAllKept(w, cs.wit, top.siblings);
    if c.Matches(z) {
      SectionsMeanHonest(rc, c, z, r);
    }
  }

  function ZRead(w: seq<F>, outputs: seq<Var>): Z
    requires |outputs| == 7
  {
    Z(Val(w, outputs[0]), Val(w, outputs[1]), Val(w, outputs[2]), Val(w, outputs[3]),
      Val(w, outputs[4]), Val(w, outputs[5]), Val(w, outputs[6]))
  }
}
