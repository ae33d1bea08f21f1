/**
 The gadget methods: each appends its constraints to a mutable system, computes the honest values
 of its variables, and leaves satisfied exactly the systems that were satisfied before.
 */
module GadgetSynthesis {
  import opened Field
  import opened Hashing
  import opened Poseidon2
  import opened R1cs
  import opened Gadgets

  ghost predicate LanesWithin(l: Lanes, n: nat) { l.a < n && l.b < n && l.c < n }

  /** The system only gained variables, and no constraint that fails. */
  twostate predicate Grew(cs: ConstraintSystem)
    reads cs
  {
    && cs.Valid()
    && Extends(old(cs.wit), cs.wit)
    && (cs.Satisfied() <==> old(cs.Satisfied()))
  }

  method Pow5Gadget(cs: ConstraintSystem, x: Var) returns (out: Var)
    requires cs.Valid() && x < |cs.wit|
    modifies cs
    ensures Grew(cs) && out < |cs.wit|
    ensures Wire(cs.Recorded(), out) == Pow5Shape(old(cs.Recorded()), x)
    ensures cs.wit[out] == Pow5(old(cs.wit[x]))
  {
    var x2 := cs.AllocProduct(x, x);
    var x4 := cs.AllocProduct(x2, x2);
    out := cs.AllocProduct(x4, x);
  }

  lemma DotWithin(r: Row, l: Lanes, n: nat)
    requires LanesWithin(l, n)
    ensures LcWithin(DotLc(r, l), n)
  {
    assert LcWithin(Plus(Zero, r.a, l.a), n);
    assert LcWithin(Plus(Plus(Zero, r.a, l.a), r.b, l.b), n);
  }

  method ApplyMatrix(cs: ConstraintSystem, m: Matrix, l: Lanes) returns (out: Lanes)
    requires cs.Valid() && LanesWithin(l, |cs.wit|)
    modifies cs
    ensures Grew(cs) && LanesWithin(out, |cs.wit|)
    ensures Bus(cs.Recorded(), out) == MixShape(m, old(cs.Recorded()), l)
    ensures Read(cs.wit, out) == Mix(m, old(Read(cs.wit, l)))
  {
    DotWithin(m.r0, l, |cs.wit|);
    DotWithin(m.r1, l, |cs.wit|);
    DotWithin(m.r2, l, |cs.wit|);
    var a := cs.AllocLinear(DotLc(m.r0, l));
    DotEval(m.r0, l, old(cs.wit));
    ghost var w1 := cs.wit;
    assert Read(w1, l) == old(Read(cs.wit, l));
    LcWithinMono(DotLc(m.r1, l), old(|cs.wit|), |cs.wit|);
    var b := cs.AllocLinear(DotLc(m.r1, l));
    DotEval(m.r1, l, w1);
    ghost var w2 := cs.wit;
    assert Read(w2, l) == old(Read(cs.wit, l));
    LcWithinMono(DotLc(m.r2, l), old(|cs.wit|), |cs.wit|);
    var c := cs.AllocLinear(DotLc(m.r2, l));
    DotEval(m.r2, l, w2);
    out := Lanes(a, b, c);
  }

  method AddRoundConstants(cs: ConstraintSystem, r: Row, l: Lanes) returns (out: Lanes)
    requires cs.Valid() && LanesWithin(l, |cs.wit|)
    modifies cs
    ensures Grew(cs) && LanesWithin(out, |cs.wit|)
    ensures Bus(cs.Recorded(), out) == AddRowShape(r, old(cs.Recorded()), l)
    ensures Read(cs.wit, out) == AddRow(r, old(Read(cs.wit, l)))
  {
    hide Holds;
    AddEval(l.a, r.a, cs.wit);
    var a := cs.AllocLinear(AddLc(l.a, r.a));
    AddEval(l.b, r.b, cs.wit);
    var b := cs.AllocLinear(AddLc(l.b, r.b));
    AddEval(l.c, r.c, cs.wit);
    var c := cs.AllocLinear(AddLc(l.c, r.c));
    out := Lanes(a, b, c);
  }

  method FullRoundGadget(cs: ConstraintSystem, r: Row, l: Lanes) returns (out: Lanes)
    requires cs.Valid() && LanesWithin(l, |cs.wit|)
    modifies cs
    ensures Grew(cs) && LanesWithin(out, |cs.wit|)
    ensures Bus(cs.Recorded(), out)
         == var added := AddRowShape(r, old(cs.Recorded()), l);
            var boxed := SboxShape(false, added.s, added.l);
            MixShape(MAT_FULL, boxed.s, boxed.l)
    ensures Read(cs.wit, out) == Mix(MAT_FULL, Sbox(false, AddRow(r, old(Read(cs.wit, l)))))
  {
    hide Pow5, Mix, AddRow, MixShape, AddRowShape, Pow5Shape;
    var pre := AddRoundConstants(cs, r, l);
    ghost var st := Read(cs.wit, pre);
    var a := Pow5Gadget(cs, pre.a);
    var b := Pow5Gadget(cs, pre.b);
    var c := Pow5Gadget(cs, pre.c);
    assert Read(cs.wit, Lanes(a, b, c)) == Sbox(false, st);
    out := ApplyMatrix(cs, MAT_FULL, Lanes(a, b, c));
  }

  method PartialRoundGadget(cs: ConstraintSystem, r: Row, l: Lanes) returns (out: Lanes)
    requires cs.Valid() && LanesWithin(l, |cs.wit|)
    modifies cs
    ensures Grew(cs) && LanesWithin(out, |cs.wit|)
    ensures Bus(cs.Recorded(), out)
         == var added := AddRowShape(r, old(cs.Recorded()), l);
            var boxed := SboxShape(true, added.s, added.l);
            MixShape(MAT_PARTIAL, boxed.s, boxed.l)
    ensures Read(cs.wit, out) == Mix(MAT_PARTIAL, Sbox(true, AddRow(r, old(Read(cs.wit, l)))))
  {
    hide Pow5, Mix, AddRow, MixShape, AddRowShape, Pow5Shape;
    var pre := AddRoundConstants(cs, r, l);
    ghost var st := Read(cs.wit, pre);
    var a := Pow5Gadget(cs, pre.a);
    assert Read(cs.wit, Lanes(a, pre.b, pre.c)) == Sbox(true, st);
    out := ApplyMatrix(cs, MAT_PARTIAL, Lanes(a, pre.b, pre.c));
  }

  /** After `n` rounds the system, the state wires and their values are those of `n` rounds. */
  ghost predicate AtRound(rc: RoundTable, n: nat, start: Bus, input: State, now: Shape, wit: seq<F>, state: Lanes)
    requires n <= |rc|
  {
    && LanesWithin(state, |wit|)
    && Bus(now, state) == RoundsShape(rc, n, start.s, start.l)
    && Read(wit, state) == Rounds(rc, n, input)
  }

  lemma AtStart(rc: RoundTable, start: Bus, input: State, now: Shape, wit: seq<F>, state: Lanes)
    requires LanesWithin(state, |wit|) && start == Bus(now, state) && input == Read(wit, state)
    ensures AtRound(rc, 0, start, input, now, wit, state)
  {
  }

  lemma AtEnd(rc: RoundTable, s0: Shape, l: Lanes, in0: State, now: Shape, wit: seq<F>, state: Lanes)
    requires AtRound(rc, |rc|, MixShape(MAT_FULL, s0, l), Mix(MAT_FULL, in0), now, wit, state)
    ensures LanesWithin(state, |wit|)
    ensures Bus(now, state) == PermutationShape(rc, s0, l)
    ensures Read(wit, state) == Permutation(rc, in0)
  {
  }

  method FullRoundAt(cs: ConstraintSystem, rc: RoundTable, n: nat, state: Lanes,
                     ghost start: Bus, ghost input: State)
    returns (next: Lanes)
    requires n < |rc| && !IsPartial(n) && cs.Valid()
    requires AtRound(rc, n, start, input, cs.Recorded(), cs.wit, state)
    modifies cs
    ensures Grew(cs) && AtRound(rc, n + 1, start, input, cs.Recorded(), cs.wit, next)
  {
    hide Mix, AddRow, MixShape, AddRowShape, SboxShape, Sbox, Read;
    NextRound(rc, n, input);
    NextRoundShape(rc, n, start.s, start.l);
    next := FullRoundGadget(cs, rc[n], state);
  }

  method PartialRoundAt(cs: ConstraintSystem, rc: RoundTable, n: nat, state: Lanes,
                        ghost start: Bus, ghost input: State)
    returns (next: Lanes)
    requires n < |rc| && IsPartial(n) && cs.Valid()
    requires AtRound(rc, n, start, input, cs.Recorded(), cs.wit, state)
    modifies cs
    ensures Grew(cs) && AtRound(rc, n + 1, start, input, cs.Recorded(), cs.wit, next)
  {
    hide Mix, AddRow, MixShape, AddRowShape, SboxShape, Sbox, Read;
    NextRound(rc, n, input);
    NextRoundShape(rc, n, start.s, start.l);
    next := PartialRoundGadget(cs, rc[n], state);
  }

  /** One of the three round loops, started at round-constant counter `rcCounter`. */
  method RoundLoop(cs: ConstraintSystem, rc: RoundTable, rcCounter: nat, count: nat, partial: bool, state: Lanes,
                   ghost start: Bus, ghost input: State)
    returns (counter: nat, next: Lanes)
    requires rcCounter + count <= |rc| && cs.Valid()
    requires forall i: nat | rcCounter <= i < rcCounter + count :: IsPartial(i) == partial
    requires AtRound(rc, rcCounter, start, input, cs.Recorded(), cs.wit, state)
    modifies cs
    ensures counter == rcCounter + count
    ensures Grew(cs) && AtRound(rc, counter, start, input, cs.Recorded(), cs.wit, next)
  {
    hide AtRound, Holds;
    counter, next := rcCounter, state;
    for r := 0 to count
      invariant counter == rcCounter + r && Grew(cs)
      invariant AtRound(rc, counter, start, input, cs.Recorded(), cs.wit, next)
    {
      assert IsPartial(counter) == partial;
      if partial {
        next := PartialRoundAt(cs, rc, counter, next, start, input);
      } else {
        next := FullRoundAt(cs, rc, counter, next, start, input);
      }
      counter := counter + 1;
    }
  }

  /** The three round loops share one round-constant counter. */
  method PermutationGadget(cs: ConstraintSystem, rc: RoundTable, l: Lanes) returns (state: Lanes)
    requires cs.Valid() && LanesWithin(l, |cs.wit|)
    modifies cs
    ensures Grew(cs) && LanesWithin(state, |cs.wit|)
    ensures Bus(cs.Recorded(), state) == PermutationShape(rc, old(cs.Recorded()), l)
    ensures Read(cs.wit, state) == Permutation(rc, old(Read(cs.wit, l)))
  {
    hide AtRound, Mix, MixShape, Read, Permutation, PermutationShape, Holds;
    var rcCounter := 0;
    ghost var s0, in0 := cs.Recorded(), Read(cs.wit, l);
    state := ApplyMatrix(cs, MAT_FULL, l);
    ghost var start, input := Bus(cs.Recorded(), state), Read(cs.wit, state);
    AtStart(rc, start, input, cs.Recorded(), cs.wit, state);
    rcCounter, state := RoundLoop(cs, rc, rcCounter, R_F_HALF, false, state, start, input);
    rcCounter, state := RoundLoop(cs, rc, rcCounter, R_P, true, state, start, input);
    rcCounter, state := RoundLoop(cs, rc, rcCounter, R_F_HALF, false, state, start, input);
    AtEnd(rc, s0, l, in0, cs.Recorded(), cs.wit, state);
  }

  method Hash2Gadget(cs: ConstraintSystem, rc: RoundTable, left: Var, right: Var) returns (out: Var)
    requires cs.Valid() && left < |cs.wit| && right < |cs.wit|
    modifies cs
    ensures Grew(cs) && out < |cs.wit|
    ensures Wire(cs.Recorded(), out) == Hash2Shape(rc, old(cs.Recorded()), left, right)
    ensures cs.wit[out] == Hash2(rc, old(cs.wit[left]), old(cs.wit[right]))
  {
    hide Permutation, PermutationShape;
    var zero := cs.AllocZero();
    assert Read(cs.wit, Lanes(left, right, zero)) == State(old(cs.wit[left]), old(cs.wit[right]), 0);
    var state := PermutationGadget(cs, rc, Lanes(left, right, zero));
    out := state.a;
    assert Read(cs.wit, state).x0 == cs.wit[out];
  }

  method Hash4Gadget(cs: ConstraintSystem, rc: RoundTable, a: Var, b: Var, c: Var, d: Var) returns (out: Var)
    requires cs.Valid() && a < |cs.wit| && b < |cs.wit| && c < |cs.wit| && d < |cs.wit|
    modifies cs
    ensures Grew(cs) && out < |cs.wit|
    ensures Wire(cs.Recorded(), out) == Hash4Shape(rc, old(cs.Recorded()), a, b, c, d)
    ensures cs.wit[out]
         == Hash4(Hasher(rc), old(cs.wit[a]), old(cs.wit[b]), old(cs.wit[c]), old(cs.wit[d]))
  {
    hide Permutation, PermutationShape;
    var left := Hash2Gadget(cs, rc, a, b);
    var right := Hash2Gadget(cs, rc, c, d);
    out := Hash2Gadget(cs, rc, left, right);
  }

  lemma SwapValues(a: F, b: F, c: F)
    requires c < 2
    ensures (a + c * (b - a)) % P == if c == 1 then b else a
    ensures (b - c * (b - a)) % P == if c == 1 then a else b
  {
  }

  /** left = a + condition * (b - a), right = b - condition * (b - a). */
  method ConditionalSwapGadget(cs: ConstraintSystem, a: Var, b: Var, condition: Var) returns (left: Var, right: Var)
    requires cs.Valid() && a < |cs.wit| && b < |cs.wit| && condition < |cs.wit|
    requires cs.wit[condition] < 2
    modifies cs
    ensures Grew(cs) && left < |cs.wit| && right < |cs.wit|
    ensures Swapped(cs.Recorded(), left, right) == SwapShape(old(cs.Recorded()), a, b, condition)
    ensures cs.wit[left] == old(if cs.wit[condition] == 1 then cs.wit[b] else cs.wit[a])
    ensures cs.wit[right] == old(if cs.wit[condition] == 1 then cs.wit[a] else cs.wit[b])
  {
    var va, vb, vc := cs.wit[a], cs.wit[b], cs.wit[condition];
    SwapValues(va, vb, vc);
    var newLeft, newRight := (va + vc * (vb - va)) % P, (vb - vc * (vb - va)) % P;
    left := cs.AllocVar(newLeft);
    SwapMeaning(a, b, condition, left, left, cs.wit);
    cs.AddConstraint(SwapLeft(a, b, condition, left));
    right := cs.AllocVar(newRight);
    SwapMeaning(a, b, condition, left, right, cs.wit);
    cs.AddConstraint(SwapRight(a, b, condition, right));
  }

  method HashChainGadget(cs: ConstraintSystem, rc: RoundTable, values: seq<Var>) returns (acc: Var)
    requires cs.Valid() && forall i | 0 <= i < |values| :: values[i] < |cs.wit|
    modifies cs
    ensures Grew(cs) && acc < |cs.wit|
    ensures Wire(cs.Recorded(), acc) == ChainShape(rc, old(cs.Recorded()), values)
    ensures cs.wit[acc] == HashFold(Hasher(rc), 0, old(ReadAll(cs.wit, values)))
  {
    hide Permutation, PermutationShape, Hash2Shape, Hash2;
    acc := cs.AllocZero();
    ghost var s1, acc1 := cs.Recorded(), acc;
    ghost var inputs := ReadAll(cs.wit, values);
    assert inputs == old(ReadAll(cs.wit, values));
    for i := 0 to |values|
      invariant Grew(cs) && acc < |cs.wit|
      invariant Wire(cs.Recorded(), acc) == ChainFromShape(rc, s1, acc1, values[..i])
      invariant cs.wit[acc] == HashFold(Hasher(rc), 0, inputs[..i])
    {
      assert values[..i + 1][..i] == values[..i] && inputs[..i + 1][..i] == inputs[..i];
      acc := Hash2Gadget(cs, rc, acc, values[i]);
    }
    assert values[..|values|] == values && inputs[..|values|] == inputs;
  }
}
