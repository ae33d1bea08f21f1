/**
 The Poseidon2 gadgets.  For each one there is the shape it adds to a constraint system, a
 soundness lemma (every satisfying assignment gives the native result), and the method that
 synthesizes it, which computes the honest values and keeps a satisfied system satisfied.
 */
module Gadgets {
  import opened Field
  import opened Hashing
  import opened Poseidon2
  import opened R1cs

  datatype Lanes = Lanes(a: Var, b: Var, c: Var)
  datatype Bus = Bus(s: Shape, l: Lanes)

  function Read(w: seq<F>, l: Lanes): State { State(Val(w, l.a), Val(w, l.b), Val(w, l.c)) }

  // --- shapes -----------------------------------------------------------------

  function Pow5Shape(s: Shape, x: Var): Wire {
    var x2 := Product(s, x, x);
    var x4 := Product(x2.s, x2.v, x2.v);
    Product(x4.s, x4.v, x)
  }

  function DotLc(r: Row, l: Lanes): Lc {
    Plus(Plus(Plus(Zero, r.a, l.a), r.b, l.b), r.c, l.c)
  }

  function AddLc(v: Var, c: F): Lc { Plus(Of(v), c, ONE) }

  function MixShape(m: Matrix, s: Shape, l: Lanes): Bus {
    var a := Linear(s, DotLc(m.r0, l));
    var b := Linear(a.s, DotLc(m.r1, l));
    var c := Linear(b.s, DotLc(m.r2, l));
    Bus(c.s, Lanes(a.v, b.v, c.v))
  }

  function AddRowShape(r: Row, s: Shape, l: Lanes): Bus {
    var a := Linear(s, AddLc(l.a, r.a));
    var b := Linear(a.s, AddLc(l.b, r.b));
    var c := Linear(b.s, AddLc(l.c, r.c));
    Bus(c.s, Lanes(a.v, b.v, c.v))
  }

  function SboxShape(partial: bool, s: Shape, l: Lanes): Bus {
    var a := Pow5Shape(s, l.a);
    if partial then Bus(a.s, Lanes(a.v, l.b, l.c))
    else
      var b := Pow5Shape(a.s, l.b);
      var c := Pow5Shape(b.s, l.c);
      Bus(c.s, Lanes(a.v, b.v, c.v))
  }

  function RoundShape(rc: RoundTable, i: nat, s: Shape, l: Lanes): Bus
    requires i < |rc|
  {
    var added := AddRowShape(rc[i], s, l);
    var boxed := SboxShape(IsPartial(i), added.s, added.l);
    MixShape(if IsPartial(i) then MAT_PARTIAL else MAT_FULL, boxed.s, boxed.l)
  }

  function RoundsShape(rc: RoundTable, n: nat, s: Shape, l: Lanes): Bus
    requires n <= |rc|
  {
    if n == 0 then Bus(s, l)
    else
      var before := RoundsShape(rc, n - 1, s, l);
      RoundShape(rc, n - 1, before.s, before.l)
  }

  function PermutationShape(rc: RoundTable, s: Shape, l: Lanes): Bus {
    var mixed := MixShape(MAT_FULL, s, l);
    RoundsShape(rc, |rc|, mixed.s, mixed.l)
  }

  function Hash2Shape(rc: RoundTable, s: Shape, left: Var, right: Var): Wire {
    var zero := ZeroWire(s);
    var out := PermutationShape(rc, zero.s, Lanes(left, right, zero.v));
    Wire(out.s, out.l.a)
  }

  function Hash4Shape(rc: RoundTable, s: Shape, a: Var, b: Var, c: Var, d: Var): Wire {
    var left := Hash2Shape(rc, s, a, b);
    var right := Hash2Shape(rc, left.s, c, d);
    Hash2Shape(rc, right.s, left.v, right.v)
  }

  function ChainFromShape(rc: RoundTable, s: Shape, acc: Var, values: seq<Var>): Wire {
    if values == [] then Wire(s, acc)
    else
      var last := |values| - 1;
      var before := ChainFromShape(rc, s, acc, values[..last]);
      Hash2Shape(rc, before.s, before.v, values[last])
  }

  function ChainShape(rc: RoundTable, s: Shape, values: seq<Var>): Wire {
    var zero := ZeroWire(s);
    ChainFromShape(rc, zero.s, zero.v, values)
  }

  // --- soundness --------------------------------------------------------------

  lemma Pow5Sound(s: Shape, x: Var, w: seq<F>)
    requires Sat(Pow5Shape(s, x).s, w)
    ensures Sat(s, w) && Val(w, Pow5Shape(s, x).v) == Pow5(Val(w, x))
  {
    var x2 := Product(s, x, x);
    var x4 := Product(x2.s, x2.v, x2.v);
    ProductSound(x4.s, x4.v, x, w);
    ProductSound(x2.s, x2.v, x2.v, w);
    ProductSound(s, x, x, w);
  }

  lemma DotEval(r: Row, l: Lanes, w: seq<F>)
    ensures Eval(DotLc(r, l), w) % P == Dot(r, Read(w, l))
  {
    var one := Plus(Zero, r.a, l.a);
    var two := Plus(one, r.b, l.b);
    assert Eval(one, w) == r.a * Val(w, l.a);
    assert Eval(two, w) == Eval(one, w) + r.b * Val(w, l.b);
  }

  lemma AddEval(v: Var, c: F, w: seq<F>)
    requires Val(w, ONE) == 1
    ensures Eval(AddLc(v, c), w) == Val(w, v) + c
  {
    assert Eval(Of(v), w) == Val(w, v);
  }

  lemma MixSound(m: Matrix, s: Shape, l: Lanes, w: seq<F>)
    requires Sat(MixShape(m, s, l).s, w)
    ensures Sat(s, w) && Read(w, MixShape(m, s, l).l) == Mix(m, Read(w, l))
  {
    var a := Linear(s, DotLc(m.r0, l));
    var b := Linear(a.s, DotLc(m.r1, l));
    LinearSound(b.s, DotLc(m.r2, l), w);
    LinearSound(a.s, DotLc(m.r1, l), w);
    LinearSound(s, DotLc(m.r0, l), w);
    DotEval(m.r0, l, w);
    DotEval(m.r1, l, w);
    DotEval(m.r2, l, w);
  }

  lemma AddRowSound(r: Row, s: Shape, l: Lanes, w: seq<F>)
    requires Sat(AddRowShape(r, s, l).s, w)
    ensures Sat(s, w) && Read(w, AddRowShape(r, s, l).l) == AddRow(r, Read(w, l))
  {
    var a := Linear(s, AddLc(l.a, r.a));
    var b := Linear(a.s, AddLc(l.b, r.b));
    LinearSound(b.s, AddLc(l.c, r.c), w);
    LinearSound(a.s, AddLc(l.b, r.b), w);
    LinearSound(s, AddLc(l.a, r.a), w);
    AddEval(l.a, r.a, w);
    AddEval(l.b, r.b, w);
    AddEval(l.c, r.c, w);
  }

  lemma SboxSound(partial: bool, s: Shape, l: Lanes, w: seq<F>)
    requires Sat(SboxShape(partial, s, l).s, w)
    ensures Sat(s, w) && Read(w, SboxShape(partial, s, l).l) == Sbox(partial, Read(w, l))
  {
    var a := Pow5Shape(s, l.a);
    if !partial {
      var b := Pow5Shape(a.s, l.b);
      Pow5Sound(b.s, l.c, w);
      Pow5Sound(a.s, l.b, w);
    }
    Pow5Sound(s, l.a, w);
  }

  lemma RoundSound(rc: RoundTable, i: nat, s: Shape, l: Lanes, w: seq<F>)
    requires i < |rc| && Sat(RoundShape(rc, i, s, l).s, w)
    ensures Sat(s, w) && Read(w, RoundShape(rc, i, s, l).l) == Round(rc, i, Read(w, l))
  {
    var added := AddRowShape(rc[i], s, l);
    var boxed := SboxShape(IsPartial(i), added.s, added.l);
    MixSound(if IsPartial(i) then MAT_PARTIAL else MAT_FULL, boxed.s, boxed.l, w);
    SboxSound(IsPartial(i), added.s, added.l, w);
    AddRowSound(rc[i], s, l, w);
  }

  lemma NextRoundShape(rc: RoundTable, n: nat, s: Shape, l: Lanes)
    requires n < |rc|
    ensures var before := RoundsShape(rc, n, s, l);
      RoundsShape(rc, n + 1, s, l) == RoundShape(rc, n, before.s, before.l)
  {
  }

  lemma {:induction false} RoundsSound(rc: RoundTable, n: nat, s: Shape, l: Lanes, w: seq<F>)
    requires n <= |rc| && Sat(RoundsShape(rc, n, s, l).s, w)
    ensures Sat(s, w) && Read(w, RoundsShape(rc, n, s, l).l) == Rounds(rc, n, Read(w, l))
  {
    hide Round, RoundShape, Read;
    if n == 0 {
    } else {
      var before := RoundsShape(rc, n - 1, s, l);
      NextRoundShape(rc, n - 1, s, l);
      NextRound(rc, n - 1, Read(w, l));
      RoundSound(rc, n - 1, before.s, before.l, w);
      RoundsSound(rc, n - 1, s, l, w);
    }
  }

  /** Every assignment that satisfies the permutation gadget carries the native permutation. */
  lemma PermutationSound(rc: RoundTable, s: Shape, l: Lanes, w: seq<F>)
    requires Sat(PermutationShape(rc, s, l).s, w)
    ensures Sat(s, w) && Read(w, PermutationShape(rc, s, l).l) == Permutation(rc, Read(w, l))
  {
    var mixed := MixShape(MAT_FULL, s, l);
    RoundsSound(rc, |rc|, mixed.s, mixed.l, w);
    MixSound(MAT_FULL, s, l, w);
  }

  lemma Hash2Sound(rc: RoundTable, s: Shape, left: Var, right: Var, w: seq<F>)
    requires Sat(Hash2Shape(rc, s, left, right).s, w)
    ensures Sat(s, w)
    ensures Val(w, Hash2Shape(rc, s, left, right).v) == Hash2(rc, Val(w, left), Val(w, right))
  {
    var zero := ZeroWire(s);
    PermutationSound(rc, zero.s, Lanes(left, right, zero.v), w);
    ZeroWireSound(s, w);
  }

  lemma Hash4Sound(rc: RoundTable, s: Shape, a: Var, b: Var, c: Var, d: Var, w: seq<F>)
    requires Sat(Hash4Shape(rc, s, a, b, c, d).s, w)
    ensures Sat(s, w)
    ensures Val(w, Hash4Shape(rc, s, a, b, c, d).v)
         == Hash4(Hasher(rc), Val(w, a), Val(w, b), Val(w, c), Val(w, d))
  {
    var left := Hash2Shape(rc, s, a, b);
    var right := Hash2Shape(rc, left.s, c, d);
    Hash2Sound(rc, right.s, left.v, right.v, w);
    Hash2Sound(rc, left.s, c, d, w);
    Hash2Sound(rc, s, a, b, w);
  }

  function ReadAll(w: seq<F>, vars: seq<Var>): (values: seq<F>)
    ensures |values| == |vars|
    ensures forall i | 0 <= i < |vars| :: values[i] == Val(w, vars[i])
  {
    if vars == [] then [] else ReadAll(w, vars[..|vars| - 1]) + [Val(w, vars[|vars| - 1])]
  }

  lemma ReadAllAppend(w0: seq<F>, w: seq<F>, vars: seq<Var>, last: Var)
    requires Extends(w0, w) && forall i | 0 <= i < |vars| :: vars[i] < |w0|
    ensures ReadAll(w, vars + [last]) == ReadAll(w0, vars) + [Val(w, last)]
  {
    hide ReadAll;
    var all := vars + [last];
    forall i | 0 <= i < |vars| ensures ReadAll(w, all)[i] == ReadAll(w0, vars)[i] {
      assert all[i] == vars[i];
    }
  }

  lemma ReadAllKept(w0: seq<F>, w: seq<F>, vars: seq<Var>)
    requires Extends(w0, w) && forall i | 0 <= i < |vars| :: vars[i] < |w0|
    ensures ReadAll(w, vars) == ReadAll(w0, vars)
  {
    hide ReadAll;
  }

  lemma {:induction false} ChainFromSound(rc: RoundTable, s: Shape, acc: Var, values: seq<Var>, w: seq<F>)
    requires Sat(ChainFromShape(rc, s, acc, values).s, w)
    ensures Sat(s, w)
    ensures Val(w, ChainFromShape(rc, s, acc, values).v)
         == HashFold(Hasher(rc), Val(w, acc), ReadAll(w, values))
  {
    if values == [] {
    } else {
      var last := |values| - 1;
      var before := ChainFromShape(rc, s, acc, values[..last]);
      Hash2Sound(rc, before.s, before.v, values[last], w);
      ChainFromSound(rc, s, acc, values[..last], w);
      assert ReadAll(w, values)[..last] == ReadAll(w, values[..last]);
    }
  }

  lemma ChainSound(rc: RoundTable, s: Shape, values: seq<Var>, w: seq<F>)
    requires Sat(ChainShape(rc, s, values).s, w)
    ensures Sat(s, w)
    ensures Val(w, ChainShape(rc, s, values).v) == HashFold(Hasher(rc), 0, ReadAll(w, values))
  {
    var zero := ZeroWire(s);
    ChainFromSound(rc, zero.s, zero.v, values, w);
    ZeroWireSound(s, w);
  }

  // --- conditional swap -------------------------------------------------------

  datatype Swapped = Swapped(s: Shape, left: Var, right: Var)

  function Minus(a: Var, b: Var): Lc { Plus(Of(a), -1, b) }

  function SwapLeft(a: Var, b: Var, cond: Var, left: Var): Constraint {
    R1(Of(cond), Minus(b, a), Minus(left, a))
  }

  function SwapRight(a: Var, b: Var, cond: Var, right: Var): Constraint {
    R1(Of(cond), Minus(b, a), Minus(b, right))
  }

  function SwapShape(s: Shape, a: Var, b: Var, cond: Var): Swapped {
    var l := Alloc(s);
    var s1 := Enforce(l.s, SwapLeft(a, b, cond, l.v));
    var r := Alloc(s1);
    Swapped(Enforce(r.s, SwapRight(a, b, cond, r.v)), l.v, r.v)
  }

  lemma MinusEval(a: Var, b: Var, w: seq<F>)
    ensures Eval(Minus(a, b), w) == Val(w, a) - Val(w, b)
  {
    assert Eval(Of(a), w) == Val(w, a);
  }

  lemma PickLeft(c: F, a: F, b: F, l: F)
    requires c < 2
    ensures (c * (b - a) - (l - a)) % P == 0 <==> l == if c == 1 then b else a
  {
    if c == 1 {
      ClassIs(b, l);
    } else {
      ClassIs(a, l);
    }
  }

  lemma PickRight(c: F, a: F, b: F, r: F)
    requires c < 2
    ensures (c * (b - a) - (b - r)) % P == 0 <==> r == if c == 1 then a else b
  {
    if c == 1 {
      ClassIs(a, r);
    } else {
      ClassIs(b, r);
    }
  }

  /** With a boolean condition the two constraints say exactly: swap, or do not. */
  lemma {:induction false} SwapMeaning(a: Var, b: Var, cond: Var, left: Var, right: Var, w: seq<F>)
    requires Val(w, cond) < 2
    ensures Holds(SwapLeft(a, b, cond, left), w)
       <==> Val(w, left) == if Val(w, cond) == 1 then Val(w, b) else Val(w, a)
    ensures Holds(SwapRight(a, b, cond, right), w)
       <==> Val(w, right) == if Val(w, cond) == 1 then Val(w, a) else Val(w, b)
  {
    hide Val, Eval, Minus, Of;
    MinusEval(b, a, w);
    MinusEval(left, a, w);
    MinusEval(b, right, w);
    OfEval(cond, w);
    PickLeft(Val(w, cond), Val(w, a), Val(w, b), Val(w, left));
    PickRight(Val(w, cond), Val(w, a), Val(w, b), Val(w, right));
  }

  lemma SwapSound(s: Shape, a: Var, b: Var, cond: Var, w: seq<F>)
    requires Sat(SwapShape(s, a, b, cond).s, w) && Val(w, cond) < 2
    ensures Sat(s, w)
    ensures var out := SwapShape(s, a, b, cond);
      if Val(w, cond) == 1 then Val(w, out.left) == Val(w, b) && Val(w, out.right) == Val(w, a)
      else Val(w, out.left) == Val(w, a) && Val(w, out.right) == Val(w, b)
  {
    var l := Alloc(s);
    var s1 := Enforce(l.s, SwapLeft(a, b, cond, l.v));
    var r := Alloc(s1);
    EnforceSound(r.s, SwapRight(a, b, cond, r.v), w);
    AllocSound(s1, w);
    EnforceSound(l.s, SwapLeft(a, b, cond, l.v), w);
    AllocSound(s, w);
    SwapMeaning(a, b, cond, l.v, r.v, w);
  }
}
