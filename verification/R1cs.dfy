/**
 Rank-1 constraint systems, as the folding scheme's front end records them: numbered variables,
 linear combinations built term by term, and a growing list of constraints A * B = C.
 Variable 0 is the constant one.
 */
module R1cs {
  import opened Numbers
  import opened Field

  type Var = nat

  const ONE: Var := 0

  datatype Lc = Zero | Plus(lc: Lc, coeff: int, v: Var)

  /** `Bits` is the contract of the library's strict bit decomposition. */
  datatype Constraint =
    | R1(a: Lc, b: Lc, c: Lc)
    | Bits(x: Var, first: Var)

  function One(): Lc { Plus(Zero, 1, ONE) }

  function Of(v: Var): Lc { Plus(Zero, 1, v) }

  function Val(w: seq<F>, v: Var): F { if v < |w| then w[v] else 0 }

  function Eval(lc: Lc, w: seq<F>): int {
    match lc
    case Zero => 0
    case Plus(rest, c, v) => Eval(rest, w) + c * Val(w, v)
  }

  ghost predicate Holds(c: Constraint, w: seq<F>) {
    match c
    case R1(a, b, d) => (Eval(a, w) * Eval(b, w) - Eval(d, w)) % P == 0
    case Bits(x, first) => forall i: nat | i < FIELD_BITS :: Val(w, first + i) == Bit(Val(w, x), i)
  }

  /** What a setup fixes: how many variables there are, and the constraints. */
  datatype Shape = Shape(n: nat, cons: seq<Constraint>)

  ghost predicate Sat(s: Shape, w: seq<F>) {
    && s.n <= |w|
    && Val(w, ONE) == 1
    && forall i | 0 <= i < |s.cons| :: Holds(s.cons[i], w)
  }

  // --- one variable, one constraint -----------------------------------------

  datatype Wire = Wire(s: Shape, v: Var)

  function Alloc(s: Shape): Wire { Wire(Shape(s.n + 1, s.cons), s.n) }

  function Enforce(s: Shape, c: Constraint): Shape { Shape(s.n, s.cons + [c]) }

  /** A fresh variable constrained to the value of `lc`. */
  function Linear(s: Shape, lc: Lc): Wire {
    Wire(Enforce(Alloc(s).s, R1(lc, One(), Of(s.n))), s.n)
  }

  /** The same constraint with its two sides exchanged. */
  function Bound(s: Shape, lc: Lc): Wire {
    Wire(Enforce(Alloc(s).s, R1(Of(s.n), One(), lc)), s.n)
  }

  /** A strict bit decomposition: `FIELD_BITS` fresh bits, the first of which is returned. */
  function Decompose(s: Shape, x: Var): Wire {
    Wire(Shape(s.n + FIELD_BITS, s.cons + [Bits(x, s.n)]), s.n)
  }

  /** A fresh variable constrained to a product. */
  function Product(s: Shape, a: Var, b: Var): Wire {
    Wire(Enforce(Alloc(s).s, R1(Of(a), Of(b), Of(s.n))), s.n)
  }

  /** A fresh variable constrained to be zero. */
  function ZeroWire(s: Shape): Wire {
    Wire(Enforce(Alloc(s).s, R1(Of(s.n), One(), Zero)), s.n)
  }

  lemma AllocSound(s: Shape, w: seq<F>)
    requires Sat(Alloc(s).s, w)
    ensures Sat(s, w)
  {
  }

  lemma EnforceSound(s: Shape, c: Constraint, w: seq<F>)
    requires Sat(Enforce(s, c), w)
    ensures Sat(s, w) && Holds(c, w)
  {
    var cons := Enforce(s, c).cons;
    assert cons[|s.cons|] == c;
    forall i | 0 <= i < |s.cons| ensures Holds(s.cons[i], w) {
      assert cons[i] == s.cons[i];
    }
  }

  lemma OfEval(v: Var, w: seq<F>)
    ensures Eval(Of(v), w) == Val(w, v) && Eval(One(), w) == Val(w, ONE)
  {
    assert Eval(Zero, w) == 0;
    assert Eval(Plus(Zero, 1, v), w) == Eval(Zero, w) + 1 * Val(w, v);
    assert Eval(Plus(Zero, 1, ONE), w) == Eval(Zero, w) + 1 * Val(w, ONE);
  }

  /** A constraint `lc * 1 = v` says what `v` is. */
  lemma {:induction false} LinearMeaning(lc: Lc, v: Var, w: seq<F>)
    requires Val(w, ONE) == 1
    ensures Holds(R1(lc, One(), Of(v)), w) <==> Val(w, v) == Eval(lc, w) % P
  {
    var e := Eval(lc, w);
    OfEval(v, w);
    ClassIs(e, Val(w, v));
  }

  /** A constraint `v * 1 = lc` says the same, the other way round. */
  lemma {:induction false} BoundMeaning(v: Var, lc: Lc, w: seq<F>)
    requires Val(w, ONE) == 1
    ensures Holds(R1(Of(v), One(), lc), w) <==> Val(w, v) == Eval(lc, w) % P
  {
    var e := Eval(lc, w);
    OfEval(v, w);
    ClassIs(e, Val(w, v));
  }

  lemma ProductMeaning(a: Var, b: Var, v: Var, w: seq<F>)
    ensures Holds(R1(Of(a), Of(b), Of(v)), w) <==> Val(w, v) == Mul(Val(w, a), Val(w, b))
  {
    var e := Val(w, a) * Val(w, b);
    OfEval(a, w);
    OfEval(b, w);
    OfEval(v, w);
    ClassIs(e, Val(w, v));
  }

  lemma LinearSound(s: Shape, lc: Lc, w: seq<F>)
    requires Sat(Linear(s, lc).s, w)
    ensures Sat(s, w) && Val(w, s.n) == Eval(lc, w) % P
  {
    EnforceSound(Alloc(s).s, R1(lc, One(), Of(s.n)), w);
    AllocSound(s, w);
    LinearMeaning(lc, s.n, w);
  }

  lemma ProductSound(s: Shape, a: Var, b: Var, w: seq<F>)
    requires Sat(Product(s, a, b).s, w)
    ensures Sat(s, w) && Val(w, s.n) == Mul(Val(w, a), Val(w, b))
  {
    EnforceSound(Alloc(s).s, R1(Of(a), Of(b), Of(s.n)), w);
    AllocSound(s, w);
    ProductMeaning(a, b, s.n, w);
  }

  lemma BoundSound(s: Shape, lc: Lc, w: seq<F>)
    requires Sat(Bound(s, lc).s, w)
    ensures Sat(s, w) && Val(w, s.n) == Eval(lc, w) % P
  {
    EnforceSound(Alloc(s).s, R1(Of(s.n), One(), lc), w);
    AllocSound(s, w);
    BoundMeaning(s.n, lc, w);
  }

  lemma DecomposeSound(s: Shape, x: Var, w: seq<F>)
    requires Sat(Decompose(s, x).s, w)
    ensures Sat(s, w)
    ensures forall i: nat | i < FIELD_BITS :: Val(w, s.n + i) == Bit(Val(w, x), i)
  {
    EnforceSound(Shape(s.n + FIELD_BITS, s.cons), Bits(x, s.n), w);
  }

  lemma ZeroWireSound(s: Shape, w: seq<F>)
    requires Sat(ZeroWire(s).s, w)
    ensures Sat(s, w) && Val(w, s.n) == 0
  {
    EnforceSound(Alloc(s).s, R1(Of(s.n), One(), Zero), w);
    AllocSound(s, w);
    BoundMeaning(s.n, Zero, w);
  }

  // --- the mutable system ----------------------------------------------------

  predicate LcWithin(lc: Lc, n: nat) {
    lc.Plus? ==> lc.v < n && LcWithin(lc.lc, n)
  }

  predicate Within(c: Constraint, n: nat) {
    match c
    case R1(a, b, d) => LcWithin(a, n) && LcWithin(b, n) && LcWithin(d, n)
    case Bits(x, first) => x < n && first + FIELD_BITS <= n
  }

  /** `w` keeps every value of `w0`. */
  ghost predicate Extends(w0: seq<F>, w: seq<F>) {
    |w0| <= |w| && forall i | 0 <= i < |w0| :: w[i] == w0[i]
  }

  lemma {:induction false} EvalStable(lc: Lc, w0: seq<F>, w: seq<F>)
    requires LcWithin(lc, |w0|) && Extends(w0, w)
    ensures Eval(lc, w) == Eval(lc, w0)
  {
    if lc.Plus? {
      EvalStable(lc.lc, w0, w);
    }
  }

  /** New variables do not disturb a constraint on old ones. */
  lemma HoldsStable(c: Constraint, w0: seq<F>, w: seq<F>)
    requires Within(c, |w0|) && Extends(w0, w)
    ensures Holds(c, w) <==> Holds(c, w0)
  {
    match c
    case R1(a, b, d) =>
      EvalStable(a, w0, w);
      EvalStable(b, w0, w);
      EvalStable(d, w0, w);
    case Bits(x, first) =>
      assert Val(w, x) == Val(w0, x);
      forall i: nat | i < FIELD_BITS
        ensures Val(w, first + i) == Bit(Val(w, x), i) <==> Val(w0, first + i) == Bit(Val(w0, x), i)
      {
        assert w[first + i] == w0[first + i];
      }
  }

  lemma {:induction false} LcWithinMono(lc: Lc, n: nat, m: nat)
    requires LcWithin(lc, n) && n <= m
    ensures LcWithin(lc, m)
  {
    if lc.Plus? {
      LcWithinMono(lc.lc, n, m);
    }
  }

  lemma WithinMono(c: Constraint, n: nat, m: nat)
    requires Within(c, n) && n <= m
    ensures Within(c, m)
  {
    match c
    case R1(a, b, d) =>
      LcWithinMono(a, n, m);
      LcWithinMono(b, n, m);
      LcWithinMono(d, n, m);
    case Bits(_, _) =>
  }

  /** The constraint system a synthesis run writes to, with the values it assigns. */
  class ConstraintSystem {
    var cons: seq<Constraint>
    var wit: seq<F>

    ghost predicate Valid()
      reads this
    {
      && |wit| >= 1 && wit[0] == 1
      && forall i | 0 <= i < |cons| :: Within(cons[i], |wit|)
    }

    function Recorded(): Shape
      reads this
    {
      Shape(|wit|, cons)
    }

    ghost predicate Satisfied()
      reads this
    {
      forall i | 0 <= i < |cons| :: Holds(cons[i], wit)
    }

    constructor (inputs: seq<F>)
      ensures Valid() && Satisfied()
      ensures cons == [] && wit == [1] + inputs
    {
      cons := [];
      wit := [1] + inputs;
    }

    method AllocVar(x: F) returns (v: Var)
      requires Valid()
      modifies this
      ensures Valid() && Extends(old(wit), wit)
      ensures v == old(|wit|) && wit == old(wit) + [x]
      ensures Recorded() == Alloc(old(Recorded())).s
      ensures Satisfied() <==> old(Satisfied())
    {
      v := |wit|;
      wit := wit + [x];
      forall i | 0 <= i < |cons| ensures Within(cons[i], |wit|) && (Holds(cons[i], wit) <==> old(Holds(cons[i], wit))) {
        WithinMono(cons[i], old(|wit|), |wit|);
        HoldsStable(cons[i], old(wit), wit);
      }
    }

    method AddConstraint(c: Constraint)
      requires Valid() && Within(c, |wit|)
      modifies this
      ensures Valid() && wit == old(wit)
      ensures Recorded() == Enforce(old(Recorded()), c)
      ensures Satisfied() <==> old(Satisfied()) && Holds(c, wit)
    {
      cons := cons + [c];
      assert cons[|cons| - 1] == c;
      assert forall i | 0 <= i < old(|cons|) :: cons[i] == old(cons[i]);
    }

    /** Allocates `x` and constrains it to the value of `lc`, the fresh variable on the right. */
    method AllocChecked(x: F, lc: Lc) returns (v: Var)
      requires Valid() && LcWithin(lc, |wit|)
      modifies this
      ensures Valid() && Extends(old(wit), wit)
      ensures v == old(|wit|) && wit == old(wit) + [x]
      ensures Recorded() == Linear(old(Recorded()), lc).s
      ensures Satisfied() <==> old(Satisfied()) && x == Eval(lc, old(wit)) % P
    {
      v := AllocVar(x);
      EvalStable(lc, old(wit), wit);
      LcWithinMono(lc, old(|wit|), |wit|);
      LinearMeaning(lc, v, wit);
      AddConstraint(R1(lc, One(), Of(v)));
    }

    /** The same with the fresh variable on the left. */
    method AllocBound(x: F, lc: Lc) returns (v: Var)
      requires Valid() && LcWithin(lc, |wit|)
      modifies this
      ensures Valid() && Extends(old(wit), wit)
      ensures v == old(|wit|) && wit == old(wit) + [x]
      ensures Recorded() == Bound(old(Recorded()), lc).s
      ensures Satisfied() <==> old(Satisfied()) && x == Eval(lc, old(wit)) % P
    {
      v := AllocVar(x);
      EvalStable(lc, old(wit), wit);
      LcWithinMono(lc, old(|wit|), |wit|);
      BoundMeaning(v, lc, wit);
      AddConstraint(R1(Of(v), One(), lc));
    }

    /** Allocates the value of `lc` and constrains it. */
    method AllocLinear(lc: Lc) returns (v: Var)
      requires Valid() && LcWithin(lc, |wit|)
      modifies this
      ensures Valid() && Extends(old(wit), wit)
      ensures v == old(|wit|) && wit == old(wit) + [Eval(lc, old(wit)) % P]
      ensures Recorded() == Linear(old(Recorded()), lc).s
      ensures Satisfied() <==> old(Satisfied())
    {
      v := AllocChecked(Eval(lc, wit) % P, lc);
    }

    method EnforceEqual(a: Var, b: Var)
      requires Valid() && a < |wit| && b < |wit|
      modifies this
      ensures Valid() && wit == old(wit)
      ensures Recorded() == Enforce(old(Recorded()), R1(Of(a), One(), Of(b)))
      ensures Satisfied() <==> old(Satisfied()) && wit[a] == wit[b]
    {
      BoundMeaning(a, Of(b), wit);
      OfEval(b, wit);
      AddConstraint(R1(Of(a), One(), Of(b)));
    }

    /** `AllocatedNum::mul` and, with equal arguments, `AllocatedNum::square`. */
    method AllocProduct(a: Var, b: Var) returns (v: Var)
      requires Valid() && a < |wit| && b < |wit|
      modifies this
      ensures Valid() && Extends(old(wit), wit)
      ensures v == old(|wit|) && wit == old(wit) + [Mul(old(wit[a]), old(wit[b]))]
      ensures Recorded() == Product(old(Recorded()), a, b).s
      ensures Satisfied() <==> old(Satisfied())
    {
      v := AllocVar(Mul(wit[a], wit[b]));
      ProductMeaning(a, b, v, wit);
      AddConstraint(R1(Of(a), Of(b), Of(v)));
    }

    /** `to_bits_le_strict`: the canonical bits of `x`. */
    method AllocBits(x: Var) returns (first: Var)
      requires Valid() && x < |wit|
      modifies this
      ensures Valid() && Extends(old(wit), wit)
      ensures first == old(|wit|) && |wit| == first + FIELD_BITS
      ensures forall i: nat | i < FIELD_BITS :: Val(wit, first + i) == Bit(old(wit[x]), i)
      ensures Recorded() == Decompose(old(Recorded()), x).s
      ensures Satisfied() <==> old(Satisfied())
    {
      first := |wit|;
      for i := 0 to FIELD_BITS
        invariant Valid() && Extends(old(wit), wit)
        invariant |wit| == first + i && cons == old(cons)
        invariant forall k: nat | k < i :: Val(wit, first + k) == Bit(old(wit[x]), k)
        invariant Satisfied() <==> old(Satisfied())
      {
        var bit := AllocVar(Bit(wit[x], i));
      }
      AddConstraint(Bits(x, first));
    }

    method AllocZero() returns (v: Var)
      requires Valid()
      modifies this
      ensures Valid() && Extends(old(wit), wit)
      ensures v == old(|wit|) && wit == old(wit) + [0]
      ensures Recorded() == ZeroWire(old(Recorded())).s
      ensures Satisfied() <==> old(Satisfied())
    {
      v := AllocVar(0);
      BoundMeaning(v, Zero, wit);
      AddConstraint(R1(Of(v), One(), Zero));
    }
  }
}
