/**
 The Poseidon2 permutation over three field elements, and the two-to-one hash built from it.
 The round constants are a table of 64 rows; nothing proved here depends on their values.
 */
module Poseidon2 {
  import opened Field
  import opened Numbers

  const R_F_HALF: nat := 4
  const R_P: nat := 56
  const ROUNDS: nat := 64

  datatype Row = Row(a: F, b: F, c: F)
  datatype Matrix = Matrix(r0: Row, r1: Row, r2: Row)
  datatype State = State(x0: F, x1: F, x2: F)

  type RoundTable = t: seq<Row> | |t| == ROUNDS witness seq(ROUNDS, _ => Row(0, 0, 0))

  const MAT_FULL := Matrix(Row(2, 1, 1), Row(1, 2, 1), Row(1, 1, 2))
  const MAT_PARTIAL := Matrix(Row(2, 1, 1), Row(1, 2, 1), Row(1, 1, 3))

  function Pow5(x: F): F { Mul(Mul(Mul(x, x), Mul(x, x)), x) }

  function Dot(r: Row, s: State): F { (r.a * s.x0 + r.b * s.x1 + r.c * s.x2) % P }

  function Mix(m: Matrix, s: State): State { State(Dot(m.r0, s), Dot(m.r1, s), Dot(m.r2, s)) }

  function AddRow(r: Row, s: State): State { State((s.x0 + r.a) % P, (s.x1 + r.b) % P, (s.x2 + r.c) % P) }

  /** Rounds 4..59 apply the S-box to the first element only. */
  predicate IsPartial(i: nat) { R_F_HALF <= i < R_F_HALF + R_P }

  function Sbox(partial: bool, s: State): State {
    if partial then State(Pow5(s.x0), s.x1, s.x2) else State(Pow5(s.x0), Pow5(s.x1), Pow5(s.x2))
  }

  function Round(rc: RoundTable, i: nat, s: State): State
    requires i < |rc|
  {
    Mix(if IsPartial(i) then MAT_PARTIAL else MAT_FULL, Sbox(IsPartial(i), AddRow(rc[i], s)))
  }

  /** The first `n` rounds, one indexed sequence whatever their kind. */
  function Rounds(rc: RoundTable, n: nat, s: State): State
    requires n <= |rc|
  {
    if n == 0 then s else Round(rc, n - 1, Rounds(rc, n - 1, s))
  }

  function Permutation(rc: RoundTable, s: State): State {
    Rounds(rc, |rc|, Mix(MAT_FULL, s))
  }

  function Hash2(rc: RoundTable, left: F, right: F): F {
    Permutation(rc, State(left, right, 0)).x0
  }

  /** `hash_2` as a value, for the structures that only use it as a two-to-one hash. */
  function Hasher(rc: RoundTable): (F, F) -> F {
    (left: F, right: F) => Hash2(rc, left, right)
  }

  lemma NextRound(rc: RoundTable, n: nat, s: State)
    requires n < |rc|
    ensures Rounds(rc, n + 1, s) == Round(rc, n, Rounds(rc, n, s))
  {
  }

  method FullRound(row: Row, s: State) returns (t: State)
    ensures t == Mix(MAT_FULL, Sbox(false, AddRow(row, s)))
  {
    t := AddRow(row, s);
    t := State(Pow5(t.x0), Pow5(t.x1), Pow5(t.x2));
    t := Mix(MAT_FULL, t);
  }

  method PartialRound(row: Row, s: State) returns (t: State)
    ensures t == Mix(MAT_PARTIAL, Sbox(true, AddRow(row, s)))
  {
    t := AddRow(row, s);
    t := t.(x0 := Pow5(t.x0));
    t := Mix(MAT_PARTIAL, t);
  }

  /** The three round loops with their shared round-constant counter run the indexed sequence. */
  method Poseidon2Permutation(rc: RoundTable, input: State) returns (state: State)
    ensures state == Permutation(rc, input)
  {
    var rcCounter := 0;
    var mixed := Mix(MAT_FULL, input);
    state := mixed;
    for r := 0 to R_F_HALF
      invariant rcCounter == r
      invariant state == Rounds(rc, rcCounter, mixed)
    {
      NextRound(rc, rcCounter, mixed);
      state := FullRound(rc[rcCounter], state);
      rcCounter := rcCounter + 1;
    }
    for r := 0 to R_P
      invariant rcCounter == R_F_HALF + r
      invariant state == Rounds(rc, rcCounter, mixed)
    {
      NextRound(rc, rcCounter, mixed);
      state := PartialRound(rc[rcCounter], state);
      rcCounter := rcCounter + 1;
    }
    for r := 0 to R_F_HALF
      invariant rcCounter == R_F_HALF + R_P + r
      invariant state == Rounds(rc, rcCounter, mixed)
    {
      NextRound(rc, rcCounter, mixed);
      state := FullRound(rc[rcCounter], state);
      rcCounter := rcCounter + 1;
    }
  }

  // --- the numbers ------------------------------------------------------------------

  function Power(x: nat, e: nat): nat { if e == 0 then 1 else x * Power(x, e - 1) }

  /** The S-box is the fifth power. */
  lemma Pow5Means(x: F)
    ensures Pow5(x) == Power(x, 5) % P
  {
    MulMod(x * x, x * x);
    MulMod(x * x * (x * x), x);
    FifthPower(x);
  }

  lemma FifthPower(x: nat)
    ensures Power(x, 5) == x * x * (x * x) * x
  {
    hide Power;
    PowerNext(x, 0);
    PowerNext(x, 1);
    PowerNext(x, 2);
    PowerNext(x, 3);
    PowerNext(x, 4);
    var x2 := x * x;
    MulAssoc(x, x, x);
    MulAssoc(x, x2, x);
    MulAssoc(x, x, x2);
    MulAssoc(x2, x2, x);
    MulAssoc(x, x, x2 * x);
    assert x * x2 == x2 * x;
  }

  lemma PowerNext(x: nat, e: nat)
    ensures Power(x, 0) == 1 && Power(x, e + 1) == x * Power(x, e)
  {
  }

  /** The mixed sums: every element once more in its own, the last with a weight of its own. */
  function Sums(a: nat, b: nat, c: nat, weight: nat): State {
    State((2 * a + b + c) % P, (a + 2 * b + c) % P, (a + b + weight * c) % P)
  }

  lemma MixMeans(s: State)
    ensures Mix(MAT_FULL, s) == Sums(s.x0, s.x1, s.x2, 2) && Mix(MAT_PARTIAL, s) == Sums(s.x0, s.x1, s.x2, 3)
  {
  }

  lemma SboxMix(t: State)
    ensures var a, b, c := Power(t.x0, 5) % P, Power(t.x1, 5) % P, Power(t.x2, 5) % P;
            Mix(MAT_FULL, Sbox(false, t)) == Sums(a, b, c, 2) && Mix(MAT_PARTIAL, Sbox(true, t)) == Sums(a, t.x1, t.x2, 3)
  {
    hide Pow5, Power, Mix, Sums;
    Pow5Means(t.x0);
    Pow5Means(t.x1);
    Pow5Means(t.x2);
    MixMeans(Sbox(false, t));
    MixMeans(Sbox(true, t));
  }

  /**
   One round, in numbers: in rounds 4 to 59 of 64 only the first element is raised to the fifth power
   and the last weighs three in its own sum, otherwise all three are and it weighs two.
   */
  lemma RoundMeans(rc: RoundTable, i: nat, s: State)
    requires i < 64
    ensures var x, y, z := (s.x0 + rc[i].a) % P, (s.x1 + rc[i].b) % P, (s.x2 + rc[i].c) % P;
            Round(rc, i, s) ==
              if 4 <= i < 60 then Sums(Power(x, 5) % P, y, z, 3) else Sums(Power(x, 5) % P, Power(y, 5) % P, Power(z, 5) % P, 2)
  {
    hide Power, Mix, Sbox, Sums;
    SboxMix(AddRow(rc[i], s));
  }

  /** The permutation: one mixing of the input, then 64 rounds. */
  lemma PermutationMeans(rc: RoundTable, s: State)
    ensures |rc| == 64 && Permutation(rc, s) == Rounds(rc, 64, Sums(s.x0, s.x1, s.x2, 2))
  {
    hide Mix, Rounds, Sums;
    MixMeans(s);
  }
}
