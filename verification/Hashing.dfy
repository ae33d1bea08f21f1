/**
 Compositions of a two-to-one hash, and how to find a collision when two of them agree.
 The hash is a parameter; the collision finders are ordinary computations on the inputs.
 */
module Hashing {
  import opened Field
  import opened Lists

  type HashFn = (F, F) -> F

  function Hash4(h: HashFn, a: F, b: F, c: F, d: F): F { h(h(a, b), h(c, d)) }

  /** Left fold of the hash over a list. */
  function HashFold(h: HashFn, acc: F, values: seq<F>): F {
    if values == [] then acc else h(HashFold(h, acc, values[..|values| - 1]), values[|values| - 1])
  }

  lemma HashFoldNext(h: HashFn, acc: F, values: seq<F>, last: F)
    ensures HashFold(h, acc, values + [last]) == h(HashFold(h, acc, values), last)
  {
    assert (values + [last])[..|values|] == values;
  }

  /** Two different pairs with one hash, or nothing found. */
  datatype Clash = NoClash | Clash(a: (F, F), b: (F, F)) {
    ghost predicate Genuine(h: HashFn) {
      Clash? ==> a != b && h(a.0, a.1) == h(b.0, b.1)
    }

    function Else(other: Clash): Clash { if Clash? then this else other }
  }

  /** Looks at one pair of hash calls. */
  function Compare(h: HashFn, a: (F, F), b: (F, F)): (c: Clash)
    ensures c.Genuine(h)
    ensures c.NoClash? && h(a.0, a.1) == h(b.0, b.1) ==> a == b
  {
    if a != b && h(a.0, a.1) == h(b.0, b.1) then Clash(a, b) else NoClash
  }

  /** Looks at the three hash calls inside `Hash4`. */
  function Hash4Clash(h: HashFn, x: (F, F, F, F), y: (F, F, F, F)): (c: Clash)
    ensures c.Genuine(h)
  {
    Compare(h, (h(x.0, x.1), h(x.2, x.3)), (h(y.0, y.1), h(y.2, y.3)))
      .Else(Compare(h, (x.0, x.1), (y.0, y.1)))
      .Else(Compare(h, (x.2, x.3), (y.2, y.3)))
  }

  lemma Hash4Binds(h: HashFn, x: (F, F, F, F), y: (F, F, F, F))
    requires Hash4(h, x.0, x.1, x.2, x.3) == Hash4(h, y.0, y.1, y.2, y.3)
    requires Hash4Clash(h, x, y).NoClash?
    ensures x == y
  {
    assert Compare(h, (h(x.0, x.1), h(x.2, x.3)), (h(y.0, y.1), h(y.2, y.3))).NoClash?;
    assert Compare(h, (x.0, x.1), (y.0, y.1)).NoClash?;
  }

  /** Looks at the steps of two folds, from the last ones back, as far as the shorter goes. */
  function FoldClash(h: HashFn, a: F, xs: seq<F>, b: F, ys: seq<F>): (c: Clash)
    ensures c.Genuine(h)
    decreases |xs|
  {
    if xs == [] || ys == [] then NoClash
    else
      var m, n := |xs| - 1, |ys| - 1;
      Compare(h, (HashFold(h, a, xs[..m]), xs[m]), (HashFold(h, b, ys[..n]), ys[n]))
        .Else(FoldClash(h, a, xs[..m], b, ys[..n]))
  }

  /** `xs` is the end of `ys`, and what `ys` has before it folds to where `xs` starts. */
  predicate FoldsAlike(h: HashFn, a: F, xs: seq<F>, b: F, ys: seq<F>)
    requires |xs| <= |ys|
  {
    xs == ys[|ys| - |xs|..] && a == HashFold(h, b, ys[..|ys| - |xs|])
  }

  /** When two folds agree, exactly, or a collision shows. */
  lemma {:induction false} FoldExactly(h: HashFn, a: F, xs: seq<F>, b: F, ys: seq<F>)
    requires |xs| <= |ys| && FoldClash(h, a, xs, b, ys).NoClash?
    ensures HashFold(h, a, xs) == HashFold(h, b, ys) <==> FoldsAlike(h, a, xs, b, ys)
    decreases |xs|
  {
    if xs == [] {
      assert ys[..|ys|] == ys && ys[|ys|..] == [];
    } else {
      hide HashFold;
      var m, n := |xs| - 1, |ys| - 1;
      FoldExactly(h, a, xs[..m], b, ys[..n]);
      assert Compare(h, (HashFold(h, a, xs[..m]), xs[m]), (HashFold(h, b, ys[..n]), ys[n])).NoClash?;
      HashFoldNext(h, a, xs[..m], xs[m]);
      HashFoldNext(h, b, ys[..n], ys[n]);
      assert xs == xs[..m] + [xs[m]] && ys == ys[..n] + [ys[n]];
      FoldsAlikeNext(h, a, xs, b, ys);
    }
  }

  lemma {:induction false} FoldsAlikeNext(h: HashFn, a: F, xs: seq<F>, b: F, ys: seq<F>)
    requires xs != [] && |xs| <= |ys|
    ensures FoldsAlike(h, a, xs, b, ys)
            <==> FoldsAlike(h, a, xs[..|xs| - 1], b, ys[..|ys| - 1]) && xs[|xs| - 1] == ys[|ys| - 1]
  {
    hide HashFold;
    var m, n := |xs| - 1, |ys| - 1;
    TailOfFront(ys, n - m);
    FrontOfFront(ys, n - m);
    assert xs == xs[..m] + [xs[m]];
  }

  lemma FoldBinds(h: HashFn, a: F, xs: seq<F>, b: F, ys: seq<F>)
    requires |xs| == |ys| && HashFold(h, a, xs) == HashFold(h, b, ys)
    requires FoldClash(h, a, xs, b, ys).NoClash?
    ensures a == b && xs == ys
  {
    FoldExactly(h, a, xs, b, ys);
    assert ys[..0] == [] && ys[0..] == ys;
  }
}
