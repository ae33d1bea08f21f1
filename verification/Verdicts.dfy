/** Verdicts in order of evidence, and how two of them for one deal are joined. */
module Verdicts {

  datatype Verdict = NONE | ABSENT | FAIL | PASS {
    function Rank(): (n: nat)
      ensures n < 4
    {
      match this
      case NONE => 0
      case ABSENT => 1
      case FAIL => 2
      case PASS => 3
    }

    predicate AtMost(other: Verdict) { Rank() <= other.Rank() }
  }

  function Reconcile(a: Verdict, b: Verdict): Verdict {
    if b.AtMost(a) then a else b
  }

  /** Reconciling is the least upper bound in the order of evidence. */
  lemma ReconcileIsJoin(a: Verdict, b: Verdict, c: Verdict)
    ensures Reconcile(a, b).AtMost(c) <==> a.AtMost(c) && b.AtMost(c)
    ensures Reconcile(a, b) == Reconcile(b, a) && Reconcile(a, a) == a
    ensures Reconcile(Reconcile(a, b), c) == Reconcile(a, Reconcile(b, c))
  {
  }

  /** Read off the four verdicts: one pass is enough, then one failure, then one proof of absence. */
  lemma ReconcileOutcomes(a: Verdict, b: Verdict)
    ensures Reconcile(a, b) == PASS <==> a == PASS || b == PASS
    ensures Reconcile(a, b) == FAIL <==> (a == FAIL || b == FAIL) && a != PASS && b != PASS
    ensures Reconcile(a, b) == NONE <==> a == NONE && b == NONE
  {
  }
}
