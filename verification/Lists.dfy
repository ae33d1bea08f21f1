/** Slices of lists. */
module Lists {

  /** The end of a list without its last element is the end of the list without its last element. */
  lemma TailOfFront<T>(s: seq<T>, j: nat)
    requires j < |s|
    ensures s[j..][..|s| - 1 - j] == s[..|s| - 1][j..] && s[j..][|s| - 1 - j] == s[|s| - 1]
    ensures s[j..] == s[..|s| - 1][j..] + [s[|s| - 1]]
  {
  }

  lemma FrontOfFront<T>(s: seq<T>, j: nat)
    requires j < |s|
    ensures s[..|s| - 1][..j] == s[..j]
  {
  }
}
