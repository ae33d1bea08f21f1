/** Byte strings: digests, lexicographic order, and collisions of a byte-string hash. */
module Bytes {
  import opened Numbers

  type ByteString = seq<Byte>
  type Digest = s: ByteString | |s| == 32 witness seq(32, _ => 0)
  type Sha = ByteString -> Digest

  /** Lexicographic order, as fixed-size byte arrays compare. */
  predicate LexLe(a: ByteString, b: ByteString) {
    a == [] || (b != [] && (a[0] < b[0] || (a[0] == b[0] && LexLe(a[1..], b[1..]))))
  }

  lemma {:induction false} LexReflexive(a: ByteString)
    ensures LexLe(a, a)
  {
    if a == [] {
    } else {
      LexReflexive(a[1..]);
    }
  }

  lemma {:induction false} LexTotal(a: ByteString, b: ByteString)
    ensures LexLe(a, b) || LexLe(b, a)
  {
    if a != [] && b != [] {
      LexTotal(a[1..], b[1..]);
    }
  }

  lemma {:induction false} LexTransitive(a: ByteString, b: ByteString, c: ByteString)
    requires LexLe(a, b) && LexLe(b, c)
    ensures LexLe(a, c)
  {
    if a != [] && a[0] == b[0] && b[0] == c[0] {
      LexTransitive(a[1..], b[1..], c[1..]);
    }
  }

  lemma {:induction false} LexAntisymmetric(a: ByteString, b: ByteString)
    requires LexLe(a, b) && LexLe(b, a)
    ensures a == b
  {
    if a == [] {
    } else {
      LexAntisymmetric(a[1..], b[1..]);
      assert a == [a[0]] + a[1..] && b == [b[0]] + b[1..];
    }
  }

  /** Two different byte strings with one digest, or nothing found. */
  datatype Clash = NoClash | Clash(a: ByteString, b: ByteString) {
    ghost predicate Genuine(sha: Sha) {
      Clash? ==> a != b && sha(a) == sha(b)
    }

    function Else(other: Clash): Clash { if Clash? then this else other }
  }

  function Compare(sha: Sha, a: ByteString, b: ByteString): (c: Clash)
    ensures c.Genuine(sha)
    ensures c.NoClash? && sha(a) == sha(b) ==> a == b
  {
    if a != b && sha(a) == sha(b) then Clash(a, b) else NoClash
  }

  /** Equal concatenations with first parts of one length split equally. */
  lemma SplitEqual(a: ByteString, b: ByteString, c: ByteString, d: ByteString)
    requires |a| == |c| && a + b == c + d
    ensures a == c && b == d
  {
    assert a == (a + b)[..|a|] && c == (c + d)[..|a|];
    assert b == (a + b)[|a|..] && d == (c + d)[|a|..];
  }
}
