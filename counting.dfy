/**
 * Counting the occurrences of a word in a list of words, the measure the
 * rules' "exactly once" properties are stated with.
 */
module Counting {

  /** The number of times c occurs in s. */
  function Occurrences(s: seq<string>, c: string): nat
  {
    if s == [] then 0 else Occurrences(s[..|s| - 1], c) + if s[|s| - 1] == c then 1 else 0
  }

  /** Counting over a concatenation adds the counts over its parts. */
  lemma {:induction false} OccurrencesAppend(a: seq<string>, b: seq<string>, c: string)
    ensures Occurrences(a + b, c) == Occurrences(a, c) + Occurrences(b, c)
  {
    if b != [] {
      assert (a + b)[..|a + b| - 1] == a + b[..|b| - 1];
      OccurrencesAppend(a, b[..|b| - 1], c);
    } else {
      assert a + b == a;
    }
  }

  /** The count is the multiplicity of c in the multiset of s. */
  lemma {:induction false} OccurrencesCount(s: seq<string>, c: string)
    ensures Occurrences(s, c) == multiset(s)[c]
  {
    if s != [] {
      OccurrencesCount(s[..|s| - 1], c);
      assert s == s[..|s| - 1] + [s[|s| - 1]];
    }
  }
}
