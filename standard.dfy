/**
 * The standard rule: a word is connected to every word of the dictionary
 * that differs from it in exactly one position, where it has another
 * lower-case letter.
 */
module StandardRule {
  import opened Alphabet
  import opened Counting
  import opened Dictionaries

  /** c is w with the letter at one position replaced by a different letter of the alphabet. */
  ghost predicate Substitution(w: string, c: string)
  {
    exists i, l :: 0 <= i < |w| && 0 <= l < 26 && Letter(l) != w[i] && c == w[i := Letter(l)]
  }

  /**
   * The words tried at position i with the first j letters, in the order
   * the inner loop tries them: w's own letter at i is skipped.
   */
  function AtPosition(w: string, i: nat, j: nat): seq<string>
    requires i < |w| && j <= 26
  {
    if j == 0 then []
    else AtPosition(w, i, j - 1) + if Letter(j - 1) == w[i] then [] else [w[i := Letter(j - 1)]]
  }

  /** The words tried at the positions before i, in order. */
  function Before(w: string, i: nat): seq<string>
    requires i <= |w|
  {
    if i == 0 then [] else Before(w, i - 1) + AtPosition(w, i - 1, 26)
  }

  /** Every word the rule tries for w, in the order it tries them. */
  function Substitutions(w: string): seq<string>
  {
    Before(w, |w|)
  }

  /**
   * c is w with the letter at position i replaced by a different one among
   * the first j letters: same length, another such letter at i, the same
   * letters elsewhere.
   */
  ghost predicate ChangedAt(w: string, c: string, i: nat, j: nat)
    requires i < |w| && j <= 26
  {
    |c| == |w| && c[i] != w[i] && 'a' as int <= c[i] as int < 'a' as int + j && c == w[i := c[i]]
  }

  /** A change at i is w updated at i with one of the first j letters. */
  lemma ChangedAtUpdate(w: string, c: string, i: nat, j: nat)
    requires i < |w| && j <= 26
    ensures ChangedAt(w, c, i, j) <==> exists l :: 0 <= l < j && Letter(l) != w[i] && c == w[i := Letter(l)]
  {
    if ChangedAt(w, c, i, j) {
      var l := c[i] as int - 'a' as int;
      assert c == w[i := Letter(l)];
    }
  }

  /** A word tried at position i with the first j letters occurs there once, and nothing else does. */
  lemma {:induction false} AtPositionCount(w: string, i: nat, j: nat, c: string)
    requires i < |w| && j <= 26
    ensures Occurrences(AtPosition(w, i, j), c) == if ChangedAt(w, c, i, j) then 1 else 0
  {
    if j > 0 {
      AtPositionCount(w, i, j - 1, c);
      OccurrencesAppend(AtPosition(w, i, j - 1), if Letter(j - 1) == w[i] then [] else [w[i := Letter(j - 1)]], c);
      var ch := Letter(j - 1);
      if ch != w[i] {
        if ChangedAt(w, c, i, j) && !ChangedAt(w, c, i, j - 1) {
          assert c == w[i := ch];
        }
      }
    }
  }

  /** c is a change of w at some position before i. */
  ghost predicate ChangedBefore(w: string, c: string, i: nat)
    requires i <= |w|
  {
    i > 0 && (ChangedBefore(w, c, i - 1) || ChangedAt(w, c, i - 1, 26))
  }

  /** A change at some position before i is a change at one such position. */
  lemma {:induction false} ChangedBeforeSome(w: string, c: string, i: nat)
    requires i <= |w|
    ensures ChangedBefore(w, c, i) <==> exists p :: 0 <= p < i && ChangedAt(w, c, p, 26)
  {
    if i > 0 {
      ChangedBeforeSome(w, c, i - 1);
    }
  }

  /** A change at position i is a change at no position before it. */
  lemma ChangedNotBefore(w: string, c: string, i: nat)
    requires i < |w| && ChangedAt(w, c, i, 26)
    ensures !ChangedBefore(w, c, i)
  {
    ChangedBeforeSome(w, c, i);
  }

  /** The number of positions before i at which c is a change of w. */
  ghost function Hits(w: string, c: string, i: nat): nat
    requires i <= |w|
  {
    if i == 0 then 0 else Hits(w, c, i - 1) + if ChangedAt(w, c, i - 1, 26) then 1 else 0
  }

  /** The words tried at the positions before i contain c once per such position. */
  lemma {:induction false} BeforeHits(w: string, i: nat, c: string)
    requires i <= |w|
    ensures Occurrences(Before(w, i), c) == Hits(w, c, i)
  {
    if i > 0 {
      BeforeHits(w, i - 1, c);
      AtPositionCount(w, i - 1, 26, c);
      OccurrencesAppend(Before(w, i - 1), AtPosition(w, i - 1, 26), c);
    }
  }

  /** c is a change of w at one position at most. */
  lemma {:induction false} HitsOnce(w: string, c: string, i: nat)
    requires i <= |w|
    ensures Hits(w, c, i) == if ChangedBefore(w, c, i) then 1 else 0
  {
    if i > 0 {
      HitsOnce(w, c, i - 1);
      if ChangedAt(w, c, i - 1, 26) {
        ChangedNotBefore(w, c, i - 1);
      }
    }
  }

  /** A word tried at some position before i occurs there once, and nothing else does. */
  lemma BeforeCount(w: string, i: nat, c: string)
    requires i <= |w|
    ensures multiset(Before(w, i))[c] == if ChangedBefore(w, c, i) then 1 else 0
  {
    BeforeHits(w, i, c);
    HitsOnce(w, c, i);
    OccurrencesCount(Before(w, i), c);
  }

  /**
   * Soundness, completeness and uniqueness at once: the rule tries c for w
   * exactly once when c is a one-letter substitution of w, and never
   * otherwise.
   */
  lemma SubstitutionsCount(w: string, c: string)
    ensures multiset(Substitutions(w))[c] == if Substitution(w, c) then 1 else 0
  {
    BeforeCount(w, |w|, c);
    if Substitution(w, c) {
      ChangedBeforeSome(w, c, |w|);
      var i, l :| 0 <= i < |w| && 0 <= l < 26 && Letter(l) != w[i] && c == w[i := Letter(l)];
      ChangedAtUpdate(w, c, i, 26);
    }
    ChangedBeforeSome(w, c, |w|);
    if ChangedBefore(w, c, |w|) {
      var i :| 0 <= i < |w| && ChangedAt(w, c, i, 26);
      ChangedAtUpdate(w, c, i, 26);
    }
  }

  /** The words tried are exactly the one-letter substitutions. */
  lemma SubstitutionMembers(w: string, c: string)
    ensures c in Substitutions(w) <==> Substitution(w, c)
  {
    SubstitutionsCount(w, c);
  }

  /** The rule never connects a word to itself. */
  lemma NoSelfSubstitution(w: string)
    ensures w !in Substitutions(w)
  {
    SubstitutionMembers(w, w);
  }

  /** Position i tries 25 letters, or all 26 when w's letter there is not in the alphabet. */
  lemma {:induction false} AtPositionLength(w: string, i: nat, j: nat)
    requires i < |w| && j <= 26
    ensures |AtPosition(w, i, j)| == j - if 'a' as int <= w[i] as int < 'a' as int + j then 1 else 0
  {
    if j > 0 {
      AtPositionLength(w, i, j - 1);
    }
  }

  /** The rule calls connect 25 times per position of a lower-case word. */
  lemma {:induction false} BeforeLength(w: string, i: nat)
    requires i <= |w|
    requires forall k :: 0 <= k < |w| ==> IsLetter(w[k])
    ensures |Before(w, i)| == 25 * i
  {
    if i > 0 {
      BeforeLength(w, i - 1);
      AtPositionLength(w, i - 1, 26);
    }
  }

  lemma SubstitutionsLength(w: string)
    requires forall k :: 0 <= k < |w| ==> IsLetter(w[k])
    ensures |Substitutions(w)| == 25 * |w|
  {
    BeforeLength(w, |w|);
  }

  /** Connecting the change to letter j at i extends the words tried with the letters before j. */
  lemma LetterConnected(s0: Store, w: string, i: nat, j: nat)
    requires WellFormed(s0) && w in s0.nodes && i < |w| && j < 26 && Letter(j) != w[i]
    ensures WellFormed(WithTargets(s0, w, Before(w, i) + AtPosition(w, i, j)))
    ensures WithLink(WithTargets(s0, w, Before(w, i) + AtPosition(w, i, j)), w, w[i := Letter(j)], false)
      == WithTargets(s0, w, Before(w, i) + AtPosition(w, i, j + 1))
  {
    var tried := Before(w, i) + AtPosition(w, i, j);
    LinkNext(s0, w, tried, w[i := Letter(j)]);
    assert tried + [w[i := Letter(j)]] == Before(w, i) + AtPosition(w, i, j + 1);
  }

  /** The loops for one word: for each position a fresh copy of the word. */
  method ConnectWord(d: Dictionary, word: string)
    requires d.Valid() && word in d.nodes
    modifies d
    ensures d.Valid()
    ensures d.State() == WithTargets(old(d.State()), word, Substitutions(word))
  {
    ghost var s0 := d.State();
    NoTargets(s0, word);
    for i := 0 to |word|
      invariant d.Valid() && d.State() == WithTargets(s0, word, Before(word, i))
    {
      ConnectLetters(d, word, i, s0);
    }
  }

  /**
   * The inner loop for position i: each letter other than the word's own
   * overwrites the copy's letter at i, so the copy differs from the word at
   * i alone, and the copy is connected.
   */
  method ConnectLetters(d: Dictionary, word: string, i: nat, ghost s0: Store)
    requires WellFormed(s0) && word in s0.nodes && i < |word|
    requires d.Valid() && d.State() == WithTargets(s0, word, Before(word, i))
    modifies d
    ensures d.Valid() && d.State() == WithTargets(s0, word, Before(word, i + 1))
  {
    var copy := word;
    assert Before(word, i) + AtPosition(word, i, 0) == Before(word, i);
    for j := 0 to 26
      invariant d.Valid()
      invariant d.State() == WithTargets(s0, word, Before(word, i) + AtPosition(word, i, j))
      invariant |copy| == |word| && copy == word[i := copy[i]]
    {
      copy := ConnectLetter(d, word, copy, i, j, s0);
    }
  }

  /**
   * One step of the inner loop: letter j is skipped when it is the word's
   * own letter at i; otherwise it overwrites the copy's letter at i and the
   * copy is connected.
   */
  method ConnectLetter(d: Dictionary, word: string, copy: string, i: nat, j: nat, ghost s0: Store) returns (next: string)
    requires WellFormed(s0) && word in s0.nodes && i < |word| && j < 26
    requires |copy| == |word| && copy == word[i := copy[i]]
    requires d.Valid() && d.State() == WithTargets(s0, word, Before(word, i) + AtPosition(word, i, j))
    modifies d
    ensures d.Valid() && d.State() == WithTargets(s0, word, Before(word, i) + AtPosition(word, i, j + 1))
    ensures |next| == |word| && next == word[i := next[i]]
  {
    if Letter(j) == word[i] {
      assert AtPosition(word, i, j) + [] == AtPosition(word, i, j);
      assert AtPosition(word, i, j + 1) == AtPosition(word, i, j);
      return copy;
    }
    next := copy[i := Letter(j)];
    assert next == word[i := Letter(j)];
    LetterConnected(s0, word, i, j);
    d.Connect(word, next, false);
  }

  /**
   * The rule over the whole dictionary: every node, in arena order, gains
   * the targets of its word's substitutions.
   */
  method Apply(d: Dictionary)
    requires d.Valid()
    modifies d
    ensures d.Valid()
    ensures d.State() == Extend(old(d.State()), |old(d.arena)|, Substitutions)
  {
    ghost var s0 := d.State();
    for n := 0 to |d.arena|
      invariant d.Valid() && d.State() == Extend(s0, n, Substitutions)
    {
      ExtendSpec(s0, n, Substitutions);
      var word := d.arena[n].word;
      ConnectWord(d, word);
      ExtendWellFormed(s0, n + 1, Substitutions);
    }
  }
}
