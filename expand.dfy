/**
 * The expand rule: a word is connected to every word of the dictionary that
 * it becomes when one letter of the alphabet is inserted at one of its
 * |w| + 1 positions. Inserting a letter just before or just after an equal
 * letter gives the same word, and the rule then connects the two words
 * twice.
 */
module ExpandRule {
  import opened Alphabet
  import opened Counting
  import opened Dictionaries

  /** w with ch inserted before position i. */
  function Inserted(w: string, i: nat, ch: char): string
    requires i <= |w|
  {
    w[..i] + [ch] + w[i..]
  }

  /** c is w with one letter of the alphabet inserted somewhere. */
  ghost predicate InsertionOf(w: string, c: string)
  {
    exists i, l :: 0 <= i <= |w| && 0 <= l < 26 && c == Inserted(w, i, Letter(l))
  }

  /** The words tried at insertion point i with the first j letters, in the inner loop's order. */
  function AtPoint(w: string, i: nat, j: nat): seq<string>
    requires i <= |w| && j <= 26
  {
    if j == 0 then [] else AtPoint(w, i, j - 1) + [Inserted(w, i, Letter(j - 1))]
  }

  /** The words tried at the insertion points before i, in order. */
  function PointsBefore(w: string, i: nat): seq<string>
    requires i <= |w| + 1
  {
    if i == 0 then [] else PointsBefore(w, i - 1) + AtPoint(w, i - 1, 26)
  }

  /** Every word the rule tries for w, in the order it tries them. */
  function Insertions(w: string): seq<string>
  {
    PointsBefore(w, |w| + 1)
  }

  lemma {:induction false} AtPointIndex(w: string, i: nat, j: nat)
    requires i <= |w| && j <= 26
    ensures |AtPoint(w, i, j)| == j
    ensures forall l :: 0 <= l < j ==> AtPoint(w, i, j)[l] == Inserted(w, i, Letter(l))
  {
    if j > 0 {
      AtPointIndex(w, i, j - 1);
    }
  }

  lemma {:induction false} PointsBeforeIndex(w: string, i: nat)
    requires i <= |w| + 1
    ensures |PointsBefore(w, i)| == 26 * i
    ensures forall p, l :: 0 <= p < i && 0 <= l < 26 ==> PointsBefore(w, i)[26 * p + l] == Inserted(w, p, Letter(l))
  {
    if i > 0 {
      PointsBeforeIndex(w, i - 1);
      AtPointIndex(w, i - 1, 26);
      forall p, l | 0 <= p < i && 0 <= l < 26
        ensures PointsBefore(w, i)[26 * p + l] == Inserted(w, p, Letter(l))
      {
        if p < i - 1 {
          assert 26 * p + l < 26 * (i - 1);
        } else {
          assert PointsBefore(w, i)[26 * p + l] == AtPoint(w, i - 1, 26)[l];
        }
      }
    }
  }

  /**
   * The rule calls connect 26 times per insertion point, (|w| + 1) * 26
   * times in all, and call 26 p + l tries letter l at point p.
   */
  lemma InsertionsIndex(w: string)
    ensures |Insertions(w)| == 26 * (|w| + 1)
    ensures forall p, l :: 0 <= p <= |w| && 0 <= l < 26 ==> Insertions(w)[26 * p + l] == Inserted(w, p, Letter(l))
  {
    PointsBeforeIndex(w, |w| + 1);
  }

  /** Soundness and completeness: the rule tries exactly the one-letter insertions into w. */
  lemma InsertionsMembers(w: string, c: string)
    ensures c in Insertions(w) <==> InsertionOf(w, c)
  {
    InsertionsIndex(w);
    if c in Insertions(w) {
      var k :| 0 <= k < |Insertions(w)| && Insertions(w)[k] == c;
      var p, l := k / 26, k % 26;
      assert 26 * p + l == k && p <= |w|;
      assert Insertions(w)[26 * p + l] == Inserted(w, p, Letter(l));
    }
    if InsertionOf(w, c) {
      var i, l :| 0 <= i <= |w| && 0 <= l < 26 && c == Inserted(w, i, Letter(l));
      assert 26 * i + l < 26 * (|w| + 1);
      assert Insertions(w)[26 * i + l] == c;
    }
  }

  /** Every word tried is one letter longer, so the rule never connects a word to itself. */
  lemma InsertionsLonger(w: string, c: string)
    requires c in Insertions(w)
    ensures |c| == |w| + 1 && c != w
  {
    InsertionsMembers(w, c);
  }

  /**
   * Inserting a letter just before an equal letter or just after it gives
   * the same word, at two different calls: the rule connects the two words
   * twice, once for each call.
   */
  lemma InsertedTwice(w: string, i: nat, l: nat)
    requires i < |w| && l < 26 && w[i] == Letter(l)
    ensures Inserted(w, i, Letter(l)) == Inserted(w, i + 1, Letter(l))
    ensures multiset(Insertions(w))[Inserted(w, i, Letter(l))] >= 2
  {
    var ch := Letter(l);
    assert w[..i + 1] == w[..i] + [ch];
    assert w[i..] == [ch] + w[i + 1..];
    assert Inserted(w, i, ch) == w[..i] + [ch] + [ch] + w[i + 1..];
    assert Inserted(w, i + 1, ch) == w[..i] + [ch] + [ch] + w[i + 1..];
    InsertionsIndex(w);
    var ins := Insertions(w);
    var a, b := 26 * i + l, 26 * (i + 1) + l;
    assert a < b < 26 * (|w| + 1);
    var c := Inserted(w, i, Letter(l));
    assert ins[a] == c && ins[b] == c;
    assert ins == ins[..b] + ins[b..];
    assert ins[..b][a] == c && ins[b..][0] == c;
    assert multiset(ins) == multiset(ins[..b]) + multiset(ins[b..]);
  }

  /** Deleting the letter at position p of c leaves w. */
  predicate DeletesTo(c: string, p: nat, w: string)
  {
    p < |c| && IsLetter(c[p]) && c[..p] + c[p + 1..] == w
  }

  /** The number of positions of c before i whose letter, deleted, leaves w. */
  function InsertionPoints(w: string, c: string, i: nat): nat
  {
    if i == 0 then 0 else InsertionPoints(w, c, i - 1) + if DeletesTo(c, i - 1, w) then 1 else 0
  }

  /** Inserting letter l at p gives c exactly when deleting that letter from c at p gives w back. */
  lemma InsertedAt(w: string, p: nat, l: nat, c: string)
    requires p <= |w| && l < 26
    ensures Inserted(w, p, Letter(l)) == c <==> DeletesTo(c, p, w) && c[p] == Letter(l)
  {
    var ch := Letter(l);
    if Inserted(w, p, ch) == c {
      assert c[..p] == w[..p] && c[p + 1..] == w[p..];
      assert w == w[..p] + w[p..];
    }
    if DeletesTo(c, p, w) && c[p] == ch {
      assert w[..p] == c[..p] && w[p..] == c[p + 1..];
      assert c == c[..p] + [c[p]] + c[p + 1..];
    }
  }

  /** Trying the first j letters at point p gives c once if c's letter at p is one of them and its deletion leaves w. */
  lemma {:induction false} AtPointHits(w: string, c: string, p: nat, j: nat)
    requires p <= |w| && j <= 26
    ensures Occurrences(AtPoint(w, p, j), c) == if DeletesTo(c, p, w) && c[p] as int < 'a' as int + j then 1 else 0
  {
    if j > 0 {
      AtPointHits(w, c, p, j - 1);
      var tried := AtPoint(w, p, j);
      assert tried[..|tried| - 1] == AtPoint(w, p, j - 1);
      InsertedAt(w, p, j - 1, c);
    }
  }

  lemma {:induction false} PointsBeforeHits(w: string, c: string, i: nat)
    requires i <= |w| + 1
    ensures Occurrences(PointsBefore(w, i), c) == InsertionPoints(w, c, i)
  {
    if i > 0 {
      PointsBeforeHits(w, c, i - 1);
      OccurrencesAppend(PointsBefore(w, i - 1), AtPoint(w, i - 1, 26), c);
      AtPointHits(w, c, i - 1, 26);
    }
  }

  /**
   * The rule tries c for w once for each position of c whose letter,
   * deleted, leaves w: a run of k equal letters in c gives k tries.
   */
  lemma InsertionsCount(w: string, c: string)
    ensures multiset(Insertions(w))[c] == InsertionPoints(w, c, |w| + 1)
  {
    PointsBeforeHits(w, c, |w| + 1);
    OccurrencesCount(Insertions(w), c);
  }

  /** Expanding "aa" with another `a` gives "aaa" at three insertion points. */
  lemma ThreeInsertions()
    ensures multiset(Insertions("aa"))["aaa"] == 3
  {
    var w, c := "aa", "aaa";
    assert DeletesTo(c, 0, w) && DeletesTo(c, 1, w) && DeletesTo(c, 2, w);
    assert InsertionPoints(w, c, 3) == 3;
    InsertionsCount(w, c);
  }

  /** The copy for insertion point i: the word with a space inserted there. */
  lemma SpacedCopy(w: string, i: nat, ch: char)
    requires i <= |w|
    ensures (w[..i] + " " + w[i..])[i := ch] == Inserted(w, i, ch)
  {
  }

  /** Connecting letter j inserted at i extends the words tried with the letters before j. */
  lemma InsertionConnected(s0: Store, w: string, i: nat, j: nat)
    requires WellFormed(s0) && w in s0.nodes && i <= |w| && j < 26
    ensures WellFormed(WithTargets(s0, w, PointsBefore(w, i) + AtPoint(w, i, j)))
    ensures WithLink(WithTargets(s0, w, PointsBefore(w, i) + AtPoint(w, i, j)), w, Inserted(w, i, Letter(j)), false)
      == WithTargets(s0, w, PointsBefore(w, i) + AtPoint(w, i, j + 1))
  {
    var tried := PointsBefore(w, i) + AtPoint(w, i, j);
    LinkNext(s0, w, tried, Inserted(w, i, Letter(j)));
    assert tried + [Inserted(w, i, Letter(j))] == PointsBefore(w, i) + AtPoint(w, i, j + 1);
  }

  /** The loops for one word: for each insertion point a fresh copy of the word with a space there. */
  method ConnectWord(d: Dictionary, word: string)
    requires d.Valid() && word in d.nodes
    modifies d
    ensures d.Valid()
    ensures d.State() == WithTargets(old(d.State()), word, Insertions(word))
  {
    ghost var s0 := d.State();
    NoTargets(s0, word);
    for i := 0 to |word| + 1
      invariant d.Valid() && d.State() == WithTargets(s0, word, PointsBefore(word, i))
    {
      ConnectLetters(d, word, i, s0);
    }
  }

  /**
   * The inner loop for insertion point i: each letter in turn overwrites the
   * copy's character at i, so the copy is the word with that letter
   * inserted, and the copy is connected.
   */
  method ConnectLetters(d: Dictionary, word: string, i: nat, ghost s0: Store)
    requires WellFormed(s0) && word in s0.nodes && i <= |word|
    requires d.Valid() && d.State() == WithTargets(s0, word, PointsBefore(word, i))
    modifies d
    ensures d.Valid() && d.State() == WithTargets(s0, word, PointsBefore(word, i + 1))
  {
    var copy := word[..i] + " " + word[i..];
    ghost var spaced := copy;
    assert PointsBefore(word, i) + AtPoint(word, i, 0) == PointsBefore(word, i);
    for j := 0 to 26
      invariant d.Valid() && d.State() == WithTargets(s0, word, PointsBefore(word, i) + AtPoint(word, i, j))
      invariant |copy| == |spaced| && forall k :: 0 <= k < |spaced| && k != i ==> copy[k] == spaced[k]
    {
      copy := copy[i := Letter(j)];
      assert copy == spaced[i := Letter(j)];
      SpacedCopy(word, i, Letter(j));
      InsertionConnected(s0, word, i, j);
      d.Connect(word, copy, false);
    }
  }

  /**
   * The rule over the whole dictionary: every node, in arena order, gains
   * the targets of its word's insertions.
   */
  method Apply(d: Dictionary)
    requires d.Valid()
    modifies d
    ensures d.Valid()
    ensures d.State() == Extend(old(d.State()), |old(d.arena)|, Insertions)
  {
    ghost var s0 := d.State();
    for n := 0 to |d.arena|
      invariant d.Valid() && d.State() == Extend(s0, n, Insertions)
    {
      ExtendSpec(s0, n, Insertions);
      var word := d.arena[n].word;
      ConnectWord(d, word);
      ExtendWellFormed(s0, n + 1, Insertions);
    }
  }
}
