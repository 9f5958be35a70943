/**
 * The swap rule: a word is connected to every word of the dictionary that
 * it becomes when the letters at two of its positions trade places. When
 * the two letters are equal the swapped word is the word itself, and the
 * rule connects the word to itself.
 */
module SwapRule {
  import opened Counting
  import opened Dictionaries

  /** w with the letters at positions i and j exchanged. */
  function Swapped(w: string, i: nat, j: nat): string
    requires i < j < |w|
  {
    w[i := w[j]][j := w[i]]
  }

  /** c is w with the letters at two positions exchanged. */
  ghost predicate SwapOf(w: string, c: string)
  {
    exists i, j :: 0 <= i < j < |w| && c == Swapped(w, i, j)
  }

  /** The words tried for position i with the partners below j, in the inner loop's order. */
  function Partners(w: string, i: nat, j: nat): seq<string>
    requires i < |w| && j <= |w|
  {
    if j <= i + 1 then [] else Partners(w, i, j - 1) + [Swapped(w, i, j - 1)]
  }

  /** The words tried for the positions before i, in order. */
  function SwapsBefore(w: string, i: nat): seq<string>
    requires i <= |w|
  {
    if i == 0 then [] else SwapsBefore(w, i - 1) + Partners(w, i - 1, |w|)
  }

  /** Every word the rule tries for w, in the order it tries them. */
  function Swaps(w: string): seq<string>
  {
    SwapsBefore(w, |w|)
  }

  lemma {:induction false} PartnersMembers(w: string, i: nat, j: nat, c: string)
    requires i < |w| && j <= |w|
    ensures c in Partners(w, i, j) <==> exists k :: i < k < j && c == Swapped(w, i, k)
  {
    if j > i + 1 {
      PartnersMembers(w, i, j - 1, c);
    }
  }

  lemma {:induction false} SwapsBeforeMembers(w: string, i: nat, c: string)
    requires i <= |w|
    ensures c in SwapsBefore(w, i) <==> exists p, k :: 0 <= p < i && p < k < |w| && c == Swapped(w, p, k)
  {
    if i > 0 {
      var last := i - 1;
      SwapsBeforeMembers(w, last, c);
      PartnersMembers(w, last, |w|, c);
      assert c in SwapsBefore(w, i) <==> c in SwapsBefore(w, last) || c in Partners(w, last, |w|);
      if exists k :: last < k < |w| && c == Swapped(w, last, k) {
        var k :| last < k < |w| && c == Swapped(w, last, k);
        assert 0 <= last < i && last < k < |w| && c == Swapped(w, last, k);
      }
      if exists p, k :: 0 <= p < i && p < k < |w| && c == Swapped(w, p, k) {
        var p, k :| 0 <= p < i && p < k < |w| && c == Swapped(w, p, k);
        if p < last {
          assert 0 <= p < last && p < k < |w| && c == Swapped(w, p, k);
        }
      }
    }
  }

  /** Soundness and completeness: the rule tries exactly the two-letter exchanges of w. */
  lemma SwapsMembers(w: string, c: string)
    ensures c in Swaps(w) <==> SwapOf(w, c)
  {
    SwapsBeforeMembers(w, |w|, c);
  }

  /** An exchange keeps the word's letters, each as often as before, and its length. */
  lemma SwapPermutes(w: string, i: nat, j: nat)
    requires i < j < |w|
    ensures |Swapped(w, i, j)| == |w|
    ensures multiset(Swapped(w, i, j)) == multiset(w)
  {
    var v := w[i := w[j]];
    assert multiset(v) == multiset(w) - multiset{w[i]} + multiset{w[j]};
    assert multiset(v[j := w[i]]) == multiset(v) - multiset{v[j]} + multiset{w[i]};
  }

  /** Every word the rule tries is a permutation of w. */
  lemma SwapsPermute(w: string, c: string)
    requires c in Swaps(w)
    ensures |c| == |w| && multiset(c) == multiset(w)
  {
    SwapsMembers(w, c);
    var i, j :| 0 <= i < j < |w| && c == Swapped(w, i, j);
    SwapPermutes(w, i, j);
  }

  /** Exchanging two positions gives back w exactly when their letters are equal. */
  lemma SwapFixes(w: string, i: nat, j: nat)
    requires i < j < |w|
    ensures Swapped(w, i, j) == w <==> w[i] == w[j]
  {
    if Swapped(w, i, j) == w {
      assert Swapped(w, i, j)[j] == w[i];
    }
  }

  /**
   * The rule connects w to itself exactly when some letter occurs twice in
   * w: the exchange of two equal letters is tried like any other.
   */
  lemma SwapSelfLoop(w: string)
    ensures w in Swaps(w) <==> exists i, j :: 0 <= i < j < |w| && w[i] == w[j]
  {
    SwapsMembers(w, w);
    if w in Swaps(w) {
      var i, j :| 0 <= i < j < |w| && w == Swapped(w, i, j);
      SwapFixes(w, i, j);
    }
    if exists i, j :: 0 <= i < j < |w| && w[i] == w[j] {
      var i, j :| 0 <= i < j < |w| && w[i] == w[j];
      SwapFixes(w, i, j);
    }
  }

  /** Writing the two letters back undoes the exchange. */
  lemma SwapUndone(w: string, i: nat, j: nat)
    requires i < j < |w|
    ensures Swapped(w, i, j)[i := w[i]][j := w[j]] == w
  {
  }

  /**
   * An exchange that changes w determines its pair: the result differs
   * from w at the two exchanged positions and nowhere else.
   */
  lemma SwapPairUnique(w: string, c: string, p: nat, k: nat, p': nat, k': nat)
    requires p < k < |w| && p' < k' < |w| && c != w
    ensures c == Swapped(w, p, k) && c == Swapped(w, p', k') ==> p == p' && k == k'
  {
    if c == Swapped(w, p, k) && c == Swapped(w, p', k') {
      SwapFixes(w, p, k);
      SwapFixes(w, p', k');
      assert c[p'] != w[p'] && c[k'] != w[k'];
    }
  }

  /** The number of partners k of i, below j, whose exchange with i gives c. */
  ghost function PartnerHits(w: string, c: string, i: nat, j: nat): nat
    requires i < |w| && j <= |w|
  {
    if j <= i + 1 then 0 else PartnerHits(w, c, i, j - 1) + if c == Swapped(w, i, j - 1) then 1 else 0
  }

  /** The number of pairs p < k, with p below i, whose exchange gives c. */
  ghost function PairHits(w: string, c: string, i: nat): nat
    requires i <= |w|
  {
    if i == 0 then 0 else PairHits(w, c, i - 1) + PartnerHits(w, c, i - 1, |w|)
  }

  /** The number of positions k, i < k < j, holding the same letter as position i. */
  function EqualPartners(w: string, i: nat, j: nat): nat
    requires i < |w| && j <= |w|
  {
    if j <= i + 1 then 0 else EqualPartners(w, i, j - 1) + if w[i] == w[j - 1] then 1 else 0
  }

  /** The number of pairs p < k, with p below i, holding equal letters. */
  function EqualPairsBefore(w: string, i: nat): nat
    requires i <= |w|
  {
    if i == 0 then 0 else EqualPairsBefore(w, i - 1) + EqualPartners(w, i - 1, |w|)
  }

  /** The number of pairs of positions of w holding equal letters. */
  function RepeatedPairs(w: string): nat
  {
    EqualPairsBefore(w, |w|)
  }

  /** The inner loop for i tries c once for each partner whose exchange gives c. */
  lemma {:induction false} PartnersHits(w: string, i: nat, j: nat, c: string)
    requires i < |w| && j <= |w|
    ensures Occurrences(Partners(w, i, j), c) == PartnerHits(w, c, i, j)
  {
    if j > i + 1 {
      PartnersHits(w, i, j - 1, c);
      OccurrencesAppend(Partners(w, i, j - 1), [Swapped(w, i, j - 1)], c);
      assert [Swapped(w, i, j - 1)][..0] == [];
    }
  }

  /** The positions before i try c once for each pair whose exchange gives c. */
  lemma {:induction false} SwapsBeforeHits(w: string, i: nat, c: string)
    requires i <= |w|
    ensures Occurrences(SwapsBefore(w, i), c) == PairHits(w, c, i)
  {
    if i > 0 {
      SwapsBeforeHits(w, i - 1, c);
      PartnersHits(w, i - 1, |w|, c);
      OccurrencesAppend(SwapsBefore(w, i - 1), Partners(w, i - 1, |w|), c);
    }
  }

  /** A word other than w is the exchange of i with one partner at most. */
  lemma {:induction false} PartnerHitsOnce(w: string, c: string, i: nat, j: nat)
    requires i < |w| && j <= |w| && c != w
    ensures PartnerHits(w, c, i, j) == if exists k :: i < k < j && c == Swapped(w, i, k) then 1 else 0
  {
    if j > i + 1 {
      PartnerHitsOnce(w, c, i, j - 1);
      if c == Swapped(w, i, j - 1) {
        forall k | i < k < j - 1 ensures c != Swapped(w, i, k) {
          SwapPairUnique(w, c, i, k, i, j - 1);
        }
      }
    }
  }

  /** A word other than w is the exchange of one pair at most. */
  lemma {:induction false} PairHitsOnce(w: string, c: string, i: nat)
    requires i <= |w| && c != w
    ensures PairHits(w, c, i) == if exists p, k :: 0 <= p < i && p < k < |w| && c == Swapped(w, p, k) then 1 else 0
  {
    if i > 0 {
      PairHitsOnce(w, c, i - 1);
      PartnerHitsOnce(w, c, i - 1, |w|);
      var last := i - 1;
      if exists k :: last < k < |w| && c == Swapped(w, last, k) {
        var k :| last < k < |w| && c == Swapped(w, last, k);
        forall p, k' | 0 <= p < last && p < k' < |w| ensures c != Swapped(w, p, k') {
          SwapPairUnique(w, c, p, k', last, k);
        }
      }
    }
  }

  /** The exchanges of i that give w back are those with an equal letter. */
  lemma {:induction false} PartnerHitsSelf(w: string, i: nat, j: nat)
    requires i < |w| && j <= |w|
    ensures PartnerHits(w, w, i, j) == EqualPartners(w, i, j)
  {
    if j > i + 1 {
      PartnerHitsSelf(w, i, j - 1);
      SwapFixes(w, i, j - 1);
    }
  }

  lemma {:induction false} PairHitsSelf(w: string, i: nat)
    requires i <= |w|
    ensures PairHits(w, w, i) == EqualPairsBefore(w, i)
  {
    if i > 0 {
      PairHitsSelf(w, i - 1);
      PartnerHitsSelf(w, i - 1, |w|);
    }
  }

  /**
   * The rule tries each exchange of two different letters exactly once, and
   * no other word but w itself; w is tried once for each pair of equal
   * letters.
   */
  lemma SwapsCount(w: string, c: string)
    ensures c != w ==> multiset(Swaps(w))[c] == if SwapOf(w, c) then 1 else 0
    ensures multiset(Swaps(w))[w] == RepeatedPairs(w)
  {
    OccurrencesCount(Swaps(w), c);
    OccurrencesCount(Swaps(w), w);
    SwapsBeforeHits(w, |w|, c);
    SwapsBeforeHits(w, |w|, w);
    PairHitsSelf(w, |w|);
    if c != w {
      PairHitsOnce(w, c, |w|);
    }
  }

  /** Connecting the exchange of i and j extends the words tried with the partners before j. */
  lemma PartnerConnected(s0: Store, w: string, i: nat, j: nat)
    requires WellFormed(s0) && w in s0.nodes && i < j < |w|
    ensures WellFormed(WithTargets(s0, w, SwapsBefore(w, i) + Partners(w, i, j)))
    ensures WithLink(WithTargets(s0, w, SwapsBefore(w, i) + Partners(w, i, j)), w, Swapped(w, i, j), false)
      == WithTargets(s0, w, SwapsBefore(w, i) + Partners(w, i, j + 1))
  {
    var tried := SwapsBefore(w, i) + Partners(w, i, j);
    LinkNext(s0, w, tried, Swapped(w, i, j));
    assert tried + [Swapped(w, i, j)] == SwapsBefore(w, i) + Partners(w, i, j + 1);
  }

  /** The inner loop for position i starts with no partner and ends with all of them. */
  lemma PartnersRange(w: string, i: nat)
    requires i < |w|
    ensures SwapsBefore(w, i) + Partners(w, i, i + 1) == SwapsBefore(w, i)
    ensures SwapsBefore(w, i) + Partners(w, i, |w|) == SwapsBefore(w, i + 1)
  {
    assert Partners(w, i, i + 1) == [];
  }

  lemma {:induction false} PartnersLength(w: string, i: nat, j: nat)
    requires i < |w| && j <= |w|
    ensures |Partners(w, i, j)| == if j <= i + 1 then 0 else j - i - 1
  {
    if j > i + 1 {
      PartnersLength(w, i, j - 1);
    }
  }

  lemma {:induction false} SwapsBeforeLength(w: string, i: nat)
    requires i <= |w|
    ensures 2 * |SwapsBefore(w, i)| == i * (2 * |w| - i - 1)
  {
    if i > 0 {
      SwapsBeforeLength(w, i - 1);
      PartnersLength(w, i - 1, |w|);
      Triangle(i, |w|);
    }
  }

  lemma Triangle(i: int, n: int)
    ensures (i - 1) * (2 * n - i) + 2 * (n - i) == i * (2 * n - i - 1)
  {
  }

  /** The rule calls connect once per pair of positions: |w| (|w| - 1) / 2 times. */
  lemma SwapsLength(w: string)
    ensures |Swaps(w)| == |w| * (|w| - 1) / 2
  {
    SwapsBeforeLength(w, |w|);
  }

  /**
   * The loops for one word: for each position a fresh copy of the word,
   * whose exchanges with the later positions are connected in turn.
   */
  method ConnectWord(d: Dictionary, word: string)
    requires d.Valid() && word in d.nodes
    modifies d
    ensures d.Valid()
    ensures d.State() == WithTargets(old(d.State()), word, Swaps(word))
  {
    ghost var s0 := d.State();
    NoTargets(s0, word);
    for i := 0 to |word|
      invariant d.Valid() && d.State() == WithTargets(s0, word, SwapsBefore(word, i))
    {
      ConnectPartners(d, word, i, s0);
    }
  }

  /**
   * The inner loop for position i: the copy's letters at i and at each later
   * position are exchanged, the copy is connected, and the exchange is
   * undone, so the copy is the word again before the next partner.
   */
  method ConnectPartners(d: Dictionary, word: string, i: nat, ghost s0: Store)
    requires WellFormed(s0) && word in s0.nodes && i < |word|
    requires d.Valid() && d.State() == WithTargets(s0, word, SwapsBefore(word, i))
    modifies d
    ensures d.Valid() && d.State() == WithTargets(s0, word, SwapsBefore(word, i + 1))
  {
    var copy := word;
    PartnersRange(word, i);
    for j := i + 1 to |word|
      invariant d.Valid()
      invariant d.State() == WithTargets(s0, word, SwapsBefore(word, i) + Partners(word, i, j))
      invariant copy == word
    {
      copy := ConnectPartner(d, word, copy, i, j, s0);
    }
  }

  /**
   * One step of the inner loop: exchange the copy's letters at i and j,
   * connect the copy, and write the two letters back.
   */
  method ConnectPartner(d: Dictionary, word: string, copy: string, i: nat, j: nat, ghost s0: Store) returns (restored: string)
    requires WellFormed(s0) && word in s0.nodes && i < j < |word| && copy == word
    requires d.Valid() && d.State() == WithTargets(s0, word, SwapsBefore(word, i) + Partners(word, i, j))
    modifies d
    ensures d.Valid() && d.State() == WithTargets(s0, word, SwapsBefore(word, i) + Partners(word, i, j + 1))
    ensures restored == word
  {
    restored := copy[i := word[j]];
    restored := restored[j := word[i]];
    PartnerConnected(s0, word, i, j);
    d.Connect(word, restored, false);
    SwapUndone(word, i, j);
    restored := restored[i := word[i]];
    restored := restored[j := word[j]];
  }

  /**
   * The rule over the whole dictionary: every node, in arena order, gains
   * the targets of its word's exchanges.
   */
  method Apply(d: Dictionary)
    requires d.Valid()
    modifies d
    ensures d.Valid()
    ensures d.State() == Extend(old(d.State()), |old(d.arena)|, Swaps)
  {
    ghost var s0 := d.State();
    for n := 0 to |d.arena|
      invariant d.Valid() && d.State() == Extend(s0, n, Swaps)
    {
      ExtendSpec(s0, n, Swaps);
      var word := d.arena[n].word;
      ConnectWord(d, word);
      ExtendWellFormed(s0, n + 1, Swaps);
    }
  }
}
