/**
 * `dictionary::apply(rule)`: the dictionary hands itself to a rule, which
 * visits every word and connects it, without creating words, to the words
 * its transformation yields. This module gathers the three rules and states
 * what applying one does to the whole store.
 */
module Rules {
  import opened Dictionaries
  import StandardRule
  import SwapRule
  import ExpandRule

  /** The rules a dictionary can apply. */
  datatype Rule = Standard | Swap | Expand

  /** The words a rule tries for a word, in the order it tries them. */
  function Candidates(rule: Rule): string -> seq<string>
  {
    match rule
    case Standard => StandardRule.Substitutions
    case Swap => SwapRule.Swaps
    case Expand => ExpandRule.Insertions
  }

  /** The one-step transformation a rule stands for. */
  ghost predicate Step(rule: Rule, w: string, c: string)
  {
    match rule
    case Standard => StandardRule.Substitution(w, c)
    case Swap => SwapRule.SwapOf(w, c)
    case Expand => ExpandRule.InsertionOf(w, c)
  }

  /** A rule tries exactly the words its transformation yields. */
  lemma CandidatesAreSteps(rule: Rule, w: string, c: string)
    ensures c in Candidates(rule)(w) <==> Step(rule, w, c)
  {
    match rule
    case Standard => StandardRule.SubstitutionMembers(w, c);
    case Swap => SwapRule.SwapsMembers(w, c);
    case Expand => ExpandRule.InsertionsMembers(w, c);
  }

  /** The store after the rule has visited every node. */
  function Applied(s: Store, rule: Rule): Store
  {
    Extend(s, |s.arena|, Candidates(rule))
  }

  /** The edges node m gains from the rule, in the order they are appended. */
  function Gained(s: Store, rule: Rule, m: nat): seq<nat>
    requires m < |s.arena|
  {
    Targets(s.nodes, Candidates(rule)(s.arena[m].word))
  }

  /** `apply(rule)`: the dictionary passes itself to the rule. */
  method Apply(d: Dictionary, rule: Rule)
    requires d.Valid()
    modifies d
    ensures d.Valid()
    ensures d.State() == Applied(old(d.State()), rule)
  {
    match rule
    case Standard => StandardRule.Apply(d);
    case Swap => SwapRule.Apply(d);
    case Expand => ExpandRule.Apply(d);
  }

  /**
   * A rule creates no word and removes none, keeps every node's word and old
   * edges, and appends after them exactly the edges gained.
   */
  lemma AppliedShape(s: Store, rule: Rule)
    requires WellFormed(s)
    ensures var r := Applied(s, rule);
      && WellFormed(r) && r.nodes == s.nodes && Vocabulary(r) == Vocabulary(s)
      && |r.arena| == |s.arena|
      && forall m :: 0 <= m < |s.arena| ==>
           r.arena[m].word == s.arena[m].word && r.arena[m].edges == s.arena[m].edges + Gained(s, rule, m)
  {
    ExtendSpec(s, |s.arena|, Candidates(rule));
    ExtendWellFormed(s, |s.arena|, Candidates(rule));
    VocabularyIsKeys(s);
    VocabularyIsKeys(Applied(s, rule));
  }

  /**
   * Soundness and completeness over the store: node m gains an edge to node
   * v exactly when v's word is one step of the rule away from m's word.
   */
  lemma GainedSteps(s: Store, rule: Rule, m: nat, v: nat)
    requires WellFormed(s) && m < |s.arena| && v < |s.arena|
    ensures v in Gained(s, rule, m) <==> Step(rule, s.arena[m].word, s.arena[v].word)
  {
    var w, c := s.arena[m].word, s.arena[v].word;
    TargetsMembers(s.nodes, Candidates(rule)(w), v);
    CandidatesAreSteps(rule, w, c);
    if v in Gained(s, rule, m) {
      var c' :| c' in Candidates(rule)(w) && c' in s.nodes && s.nodes[c'] == v;
      assert c' == c;
    }
  }

  /**
   * Under the standard rule node m gains one edge to each word one
   * substitution away, and no other edge: no duplicate and no self-loop.
   */
  lemma StandardGainedOnce(s: Store, m: nat, v: nat)
    requires WellFormed(s) && m < |s.arena| && v < |s.arena|
    ensures multiset(Gained(s, Standard, m))[v]
      == if StandardRule.Substitution(s.arena[m].word, s.arena[v].word) then 1 else 0
    ensures v == m ==> v !in Gained(s, Standard, m)
  {
    var w, c := s.arena[m].word, s.arena[v].word;
    VocabularyIsKeys(s);
    TargetsCount(s.nodes, StandardRule.Substitutions(w), c);
    StandardRule.SubstitutionsCount(w, c);
    StandardRule.NoSelfSubstitution(w);
  }

  /**
   * Under the swap rule node m gains one edge to each other word that is an
   * exchange of two of its letters, and none to any other word; it gains a
   * self-loop once for each pair of equal letters in its word.
   */
  lemma SwapGainedOnce(s: Store, m: nat, v: nat)
    requires WellFormed(s) && m < |s.arena| && v < |s.arena|
    ensures var w, c := s.arena[m].word, s.arena[v].word;
      multiset(Gained(s, Swap, m))[v]
        == if v == m then SwapRule.RepeatedPairs(w) else if SwapRule.SwapOf(w, c) then 1 else 0
  {
    var w, c := s.arena[m].word, s.arena[v].word;
    VocabularyIsKeys(s);
    TargetsCount(s.nodes, SwapRule.Swaps(w), c);
    SwapRule.SwapsCount(w, c);
  }

  /**
   * Under the expand rule node m gains one edge to v for each position of
   * v's word whose letter, deleted, leaves m's word, and none to any other node.
   */
  lemma ExpandGainedCount(s: Store, m: nat, v: nat)
    requires WellFormed(s) && m < |s.arena| && v < |s.arena|
    ensures var w, c := s.arena[m].word, s.arena[v].word;
      multiset(Gained(s, Expand, m))[v] == ExpandRule.InsertionPoints(w, c, |w| + 1)
  {
    var w, c := s.arena[m].word, s.arena[v].word;
    VocabularyIsKeys(s);
    TargetsCount(s.nodes, ExpandRule.Insertions(w), c);
    ExpandRule.InsertionsCount(w, c);
  }

  /** The expand rule never connects a word to itself. */
  lemma ExpandNoSelfLoop(s: Store, m: nat)
    requires WellFormed(s) && m < |s.arena|
    ensures m !in Gained(s, Expand, m)
  {
    var w := s.arena[m].word;
    GainedSteps(s, Expand, m, m);
    if ExpandRule.InsertionOf(w, w) {
      ExpandRule.InsertionsMembers(w, w);
      ExpandRule.InsertionsLonger(w, w);
    }
  }

  /** The swap rule connects a word to itself exactly when a letter occurs twice in it. */
  lemma SwapSelfLoop(s: Store, m: nat)
    requires WellFormed(s) && m < |s.arena|
    ensures var w := s.arena[m].word;
      m in Gained(s, Swap, m) <==> exists i, j :: 0 <= i < j < |w| && w[i] == w[j]
  {
    var w := s.arena[m].word;
    GainedSteps(s, Swap, m, m);
    SwapRule.SwapsMembers(w, w);
    SwapRule.SwapSelfLoop(w);
  }
}
