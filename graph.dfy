/**
 * The word graph as an arena: node i holds its word and its ordered list of
 * outgoing edges, each edge being the arena index of the target node.
 * This module also defines reachability by levels, which specifies the
 * breadth-first search of the dictionary.
 */
module WordGraph {

  /** One node of the graph: the word and the outgoing edges, in insertion order. */
  datatype Node = Node(word: string, edges: seq<nat>)

  /** No edge dangles: every edge names a node of the arena. */
  ghost predicate EdgesInRange(g: seq<Node>)
  {
    forall u, k :: 0 <= u < |g| && 0 <= k < |g[u].edges| ==> g[u].edges[k] < |g|
  }

  /** A sequence of node indices following stored edges, each one to the next. */
  ghost predicate IsPath(g: seq<Node>, p: seq<nat>)
  {
    && (forall i :: 0 <= i < |p| ==> p[i] < |g|)
    && (forall i :: 0 <= i < |p| - 1 ==> p[i + 1] in g[p[i]].edges)
  }

  /** The nodes one edge away from some node of s. */
  ghost function Succ(g: seq<Node>, s: set<nat>): set<nat>
  {
    set u, k | u in s && u < |g| && 0 <= k < |g[u].edges| :: g[u].edges[k]
  }

  /** The nodes reachable from src along at most n edges. */
  ghost function Reach(g: seq<Node>, src: nat, n: nat): set<nat>
  {
    if n == 0 then {src} else Reach(g, src, n - 1) + Succ(g, Reach(g, src, n - 1))
  }

  /** v is at distance exactly l from src: reachable in l steps and not in fewer. */
  ghost predicate InLevel(g: seq<Node>, src: nat, v: nat, l: nat)
  {
    v in Reach(g, src, l) && (l > 0 ==> v !in Reach(g, src, l - 1))
  }

  lemma {:induction false} ReachMonotone(g: seq<Node>, src: nat, m: nat, n: nat)
    requires m <= n
    ensures Reach(g, src, m) <= Reach(g, src, n)
  {
    if m < n {
      ReachMonotone(g, src, m, n - 1);
    }
  }

  /** A node reachable from src lies at some level no larger than the bound. */
  lemma LevelBound(g: seq<Node>, src: nat, v: nat, l: nat, n: nat)
    requires InLevel(g, src, v, l)
    requires v in Reach(g, src, n)
    ensures l <= n
  {
    if n < l {
      ReachMonotone(g, src, n, l - 1);
    }
  }

  /** Following an edge out of a node within n steps stays within n + 1 steps. */
  lemma SuccInReach(g: seq<Node>, src: nat, n: nat, u: nat, k: nat)
    requires u in Reach(g, src, n) && u < |g| && k < |g[u].edges|
    ensures g[u].edges[k] in Reach(g, src, n + 1)
  {
    assert g[u].edges[k] in Succ(g, Reach(g, src, n));
  }

  /** The last node of a path of |p| - 1 edges is reachable within |p| - 1 steps of its first. */
  lemma {:induction false} PathInReach(g: seq<Node>, p: seq<nat>)
    requires IsPath(g, p) && |p| > 0
    ensures p[|p| - 1] in Reach(g, p[0], |p| - 1)
  {
    if |p| > 1 {
      var init := p[..|p| - 1];
      assert IsPath(g, init);
      PathInReach(g, init);
      var u := p[|p| - 2];
      var x := p[|p| - 1];
      assert x in g[u].edges;
      var k :| 0 <= k < |g[u].edges| && g[u].edges[k] == x;
      SuccInReach(g, p[0], |p| - 2, u, k);
    }
  }

  /** A path that starts in a set closed under edges never leaves it. */
  lemma {:induction false} PathStaysInClosed(g: seq<Node>, s: set<nat>, p: seq<nat>)
    requires IsPath(g, p) && |p| > 0 && p[0] in s
    requires forall u, k :: u in s && u < |g| && 0 <= k < |g[u].edges| ==> g[u].edges[k] in s
    ensures p[|p| - 1] in s
  {
    if |p| > 1 {
      var init := p[..|p| - 1];
      assert IsPath(g, init);
      PathStaysInClosed(g, s, init);
      var u := p[|p| - 2];
      var x := p[|p| - 1];
      assert x in g[u].edges;
      var k :| 0 <= k < |g[u].edges| && g[u].edges[k] == x;
    }
  }

  /** Once every node within n steps is processed and its edges are seen, every node within n + 1 steps is seen. */
  lemma NextLevelSeen(g: seq<Node>, src: nat, n: nat, done: set<nat>, seen: set<nat>)
    requires Reach(g, src, n) <= done
    requires forall u, k :: u in done && u < |g| && 0 <= k < |g[u].edges| ==> g[u].edges[k] in seen
    requires done <= seen
    ensures Reach(g, src, n + 1) <= seen
  {
    forall x | x in Succ(g, Reach(g, src, n)) ensures x in seen {
      var u, k :| u in Reach(g, src, n) && u < |g| && 0 <= k < |g[u].edges| && g[u].edges[k] == x;
    }
  }

  /** A set of indices below n has at most n elements. */
  lemma {:induction false} BoundedSetSize(s: set<nat>, n: nat)
    requires forall v :: v in s ==> v < n
    ensures |s| <= n
  {
    if n > 0 {
      var rest := s - {n - 1};
      BoundedSetSize(rest, n - 1);
      assert s <= rest + {n - 1};
    } else {
      assert s == {};
    }
  }
}
