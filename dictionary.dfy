/**
 * The dictionary: a store that maps each word to its single node, the edge
 * operations the rules use, and the breadth-first shortest-ladder search.
 */
module Dictionaries {
  import opened WordGraph

  /**
   * The arena indices that `connect(w, c)` without creation appends to w's
   * edges, in order, when called once for each candidate c of cands: a
   * candidate that is not a word of the store adds nothing.
   */
  function Targets(index: map<string, nat>, cands: seq<string>): (t: seq<nat>)
    ensures |t| <= |cands|
  {
    if cands == [] then []
    else
      var c := cands[|cands| - 1];
      Targets(index, cands[..|cands| - 1]) + (if c in index then [index[c]] else [])
  }

  /** Every target is the node of a word of the store. */
  lemma {:induction false} TargetsInIndex(index: map<string, nat>, cands: seq<string>)
    ensures forall m :: 0 <= m < |Targets(index, cands)| ==> Targets(index, cands)[m] in index.Values
  {
    if cands != [] {
      TargetsInIndex(index, cands[..|cands| - 1]);
    }
  }

  /** One more candidate appends at most one more target. */
  lemma TargetsSnoc(index: map<string, nat>, cands: seq<string>, c: string)
    ensures Targets(index, cands + [c]) == Targets(index, cands) + (if c in index then [index[c]] else [])
  {
    assert (cands + [c])[..|cands|] == cands;
  }

  /** A target is exactly the index of a candidate that is a word of the store. */
  lemma {:induction false} TargetsMembers(index: map<string, nat>, cands: seq<string>, t: nat)
    ensures t in Targets(index, cands) <==> exists c :: c in cands && c in index && index[c] == t
  {
    if cands != [] {
      var init := cands[..|cands| - 1];
      var c := cands[|cands| - 1];
      assert cands == init + [c];
      TargetsMembers(index, init, t);
      TargetsSnoc(index, init, c);
    }
  }

  /** Distinct words of the store have distinct nodes. */
  ghost predicate Injective(index: map<string, nat>)
  {
    forall a, b :: a in index && b in index && a != b ==> index[a] != index[b]
  }

  /**
   * Every occurrence of a word among the candidates appends one edge to its
   * node, and nothing else does: connect never deduplicates.
   */
  lemma {:induction false} TargetsCount(index: map<string, nat>, cands: seq<string>, w: string)
    requires Injective(index) && w in index
    ensures multiset(Targets(index, cands))[index[w]] == multiset(cands)[w]
  {
    if cands != [] {
      var init := cands[..|cands| - 1];
      var c := cands[|cands| - 1];
      assert cands == init + [c];
      TargetsCount(index, init, w);
      TargetsSnoc(index, init, c);
    }
  }

  /** Reverses a sequence, as `std::reverse` does in place. */
  function Reverse<T>(s: seq<T>): (r: seq<T>)
    ensures |r| == |s|
    ensures forall i :: 0 <= i < |s| ==> r[i] == s[|s| - 1 - i]
  {
    if s == [] then [] else Reverse(s[1..]) + [s[0]]
  }

  /** A chain of nodes, each reached by an edge from the next one: a path walked backwards. */
  ghost predicate BackChain(g: seq<Node>, chain: seq<nat>)
  {
    && (forall i :: 0 <= i < |chain| ==> chain[i] < |g|)
    && (forall i :: 0 <= i < |chain| - 1 ==> chain[i] in g[chain[i + 1]].edges)
  }

  lemma ExtendBackChain(g: seq<Node>, chain: seq<nat>, v: nat)
    requires BackChain(g, chain) && v < |g|
    requires chain != [] ==> chain[|chain| - 1] in g[v].edges
    ensures BackChain(g, chain + [v])
  {
    var chain' := chain + [v];
    forall i | 0 <= i < |chain'| - 1 ensures chain'[i] in g[chain'[i + 1]].edges {
      assert chain'[i] == chain[i];
      if i < |chain| - 1 {
        assert chain'[i + 1] == chain[i + 1];
      }
    }
  }

  /** A backward chain read forwards is a path. */
  lemma BackChainReversed(g: seq<Node>, chain: seq<nat>)
    requires BackChain(g, chain)
    ensures IsPath(g, Reverse(chain))
  {
    var r := Reverse(chain);
    forall i | 0 <= i < |r| - 1 ensures r[i + 1] in g[r[i]].edges {
      assert r[i] == chain[|chain| - 1 - i] && r[i + 1] == chain[|chain| - 1 - i - 1];
    }
  }

  /** The state of a dictionary: each word to the arena index of its node, and the nodes. */
  datatype Store = Store(nodes: map<string, nat>, arena: seq<Node>)

  /** One node per word, each node named by its own word, no dangling edge. */
  ghost predicate WellFormed(s: Store)
  {
    && (forall w :: w in s.nodes ==> s.nodes[w] < |s.arena| && s.arena[s.nodes[w]].word == w)
    && (forall i :: 0 <= i < |s.arena| ==> s.arena[i].word in s.nodes && s.nodes[s.arena[i].word] == i)
    && EdgesInRange(s.arena)
  }

  /** The store after `operator[](w)`: unchanged when w has a node, else with a new edgeless node for w. */
  function WithWord(s: Store, w: string): Store
  {
    if w in s.nodes then s else Store(s.nodes[w := |s.arena|], s.arena + [Node(w, [])])
  }

  /** The store after `edges.push_back` on node u with target v. */
  function WithEdge(s: Store, u: nat, v: nat): Store
    requires u < |s.arena|
  {
    Store(s.nodes, s.arena[u := s.arena[u].(edges := s.arena[u].edges + [v])])
  }

  /**
   * The store after `connect(a, b, create)`. With creation, a's node is
   * fetched or made first and then b's; without it, nothing happens unless
   * both words already have nodes.
   */
  function WithLink(s: Store, a: string, b: string, create: bool): Store
    requires WellFormed(s)
  {
    if create then
      WordAdded(s, a);
      var s1 := WithWord(s, a);
      WordAdded(s1, b);
      var s2 := WithWord(s1, b);
      WithEdge(s2, s2.nodes[a], s2.nodes[b])
    else if a in s.nodes && b in s.nodes then
      WithEdge(s, s.nodes[a], s.nodes[b])
    else
      s
  }

  /**
   * `operator[](w)` leaves w with a node named w; an existing word keeps its
   * node and the store is unchanged; a new word gets the next index and no
   * edges, and every other word keeps its node.
   */
  lemma WordAdded(s: Store, w: string)
    requires WellFormed(s)
    ensures var r := WithWord(s, w);
      && WellFormed(r)
      && w in r.nodes && r.nodes[w] < |r.arena| && r.arena[r.nodes[w]].word == w
      && (forall x :: x in r.nodes <==> x in s.nodes || x == w)
      && (forall x :: x in s.nodes ==> r.nodes[x] == s.nodes[x])
      && |s.arena| <= |r.arena| && (forall i :: 0 <= i < |s.arena| ==> r.arena[i] == s.arena[i])
      && (w in s.nodes ==> r == s)
      && (w !in s.nodes ==> r.nodes[w] == |s.arena| && r.arena[r.nodes[w]].edges == [])
  {
  }

  /** Pushing an edge adds exactly one edge, at the end of u's list, and changes nothing else. */
  lemma EdgeAdded(s: Store, u: nat, v: nat)
    requires WellFormed(s) && u < |s.arena| && v < |s.arena|
    ensures var r := WithEdge(s, u, v);
      && WellFormed(r)
      && r.nodes == s.nodes && |r.arena| == |s.arena|
      && r.arena[u].word == s.arena[u].word && r.arena[u].edges == s.arena[u].edges + [v]
      && (forall i :: 0 <= i < |s.arena| && i != u ==> r.arena[i] == s.arena[i])
  {
    var r := WithEdge(s, u, v);
    assert forall i :: 0 <= i < |r.arena| ==> r.arena[i].word == s.arena[i].word;
  }

  /**
   * `connect` without creation: a no-op when a or b has no node, otherwise
   * exactly one edge from a's node to b's appended; the words never change.
   */
  lemma LinkExisting(s: Store, a: string, b: string)
    requires WellFormed(s)
    ensures var r := WithLink(s, a, b, false);
      && WellFormed(r) && r.nodes == s.nodes && |r.arena| == |s.arena|
      && (a !in s.nodes || b !in s.nodes ==> r == s)
      && (a in s.nodes && b in s.nodes ==>
            && r.arena[s.nodes[a]].edges == s.arena[s.nodes[a]].edges + [s.nodes[b]]
            && forall i :: 0 <= i < |s.arena| && i != s.nodes[a] ==> r.arena[i] == s.arena[i])
  {
    if a in s.nodes && b in s.nodes {
      EdgeAdded(s, s.nodes[a], s.nodes[b]);
    }
  }

  /**
   * `connect` with creation: afterwards both words have nodes and every old
   * word keeps its node; only new nodes are added.
   */
  lemma LinkCreating(s: Store, a: string, b: string)
    requires WellFormed(s)
    ensures var r := WithLink(s, a, b, true);
      && (forall x :: x in r.nodes <==> x in s.nodes || x == a || x == b)
      && (forall x :: x in s.nodes ==> r.nodes[x] == s.nodes[x])
      && |s.arena| <= |r.arena|
  {
    WordAdded(s, a);
    var s1 := WithWord(s, a);
    WordAdded(s1, b);
    var s2 := WithWord(s1, b);
    EdgeAdded(s2, s2.nodes[a], s2.nodes[b]);
  }

  /** `connect`, in either mode, keeps the store well formed. */
  lemma LinkWellFormed(s: Store, a: string, b: string, create: bool)
    requires WellFormed(s)
    ensures WellFormed(WithLink(s, a, b, create))
  {
    if create {
      WordAdded(s, a);
      var s1 := WithWord(s, a);
      WordAdded(s1, b);
      var s2 := WithWord(s1, b);
      EdgeAdded(s2, s2.nodes[a], s2.nodes[b]);
    } else if a in s.nodes && b in s.nodes {
      EdgeAdded(s, s.nodes[a], s.nodes[b]);
    }
  }

  /**
   * `connect` with creation appends b's node to a's edges, also when that
   * edge is already there; the other old nodes are unchanged and any new
   * node other than a's has no edges.
   */
  lemma LinkCreatingEdges(s: Store, a: string, b: string)
    requires WellFormed(s)
    ensures var r := WithLink(s, a, b, true);
      && a in r.nodes && b in r.nodes && r.nodes[a] < |r.arena| && |s.arena| <= |r.arena|
      && r.arena[r.nodes[a]].edges == (if a in s.nodes then s.arena[s.nodes[a]].edges else []) + [r.nodes[b]]
      && (forall i :: 0 <= i < |s.arena| && i != r.nodes[a] ==> r.arena[i] == s.arena[i])
      && (forall i :: |s.arena| <= i < |r.arena| && i != r.nodes[a] ==> r.arena[i].edges == [])
  {
    WordAdded(s, a);
    var s1 := WithWord(s, a);
    WordAdded(s1, b);
    var s2 := WithWord(s1, b);
    EdgeAdded(s2, s2.nodes[a], s2.nodes[b]);
  }

  /**
   * The store after `connect(w, c)` without creation for each candidate c in
   * turn: w's edges gain the targets of the candidates that are words.
   */
  function WithTargets(s: Store, w: string, cands: seq<string>): Store
  {
    if w in s.nodes && s.nodes[w] < |s.arena| then
      var u := s.nodes[w];
      Store(s.nodes, s.arena[u := s.arena[u].(edges := s.arena[u].edges + Targets(s.nodes, cands))])
    else
      s
  }

  /** Only w's node changes, and only by gaining those targets after its old edges. */
  lemma TargetsAdded(s: Store, w: string, cands: seq<string>)
    requires WellFormed(s) && w in s.nodes
    ensures var r := WithTargets(s, w, cands);
      && WellFormed(r) && r.nodes == s.nodes && |r.arena| == |s.arena|
      && r.arena[s.nodes[w]] == Node(w, s.arena[s.nodes[w]].edges + Targets(s.nodes, cands))
      && forall m :: 0 <= m < |s.arena| && m != s.nodes[w] ==> r.arena[m] == s.arena[m]
  {
    TargetsInIndex(s.nodes, cands);
  }

  /** With no candidates yet nothing has changed. */
  lemma NoTargets(s: Store, w: string)
    requires WellFormed(s) && w in s.nodes
    ensures WithTargets(s, w, []) == s
  {
    var u := s.nodes[w];
    assert s.arena[u].edges + [] == s.arena[u].edges;
    assert s.arena[u := s.arena[u].(edges := s.arena[u].edges)] == s.arena;
  }

  /** One more `connect(w, c)` extends the candidates by c. */
  lemma LinkNext(s: Store, w: string, cands: seq<string>, c: string)
    requires WellFormed(s) && w in s.nodes
    ensures WellFormed(WithTargets(s, w, cands))
    ensures WithLink(WithTargets(s, w, cands), w, c, false) == WithTargets(s, w, cands + [c])
  {
    TargetsAdded(s, w, cands);
    TargetsSnoc(s.nodes, cands, c);
    var u := s.nodes[w];
    var e := s.arena[u].edges;
    var t := Targets(s.nodes, cands);
    if c in s.nodes {
      assert e + t + [s.nodes[c]] == e + (t + [s.nodes[c]]);
      assert s.arena[u := Node(w, e + t)][u := Node(w, e + t + [s.nodes[c]])]
        == s.arena[u := Node(w, e + (t + [s.nodes[c]]))];
    } else {
      assert t + [] == t;
    }
  }

  /**
   * The store after a rule has visited the first n nodes of the arena,
   * connecting each such node's word to the candidates that `cands` gives
   * for it.
   */
  function Extend(s: Store, n: nat, cands: string -> seq<string>): Store
    requires n <= |s.arena|
  {
    if n == 0 then s
    else
      var w := s.arena[n - 1].word;
      WithTargets(Extend(s, n - 1, cands), w, cands(w))
  }

  /**
   * A rule's visit changes no word and no node index; the nodes visited
   * gain the targets of their word's candidates, in order, after their old
   * edges, and the others are unchanged. Each node's result depends only on
   * its own word, so the order of the visits does not matter.
   */
  lemma {:induction false} ExtendSpec(s: Store, n: nat, cands: string -> seq<string>)
    requires WellFormed(s) && n <= |s.arena|
    ensures var r := Extend(s, n, cands);
      && r.nodes == s.nodes && |r.arena| == |s.arena|
      && (forall m :: 0 <= m < n ==> r.arena[m] == Node(s.arena[m].word, s.arena[m].edges + Targets(s.nodes, cands(s.arena[m].word))))
      && (forall m :: n <= m < |s.arena| ==> r.arena[m] == s.arena[m])
  {
    if n > 0 {
      ExtendSpec(s, n - 1, cands);
      var p := Extend(s, n - 1, cands);
      var w := s.arena[n - 1].word;
      var r := Extend(s, n, cands);
      assert p.nodes[w] == n - 1;
      assert r == Store(p.nodes, p.arena[n - 1 := p.arena[n - 1].(edges := p.arena[n - 1].edges + Targets(p.nodes, cands(w)))]);
    }
  }

  /** A rule's visit keeps the store well formed. */
  lemma ExtendWellFormed(s: Store, n: nat, cands: string -> seq<string>)
    requires WellFormed(s) && n <= |s.arena|
    ensures WellFormed(Extend(s, n, cands))
  {
    ExtendSpec(s, n, cands);
    var r := Extend(s, n, cands);
    forall u, k | 0 <= u < |r.arena| && 0 <= k < |r.arena[u].edges|
      ensures r.arena[u].edges[k] < |r.arena|
    {
      var e := s.arena[u].edges;
      if k >= |e| {
        TargetsInIndex(s.nodes, cands(s.arena[u].word));
        assert r.arena[u].edges[k] == Targets(s.nodes, cands(s.arena[u].word))[k - |e|];
      }
    }
  }

  /** The store that `operator[]` on each word in turn builds from an empty one. */
  function Loaded(words: seq<string>): Store
  {
    if words == [] then Store(map[], [])
    else WithWord(Loaded(words[..|words| - 1]), words[|words| - 1])
  }

  /** Loading gives a well-formed store whose words are exactly those given, none with edges. */
  lemma {:induction false} LoadedSpec(words: seq<string>)
    ensures WellFormed(Loaded(words))
    ensures forall x :: x in Loaded(words).nodes <==> x in words
    ensures forall i :: 0 <= i < |Loaded(words).arena| ==> Loaded(words).arena[i].edges == []
  {
    if words != [] {
      var init, w := words[..|words| - 1], words[|words| - 1];
      assert words == init + [w];
      LoadedSpec(init);
      WordAdded(Loaded(init), w);
    }
  }

  /** The words that have a node. */
  ghost function Vocabulary(s: Store): set<string>
  {
    set i | 0 <= i < |s.arena| :: s.arena[i].word
  }

  /** In a well-formed store the words with nodes are the keys, and distinct words have distinct nodes. */
  lemma VocabularyIsKeys(s: Store)
    requires WellFormed(s)
    ensures Vocabulary(s) == s.nodes.Keys
    ensures Injective(s.nodes)
  {
    forall w | w in s.nodes ensures w in Vocabulary(s) {
      assert s.arena[s.nodes[w]].word == w;
    }
  }

  /**
   * When seen is exactly what is done or queued, with no node queued twice
   * and none both queued and done, its size is the number of done nodes
   * plus the length of the queue.
   */
  lemma {:induction false} QueueSize(q: seq<nat>, seen: set<nat>, done: set<nat>)
    requires forall v :: v in done ==> v in seen
    requires forall i :: 0 <= i < |q| ==> q[i] in seen
    requires forall v :: v in seen ==> v in done || v in q
    requires forall i, j :: 0 <= i < j < |q| ==> q[i] != q[j]
    requires forall i :: 0 <= i < |q| ==> q[i] !in done
    ensures |seen| == |done| + |q|
  {
    if q == [] {
      assert seen == done;
    } else {
      var x, rest := q[|q| - 1], q[..|q| - 1];
      forall v | v in seen - {x} ensures v in done || v in rest {
        if v !in done {
          var i :| 0 <= i < |q| && q[i] == v;
          assert i < |q| - 1;
        }
      }
      QueueSize(rest, seen - {x}, done);
    }
  }

  class Dictionary {
    /** The store: each word to the arena index of its node. */
    var nodes: map<string, nat>
    /** The nodes, addressed by index; an edge is the index of its target. */
    var arena: seq<Node>

    ghost function State(): Store
      reads this
    {
      Store(nodes, arena)
    }

    ghost predicate Valid()
      reads this
    {
      WellFormed(State())
    }

    /** A ladder: words of the store, each with a stored edge to the next. */
    ghost predicate IsLadder(p: seq<string>)
      reads this
    {
      && (forall i :: 0 <= i < |p| ==> p[i] in nodes && nodes[p[i]] < |arena|)
      && (forall i :: 0 <= i < |p| - 1 ==> nodes[p[i + 1]] in arena[nodes[p[i]]].edges)
    }

    ghost predicate IsLadderBetween(p: seq<string>, start: string, end: string)
      reads this
    {
      IsLadder(p) && |p| > 0 && p[0] == start && p[|p| - 1] == end
    }

    /** The node indices of a ladder. */
    ghost function Indices(p: seq<string>): (ip: seq<nat>)
      reads this
      requires forall i :: 0 <= i < |p| ==> p[i] in nodes
      ensures |ip| == |p| && forall i :: 0 <= i < |p| ==> ip[i] == nodes[p[i]]
    {
      if p == [] then [] else Indices(p[..|p| - 1]) + [nodes[p[|p| - 1]]]
    }

    /** A ladder is a path of the graph through its words' nodes. */
    lemma LadderIsPath(p: seq<string>)
      requires Valid() && IsLadder(p)
      ensures IsPath(arena, Indices(p))
    {
    }

    /**
     * A store holding exactly the given words, each with no edges; a word
     * given twice keeps a single node.
     */
    constructor (words: seq<string>)
      ensures Valid()
      ensures State() == Loaded(words)
      ensures forall w :: w in nodes <==> w in words
      ensures forall i :: 0 <= i < |arena| ==> arena[i].edges == []
    {
      nodes := map[];
      arena := [];
      new;
      for m := 0 to |words|
        invariant State() == Loaded(words[..m])
      {
        LoadedSpec(words[..m]);
        var n := GetOrCreate(words[m]);
        assert words[..m + 1][..m] == words[..m];
      }
      assert words[..|words|] == words;
      LoadedSpec(words);
    }

    /** `operator[]`: the node of w, created with no edges when w is new. */
    method GetOrCreate(w: string) returns (n: nat)
      requires Valid()
      modifies this
      ensures State() == WithWord(old(State()), w)
      ensures Valid() && w in nodes && n == nodes[w] && n < |arena| && arena[n].word == w
    {
      WordAdded(State(), w);
      if w in nodes {
        n := nodes[w];
      } else {
        n := |arena|;
        nodes := nodes[w := n];
        arena := arena + [Node(w, [])];
      }
    }

    /** `exists`: whether w has a node; reading it changes nothing. */
    function Exists(w: string): (b: bool)
      reads this
      requires Valid()
      ensures b <==> w in Vocabulary(State())
    {
      VocabularyIsKeys(State());
      w in nodes
    }

    /** `connect(a, b, create)`: the store becomes the one `WithLink` describes. */
    method Connect(a: string, b: string, create: bool)
      requires Valid()
      modifies this
      ensures State() == WithLink(old(State()), a, b, create)
      ensures Valid()
    {
      if create {
        var ia := GetOrCreate(a);
        var ib := GetOrCreate(b);
        PushEdge(ia, ib);
      } else {
        if a in nodes && b in nodes {
          PushEdge(nodes[a], nodes[b]);
        }
      }
      LinkExisting(old(State()), a, b);
      LinkCreating(old(State()), a, b);
    }

    /** `edges.push_back` on node u: appends one edge to v, at the end. */
    method PushEdge(u: nat, v: nat)
      requires Valid() && u < |arena| && v < |arena|
      modifies this
      ensures State() == WithEdge(old(State()), u, v)
      ensures Valid()
    {
      EdgeAdded(State(), u, v);
      arena := arena[u := arena[u].(edges := arena[u].edges + [v])];
    }

    /** Every seen node is a node of the arena; the start is seen, at level 0 and without predecessor. */
    ghost predicate Rooted(startNode: nat, seen: set<nat>, discovered: map<nat, int>, level: map<nat, nat>)
      reads this
    {
      && (forall v :: v in seen ==> v < |arena|)
      && startNode in seen && startNode in level && startNode in discovered
      && level[startNode] == 0 && discovered[startNode] == -1
    }

    /**
     * Seen is what is done or queued, and every queued node has a predecessor
     * entry; no node is queued twice, and no queued node is done.
     */
    ghost predicate QueueAccount(q: seq<nat>, seen: set<nat>, discovered: map<nat, int>, done: set<nat>)
    {
      && (forall v {:trigger v in done} :: v in done ==> v in seen)
      && (forall i :: 0 <= i < |q| ==> q[i] in seen && q[i] in discovered)
      && (forall v {:trigger v in seen} :: v in seen ==> v in done || v in q)
      && (forall i, j :: 0 <= i < j < |q| ==> q[i] != q[j])
      && (forall i :: 0 <= i < |q| ==> q[i] !in done)
    }

    ghost predicate Bookkeeping(startNode: nat, q: seq<nat>, seen: set<nat>, discovered: map<nat, int>,
                                level: map<nat, nat>, done: set<nat>)
      reads this
    {
      Rooted(startNode, seen, discovered, level) && QueueAccount(q, seen, discovered, done)
    }

    /** Every seen node but the start was discovered along a stored edge from a seen node one level lower. */
    ghost predicate PredecessorLinks(startNode: nat, seen: set<nat>, discovered: map<nat, int>, level: map<nat, nat>)
      reads this
    {
      forall v {:trigger discovered[v]} :: v in seen && v != startNode ==>
        && v in discovered && v in level
        && 0 <= discovered[v] < |arena| && discovered[v] in seen
        && discovered[v] as nat in discovered && discovered[v] as nat in level
        && v in arena[discovered[v]].edges && level[discovered[v] as nat] + 1 == level[v]
    }

    /** The queue holds q1 nodes of level d and then nodes of level d + 1. */
    ghost predicate Layers(q: seq<nat>, level: map<nat, nat>, d: nat, q1: nat)
    {
      && q1 <= |q|
      && forall i :: 0 <= i < |q| ==> q[i] in level && level[q[i]] == if i < q1 then d else d + 1
    }

    /**
     * Every node within d steps of the start is seen, every node within
     * d - 1 steps is done, and the queued nodes behind the first q1 lie
     * more than d steps away.
     */
    ghost predicate Frontier(startNode: nat, q: seq<nat>, seen: set<nat>, done: set<nat>, d: nat, q1: nat)
      reads this
    {
      && (forall i :: q1 <= i < |q| ==> q[i] !in Reach(arena, startNode, d))
      && Reach(arena, startNode, d) <= seen
      && (d > 0 ==> Reach(arena, startNode, d - 1) <= done)
    }

    /** The state of the search between two steps. */
    ghost predicate SearchState(startNode: nat, q: seq<nat>, seen: set<nat>, discovered: map<nat, int>,
                                level: map<nat, nat>, done: set<nat>, d: nat, q1: nat)
      reads this
    {
      && Bookkeeping(startNode, q, seen, discovered, level, done)
      && PredecessorLinks(startNode, seen, discovered, level)
      && Layers(q, level, d, q1)
      && Frontier(startNode, q, seen, done, d, q1)
    }

    /** The search starts with the start node alone, queued at level 0. */
    lemma InitialState(startNode: nat)
      requires startNode < |arena|
      ensures SearchState(startNode, [startNode], {startNode}, map[startNode := -1], map[startNode := 0], {}, 0, 1)
      ensures Expanded({}, {startNode})
    {
    }

    /** Every edge out of a node of done leads to a seen node. */
    ghost predicate Expanded(done: set<nat>, seen: set<nat>)
      reads this
    {
      forall u, k :: u in done && u < |arena| && 0 <= k < |arena[u].edges| ==> arena[u].edges[k] in seen
    }

    /** All nodes of level d have left the queue: the next level becomes current. */
    lemma AdvanceLevel(startNode: nat, q: seq<nat>, seen: set<nat>, discovered: map<nat, int>, done: set<nat>, d: nat)
      requires QueueAccount(q, seen, discovered, done)
      requires Frontier(startNode, q, seen, done, d, 0)
      requires Expanded(done, seen)
      ensures Frontier(startNode, q, seen, done, d + 1, |q|)
    {
      forall v | v in Reach(arena, startNode, d) ensures v in done {
      }
      NextLevelSeen(arena, startNode, d, done, seen);
    }

    /** Taking the front of the queue, a node of level d. */
    lemma Dequeue(startNode: nat, q: seq<nat>, seen: set<nat>, discovered: map<nat, int>,
                  level: map<nat, nat>, done: set<nat>, d: nat, q1: nat)
      requires SearchState(startNode, q, seen, discovered, level, done, d, q1)
      requires q1 > 0
      ensures q[0] in seen && q[0] in discovered && level[q[0]] == d && q[0] < |arena|
      ensures SearchState(startNode, q[1..], seen, discovered, level, done + {q[0]}, d, q1 - 1)
    {
    }

    /**
     * Taking the front of a non-empty queue. When no node of level d is left
     * in it, level d + 1 becomes current first; the front has the level
     * returned, and a node that is not done, such as the end, lies farther
     * than one step less than that level.
     */
    lemma TakeFront(startNode: nat, q: seq<nat>, seen: set<nat>, discovered: map<nat, int>,
                    level: map<nat, nat>, done: set<nat>, d: nat, q1: nat, far: nat) returns (d': nat, q1': nat)
      requires SearchState(startNode, q, seen, discovered, level, done, d, q1)
      requires Expanded(done, seen) && q != [] && far !in done
      ensures d' == if q1 == 0 then d + 1 else d
      ensures q1' > 0 && q[0] in seen && q[0] in discovered && q[0] in level && level[q[0]] == d' && q[0] < |arena|
      ensures d' > 0 ==> far !in Reach(arena, startNode, d' - 1)
      ensures SearchState(startNode, q[1..], seen, discovered, level, done + {q[0]}, d', q1' - 1)
    {
      d', q1' := d, q1;
      if q1 == 0 {
        AdvanceLevel(startNode, q, seen, discovered, done, d);
        d', q1' := d + 1, |q|;
      }
      Dequeue(startNode, q, seen, discovered, level, done, d', q1');
    }

    /** Discovering e along an edge of current, a node of level d: e gets level d + 1. */
    lemma Discover(startNode: nat, q: seq<nat>, seen: set<nat>, discovered: map<nat, int>,
                   level: map<nat, nat>, done: set<nat>, d: nat, q1: nat, current: nat, k: nat)
      requires SearchState(startNode, q, seen, discovered, level, done, d, q1)
      requires current in done && current in level && current in discovered && level[current] == d
      requires EdgesInRange(arena)
      requires k < |arena[current].edges| && arena[current].edges[k] !in seen
      ensures var e := arena[current].edges[k];
        SearchState(startNode, q + [e], seen + {e}, discovered[e := current], level[e := d + 1], done, d, q1)
    {
      var e := arena[current].edges[k];
      DiscoverBookkeeping(startNode, q, seen, discovered, level, done, current, e, d + 1);
      DiscoverLinks(startNode, seen, discovered, level, current, k);
      DiscoverLayers(q, seen, level, d, q1, e);
      DiscoverFrontier(startNode, q, seen, done, d, q1, e);
    }

    lemma DiscoverBookkeeping(startNode: nat, q: seq<nat>, seen: set<nat>, discovered: map<nat, int>,
                              level: map<nat, nat>, done: set<nat>, current: nat, e: nat, l: nat)
      requires Bookkeeping(startNode, q, seen, discovered, level, done)
      requires e !in seen && e < |arena|
      ensures Bookkeeping(startNode, q + [e], seen + {e}, discovered[e := current], level[e := l], done)
    {
    }

    /** The newly discovered node e gets current, one level lower and with an edge to e, as predecessor. */
    lemma LinkToNew(startNode: nat, seen: set<nat>, discovered: map<nat, int>, level: map<nat, nat>,
                    current: nat, k: nat)
      requires current in seen && current in level && current in discovered && current < |arena|
      requires k < |arena[current].edges| && arena[current].edges[k] !in seen
      ensures var e := arena[current].edges[k];
        var discovered', level' := discovered[e := current], level[e := level[current] + 1];
        && e in discovered' && e in level' && 0 <= discovered'[e] < |arena| && discovered'[e] in seen + {e}
        && discovered'[e] as nat in discovered' && discovered'[e] as nat in level'
        && e in arena[discovered'[e]].edges && level'[discovered'[e] as nat] + 1 == level'[e]
    {
      var e := arena[current].edges[k];
      assert current != e;
    }

    /** The predecessor link of one seen node other than the start. */
    lemma LinkOf(startNode: nat, seen: set<nat>, discovered: map<nat, int>, level: map<nat, nat>, v: nat)
      requires PredecessorLinks(startNode, seen, discovered, level)
      requires v in seen && v != startNode
      ensures v in discovered && v in level && 0 <= discovered[v] < |arena| && discovered[v] in seen
      ensures discovered[v] as nat in discovered && discovered[v] as nat in level
      ensures v in arena[discovered[v]].edges && level[discovered[v] as nat] + 1 == level[v]
    {
    }

    /** A node seen before keeps its predecessor link when e is discovered. */
    lemma LinkKept(startNode: nat, seen: set<nat>, discovered: map<nat, int>, level: map<nat, nat>,
                   current: nat, k: nat, v: nat)
      requires PredecessorLinks(startNode, seen, discovered, level)
      requires current in level && current < |arena| && k < |arena[current].edges| && arena[current].edges[k] !in seen
      requires v in seen && v != startNode
      ensures var e := arena[current].edges[k];
        var discovered', level' := discovered[e := current], level[e := level[current] + 1];
        && v in discovered' && v in level' && 0 <= discovered'[v] < |arena| && discovered'[v] in seen + {e}
        && discovered'[v] as nat in discovered' && discovered'[v] as nat in level'
        && v in arena[discovered'[v]].edges && level'[discovered'[v] as nat] + 1 == level'[v]
    {
      var e := arena[current].edges[k];
      LinkOf(startNode, seen, discovered, level, v);
      assert discovered[v] != e;
    }

    /** The nodes seen before keep their predecessor links when e is discovered. */
    lemma LinksKept(startNode: nat, seen: set<nat>, discovered: map<nat, int>, level: map<nat, nat>,
                    current: nat, k: nat)
      requires PredecessorLinks(startNode, seen, discovered, level)
      requires current in level && current < |arena| && k < |arena[current].edges| && arena[current].edges[k] !in seen
      ensures var e := arena[current].edges[k];
        PredecessorLinks(startNode, seen, discovered[e := current], level[e := level[current] + 1])
    {
      forall v | v in seen && v != startNode {
        LinkKept(startNode, seen, discovered, level, current, k, v);
      }
    }

    /** Discovering e from current keeps every seen node's predecessor link, e's included. */
    lemma DiscoverLinks(startNode: nat, seen: set<nat>, discovered: map<nat, int>, level: map<nat, nat>,
                        current: nat, k: nat)
      requires PredecessorLinks(startNode, seen, discovered, level)
      requires startNode in seen && current in seen && current in level && current in discovered && current < |arena|
      requires k < |arena[current].edges| && arena[current].edges[k] !in seen
      ensures var e := arena[current].edges[k];
        PredecessorLinks(startNode, seen + {e}, discovered[e := current], level[e := level[current] + 1])
    {
      LinksKept(startNode, seen, discovered, level, current, k);
      LinkToNew(startNode, seen, discovered, level, current, k);
    }

    lemma DiscoverLayers(q: seq<nat>, seen: set<nat>, level: map<nat, nat>, d: nat, q1: nat, e: nat)
      requires Layers(q, level, d, q1)
      requires forall i :: 0 <= i < |q| ==> q[i] in seen
      requires e !in seen
      ensures Layers(q + [e], level[e := d + 1], d, q1)
    {
      var q' := q + [e];
      forall i | 0 <= i < |q'| ensures q'[i] in level[e := d + 1] && level[e := d + 1][q'[i]] == if i < q1 then d else d + 1 {
        if i < |q| {
          assert q'[i] == q[i];
        }
      }
    }

    lemma DiscoverFrontier(startNode: nat, q: seq<nat>, seen: set<nat>, done: set<nat>, d: nat, q1: nat, e: nat)
      requires Frontier(startNode, q, seen, done, d, q1) && q1 <= |q|
      requires e !in seen
      ensures Frontier(startNode, q + [e], seen + {e}, done, d, q1)
    {
      var q' := q + [e];
      forall i | q1 <= i < |q'| ensures q'[i] !in Reach(arena, startNode, d) {
        if i < |q| {
          assert q'[i] == q[i];
        }
      }
    }

    /**
     * `bfs(start, end)`: a shortest ladder from start to end, or the empty
     * sequence when either word is missing or end cannot be reached. The
     * ghost result counts the nodes put on the queue.
     */
    method Bfs(start: string, end: string) returns (path: seq<string>, ghost enqueued: nat)
      requires Valid()
      ensures start !in nodes || end !in nodes ==> path == []
      ensures path != [] ==> IsLadderBetween(path, start, end)
      ensures path != [] ==> forall p :: IsLadderBetween(p, start, end) ==> |path| <= |p|
      ensures path == [] ==> forall p :: !IsLadderBetween(p, start, end)
      ensures start in nodes && start == end ==> path == [start]
      ensures enqueued <= |arena|
    {
      if start !in nodes || end !in nodes {
        return [], 0;
      }
      var startNode, endNode := nodes[start], nodes[end];
      var found, discovered, seen;
      ghost var level, done, d;
      found, discovered, seen, level, done, d, enqueued := Search(startNode, endNode);
      if found {
        var results;
        ghost var chain;
        results, chain := WalkBack(startNode, endNode, seen, discovered, level);
        path := Reverse(results);
        ShortestLadder(path, start, end, chain, d);
      } else {
        path := [];
        NoLadder(start, end, done);
      }
      if start == end {
        assert IsLadderBetween([start], start, end);
      }
    }

    /**
     * The main loop of `bfs`: nodes leave the queue in the order they joined
     * it, and the loop stops when end leaves it or the queue runs dry. When
     * end is found at level d, it was not within d - 1 steps; otherwise the
     * done nodes hold the start, are closed under edges and miss end. The
     * ghost result counts the pushes onto the queue: each push marks one more
     * node seen and no seen node is queued again, so there are exactly as
     * many pushes as seen nodes, and no more than nodes.
     */
    method Search(startNode: nat, endNode: nat)
      returns (found: bool, discovered: map<nat, int>, seen: set<nat>, ghost level: map<nat, nat>,
               ghost done: set<nat>, ghost d: nat, ghost enqueued: nat)
      requires EdgesInRange(arena) && startNode < |arena| && endNode < |arena|
      ensures Rooted(startNode, seen, discovered, level) && PredecessorLinks(startNode, seen, discovered, level)
      ensures found ==> endNode in seen && endNode in level && endNode in discovered && level[endNode] == d
      ensures found && d > 0 ==> endNode !in Reach(arena, startNode, d - 1)
      ensures !found ==> startNode in done && endNode !in done && Expanded(done, done)
      ensures enqueued == |seen| && enqueued <= |arena|
    {
      var q: seq<nat> := [startNode];
      seen := {startNode};
      discovered := map[startNode := -1];
      found := false;
      // The queue holds q1 nodes at distance d, then nodes at distance d + 1.
      d := 0;
      ghost var q1: nat := 1;
      level := map[startNode := 0];
      done := {};
      enqueued := 1;
      InitialState(startNode);
      while q != []
        invariant SearchState(startNode, q, seen, discovered, level, done, d, q1)
        invariant Expanded(done, seen) && endNode !in done && !found
        invariant enqueued == |seen| && |seen| <= |arena|
        decreases |arena| - |seen|, |q|
      {
        ghost var added;
        found, q, seen, discovered, level, done, d, q1, added := Round(startNode, endNode, q, seen, discovered, level, done, d, q1);
        enqueued := enqueued + added;
        BoundedSetSize(seen, |arena|);
        if found {
          return;
        }
      }
      ClosedWhenEmpty(done, seen);
    }

    /**
     * One turn of the main loop: the front of the queue leaves it; unless it
     * is end, it is done and its edges are scanned.
     */
    method Round(startNode: nat, endNode: nat, q0: seq<nat>, seen0: set<nat>, discovered0: map<nat, int>,
                 ghost level0: map<nat, nat>, ghost done0: set<nat>, ghost d0: nat, ghost q10: nat)
      returns (found: bool, q: seq<nat>, seen: set<nat>, discovered: map<nat, int>, ghost level: map<nat, nat>,
               ghost done: set<nat>, ghost d: nat, ghost q1: nat, ghost added: nat)
      requires EdgesInRange(arena)
      requires SearchState(startNode, q0, seen0, discovered0, level0, done0, d0, q10)
      requires Expanded(done0, seen0) && endNode !in done0 && q0 != []
      ensures SearchState(startNode, q, seen, discovered, level, done, d, q1)
      ensures !found ==> Expanded(done, seen) && endNode !in done
      ensures found ==> endNode in seen && endNode in level && endNode in discovered && level[endNode] == d
      ensures found && d > 0 ==> endNode !in Reach(arena, startNode, d - 1)
      ensures |seen| == |seen0| + added
      ensures |done| == |done0| + 1 && |q| + 1 == |q0| + added
      ensures done == done0 + {q0[0]} && q[..|q0| - 1] == q0[1..]
      ensures added == 0 ==> q == q0[1..]
      ensures |seen| == |done| + |q|
    {
      d, q1 := TakeFront(startNode, q0, seen0, discovered0, level0, done0, d0, q10, endNode);
      var current := q0[0];
      q, q1 := q0[1..], q1 - 1;
      seen, discovered, level, done, added := seen0, discovered0, level0, done0 + {current}, 0;
      found := current == endNode;
      if !found {
        q, seen, discovered, level, added := VisitEdges(current, startNode, q, seen, discovered, level, done, d, q1);
      }
      QueueSize(q, seen, done);
    }

    /** With the queue empty, seen and done coincide, so done is closed under edges. */
    lemma ClosedWhenEmpty(done: set<nat>, seen: set<nat>)
      requires Expanded(done, seen)
      requires forall v {:trigger v in seen} :: v in seen ==> v in done
      ensures Expanded(done, done)
    {
    }

    /**
     * The scan of the edges of current, just taken off the queue: each
     * target not yet seen is marked seen, given current as predecessor and
     * queued at the back. The nodes already seen keep their predecessors.
     * The ghost result counts the nodes queued.
     */
    method VisitEdges(current: nat, startNode: nat, q0: seq<nat>, seen0: set<nat>, discovered0: map<nat, int>,
                      ghost level0: map<nat, nat>, ghost done: set<nat>, ghost d: nat, ghost q1: nat)
      returns (q: seq<nat>, seen: set<nat>, discovered: map<nat, int>, ghost level: map<nat, nat>, ghost added: nat)
      requires EdgesInRange(arena)
      requires SearchState(startNode, q0, seen0, discovered0, level0, done, d, q1)
      requires Expanded(done - {current}, seen0)
      requires current in done && current in level0 && current in discovered0 && level0[current] == d
      ensures SearchState(startNode, q, seen, discovered, level, done, d, q1)
      ensures Expanded(done, seen)
      ensures |seen| == |seen0| + added && |q| == |q0| + added
      ensures added == 0 ==> q == q0
      ensures q[..|q0|] == q0 && seen0 <= seen
      ensures forall v :: v in seen0 && v in discovered0 ==> v in discovered && discovered[v] == discovered0[v]
      ensures forall v :: v in seen && v !in seen0 ==> v in discovered && discovered[v] == current
    {
      q, seen, discovered, level, added := q0, seen0, discovered0, level0, 0;
      var edges := arena[current].edges;
      for k := 0 to |edges|
        invariant SearchState(startNode, q, seen, discovered, level, done, d, q1)
        invariant Expanded(done - {current}, seen)
        invariant forall m :: 0 <= m < k ==> edges[m] in seen
        invariant current in level && current in discovered && level[current] == d
        invariant |seen| == |seen0| + added && |q| == |q0| + added
        invariant added == 0 ==> q == q0
        invariant q[..|q0|] == q0 && seen0 <= seen
        invariant forall v :: v in seen0 && v in discovered0 ==> v in discovered && discovered[v] == discovered0[v]
        invariant forall v :: v in seen && v !in seen0 ==> v in discovered && discovered[v] == current
      {
        var e := edges[k];
        if e !in seen {
          Discover(startNode, q, seen, discovered, level, done, d, q1, current, k);
          ExpandedGrows(done - {current}, seen, e);
          seen := seen + {e};
          q := q + [e];
          discovered := discovered[e := current];
          level := level[e := d + 1];
          added := added + 1;
        }
      }
      ExpandOne(done, seen, current);
    }

    /** Once the edges of current are all seen, current counts as expanded too. */
    lemma ExpandOne(done: set<nat>, seen: set<nat>, current: nat)
      requires Expanded(done - {current}, seen)
      requires current < |arena| && forall m :: 0 <= m < |arena[current].edges| ==> arena[current].edges[m] in seen
      ensures Expanded(done, seen)
    {
    }

    /** Seeing one more node keeps every expanded node expanded. */
    lemma ExpandedGrows(done: set<nat>, seen: set<nat>, e: nat)
      requires Expanded(done, seen)
      ensures Expanded(done, seen + {e})
    {
    }

    /**
     * The walk from end back along the predecessor links to the start,
     * collecting the words met: the chain of nodes it visits, read
     * backwards, is a path of level[end] edges from the start.
     */
    method WalkBack(startNode: nat, endNode: nat, ghost seen: set<nat>, discovered: map<nat, int>,
                    ghost level: map<nat, nat>)
      returns (results: seq<string>, ghost chain: seq<nat>)
      requires Rooted(startNode, seen, discovered, level)
      requires PredecessorLinks(startNode, seen, discovered, level)
      requires endNode in seen && endNode in level && endNode in discovered
      ensures |chain| == level[endNode] + 1
      ensures chain[0] == endNode && chain[|chain| - 1] == startNode
      ensures BackChain(arena, chain) && IsPath(arena, Reverse(chain))
      ensures |results| == |chain| && forall i :: 0 <= i < |chain| ==> results[i] == arena[chain[i]].word
    {
      results, chain := [], [];
      var current: int := endNode;
      while current != -1
        invariant current == -1 || (current in seen && current in level && current in discovered)
        invariant chain == [] ==> current == endNode
        invariant chain != [] ==> chain[0] == endNode
        invariant BackChain(arena, chain)
        invariant |results| == |chain| && forall i :: 0 <= i < |chain| ==> results[i] == arena[chain[i]].word
        invariant current != -1 && chain != [] ==> chain[|chain| - 1] in arena[current].edges
        invariant current != -1 ==> |chain| + level[current as nat] == level[endNode]
        invariant current == -1 ==> chain != [] && chain[|chain| - 1] == startNode && |chain| == level[endNode] + 1
        decreases if current == -1 then 0 else level[current as nat] + 1
      {
        ExtendBackChain(arena, chain, current);
        results := results + [arena[current].word];
        chain := chain + [current];
        current := discovered[current];
      }
      BackChainReversed(arena, chain);
    }

    /**
     * The words along a path of d edges from start to end, when end is
     * farther than d - 1 steps from start, form a shortest ladder.
     */
    lemma ShortestLadder(path: seq<string>, start: string, end: string, chain: seq<nat>, d: nat)
      requires Valid() && start in nodes && end in nodes
      requires |chain| == d + 1 && chain[0] == nodes[end] && chain[|chain| - 1] == nodes[start]
      requires IsPath(arena, Reverse(chain))
      requires |path| == |chain| && forall i :: 0 <= i < |chain| ==> path[i] == arena[Reverse(chain)[i]].word
      requires d > 0 ==> nodes[end] !in Reach(arena, nodes[start], d - 1)
      ensures IsLadderBetween(path, start, end)
      ensures forall p :: IsLadderBetween(p, start, end) ==> |path| <= |p|
    {
      var nodesPath := Reverse(chain);
      assert forall i :: 0 <= i < |path| ==> path[i] == arena[nodesPath[i]].word;
      assert IsLadder(path);
      forall p | IsLadderBetween(p, start, end) ensures |path| <= |p| {
        LadderIsPath(p);
        PathInReach(arena, Indices(p));
        if |p| - 1 < d {
          ReachMonotone(arena, nodes[start], |p| - 1, d - 1);
        }
      }
    }

    /** With the start inside a set of nodes closed under edges and end outside it, no ladder joins them. */
    lemma NoLadder(start: string, end: string, done: set<nat>)
      requires Valid() && start in nodes && end in nodes
      requires nodes[start] in done && nodes[end] !in done
      requires Expanded(done, done)
      ensures forall p :: !IsLadderBetween(p, start, end)
    {
      forall p | IsLadderBetween(p, start, end) ensures false {
        LadderIsPath(p);
        PathStaysInClosed(arena, done, Indices(p));
      }
    }
  }
}
