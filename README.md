# word-path in Dafny

word-path finds word ladders. A ladder is a sequence of dictionary words in
which each word differs from the one before it by a single transformation.
The program keeps a dictionary: a hash map from each word to its graph node.
A node holds the word and an ordered list of outgoing edges. A *rule*
visits every word, tries each word its transformation produces, and asks
the dictionary to `connect` the two without creating any word. There are
three rules:

- **standard** replaces one letter with a different letter;
- **swap** exchanges the letters at two positions;
- **expand** inserts one letter.

`bfs(start, end)` then returns a shortest ladder between the two words.
It returns the empty sequence when either word is missing or `end` cannot
be reached.

This project models that core: the dictionary, its node operations, the
three rules and the breadth-first search. It proves what they compute.

- `graph.dfy` (module `WordGraph`): the graph as an *arena*, meaning a
  sequence of `Node(word, edges)` in which an edge is a node's index. The
  module also defines reachability along at most n edges, which is the
  measure the search is checked against.
- `dictionary.dfy` (module `Dictionaries`):
  - `Store`, the word-to-index map together with the arena, and the class
    `Dictionary`, whose fields `nodes` and `arena` the methods update in
    place;
  - a function for each operation, giving the new store in terms of the
    old one (`WithWord`, `WithLink`, `WithTargets`, `Extend`), with lemmas
    that state what it does;
  - `bfs`, modelled as imperative code whose loops carry the invariants of
    the breadth-first search.
- `alphabet.dfy`, `standard.dfy`, `swap.dfy`, `expand.dfy`: the rules.
  Each rule module has three kinds of member:
  - a function listing the words the rule tries for one word, in the order
    its loops try them;
  - lemmas for soundness, completeness and the call counts;
  - the loops themselves, as methods proved against that function.
- `rules.dfy` (module `Rules`): `dictionary::apply` over the three rules,
  and what applying a rule does to the whole store.

Pointers become arena indices. Each node has exactly one index, and the
map holds each word's index. "One node per word" is the invariant
`WellFormed`, which every operation preserves.

Two behaviours of the code are easy to miss, and the model keeps both:

- the swap rule gives a word one self-loop for each pair of equal letters
  in it. Exchanging two equal letters gives the word back, and `connect`
  links it to itself (src/rules/swap.hpp:18-20, src/dictionary.hpp:103-104);
- `connect` never deduplicates edges (src/dictionary.hpp:104). So the
  expand rule connects a word at least twice to the same neighbour when the
  inserted letter lands next to an equal letter (src/rules/expand.hpp:14-20):
  a run of k equal letters gives k + 1 connects, and "aa" is connected to
  "aaa" three times.

## Model

| member | source | states |
|---|---|---|
| WordGraph.ReachMonotone | src/dictionary.hpp:166-182 | what is reachable within m steps is reachable within any n >= m steps |
| WordGraph.LevelBound | src/dictionary.hpp:166-182 | a node at distance l that is reachable within n steps has l <= n |
| WordGraph.SuccInReach | src/dictionary.hpp:172-181 | following one edge out of a node reachable within n steps gives a node reachable within n + 1 steps |
| WordGraph.PathInReach | src/dictionary.hpp:166-182 | the end of a path with k edges is reachable from its start within k steps |
| WordGraph.PathStaysInClosed | src/dictionary.hpp:166-182 | a path that starts in a set of nodes closed under edges ends in that set |
| WordGraph.NextLevelSeen | src/dictionary.hpp:166-182 | once every node within n steps is done and its edges are seen, every node within n + 1 steps is seen |
| WordGraph.BoundedSetSize | src/dictionary.hpp:155 | a set of node indices below n has at most n elements, which bounds the seen set by the number of nodes |
| Alphabet.LetterSpelled | src/rules/standard.hpp:13 | the alphabet has 26 characters, and letter j is the alphabet's j-th character |
| Alphabet.LetterIsLetter | src/rules/standard.hpp:13 | a character lies between `a` and `z` exactly when it is one of the 26 letters |
| Dictionaries.Targets | src/dictionary.hpp:98-106 | a series of uncreating connects from one word appends at most one edge per call |
| Dictionaries.TargetsInIndex | src/dictionary.hpp:100-104 | every edge an uncreating connect appends points to the node of a word of the store |
| Dictionaries.TargetsSnoc | src/dictionary.hpp:98-106 | one more uncreating connect appends the candidate's node if the candidate is a word, and nothing otherwise |
| Dictionaries.TargetsMembers | src/dictionary.hpp:98-106 | a node is appended exactly when some candidate is a word whose node it is |
| Dictionaries.TargetsCount | src/dictionary.hpp:103-104 | with distinct nodes for distinct words, a word's node is appended once per occurrence of the word among the candidates; there is no deduplication |
| Dictionaries.Reverse | src/dictionary.hpp:193 | the reversed sequence has the same length and element i of it is element n-1-i of the input |
| Dictionaries.ExtendBackChain | src/dictionary.hpp:188-191 | one more predecessor step extends a backward chain of edges |
| Dictionaries.BackChainReversed | src/dictionary.hpp:193 | a backward chain read in reverse order is a forward path |
| Dictionaries.WordAdded | src/dictionary.hpp:68-74 | after `operator[](w)` the store is well formed and w has a node holding w; an existing word leaves the store unchanged; a new word gets the next index and no edges; every other word keeps its node |
| Dictionaries.EdgeAdded | src/dictionary.hpp:97 | `push_back` appends exactly one edge at the end of the node's list and changes nothing else |
| Dictionaries.LinkExisting | src/dictionary.hpp:98-106 | connect without creation is a no-op when either word is missing; otherwise it appends exactly one edge from a's node to b's, and no other node and no word changes |
| Dictionaries.LinkCreating | src/dictionary.hpp:96-97 | connect with creation leaves both words with nodes, keeps every old word's node and creates no other word |
| Dictionaries.LinkCreatingEdges | src/dictionary.hpp:96-97 | connect with creation appends b's node to a's edges even when that edge already exists; other old nodes are unchanged and any other new node has no edges |
| Dictionaries.LinkWellFormed | src/dictionary.hpp:94-107 | connect keeps the store well formed in both modes |
| Dictionaries.TargetsAdded | src/dictionary.hpp:98-106 | a series of uncreating connects from w changes only w's node, which gains the targets after its old edges |
| Dictionaries.NoTargets | src/dictionary.hpp:98-106 | before any connect the store is unchanged |
| Dictionaries.LinkNext | src/dictionary.hpp:98-106 | one more uncreating connect from w extends the series by that candidate |
| Dictionaries.ExtendSpec | src/rules/standard.hpp:14-28 | after a rule visits the first n nodes no word or index has changed; each visited node has its old edges followed by the targets of its own word's candidates, and the other nodes are unchanged |
| Dictionaries.ExtendWellFormed | src/rules/standard.hpp:14-28 | a rule's visit keeps the store well formed |
| Dictionaries.LoadedSpec | src/dictionary.hpp:42-47 | inserting a list of words gives a well-formed store whose words are exactly those in the list, none of them with edges |
| Dictionaries.VocabularyIsKeys | src/dictionary.hpp:203-204 | in a well-formed store the words held by nodes are exactly the map's keys, and distinct words have distinct nodes |
| Dictionaries.QueueSize | src/dictionary.hpp:163-181 | when the seen nodes are exactly the done ones plus the queued ones, with no node queued twice or both queued and done, the number seen is the number done plus the queue length |
| Dictionaries.Dictionary.LadderIsPath | src/dictionary.hpp:138-196 | a ladder of words is a path of the graph through the words' nodes |
| Dictionaries.Dictionary.constructor | src/dictionary.hpp:39-49 | a dictionary built from a list of words holds exactly those words, one node each and no edges |
| Dictionaries.Dictionary.GetOrCreate | src/dictionary.hpp:68-74 | `operator[]` returns the index of w's node, whose word is w, so that w exists afterwards; the new store is `WithWord` of the old one |
| Dictionaries.Dictionary.Exists | src/dictionary.hpp:79-81 | `exists(w)` holds if and only if some node holds w |
| Dictionaries.Dictionary.Connect | src/dictionary.hpp:94-107 | the new store is `WithLink` of the old one, whose behaviour `LinkExisting`, `LinkCreating` and `LinkCreatingEdges` give, and the store stays well formed |
| Dictionaries.Dictionary.PushEdge | src/dictionary.hpp:104 | appends one edge to node u |
| Dictionaries.Dictionary.InitialState | src/dictionary.hpp:159-165 | the start node alone, seen at level 0 with no predecessor and queued, satisfies the search invariant |
| Dictionaries.Dictionary.AdvanceLevel | src/dictionary.hpp:166-167 | once no node of level d is left in the queue, everything within d steps is done and everything within d + 1 steps is seen |
| Dictionaries.Dictionary.Dequeue | src/dictionary.hpp:167 | taking the front off the queue keeps the bookkeeping |
| Dictionaries.Dictionary.TakeFront | src/dictionary.hpp:166-168 | the dequeued node is at the current distance, and if it is end then end is not within fewer steps |
| Dictionaries.Dictionary.Discover | src/dictionary.hpp:177-180 | marking an unseen target seen, queueing it and recording its predecessor keeps the search invariant |
| Dictionaries.Dictionary.DiscoverBookkeeping | src/dictionary.hpp:177-180 | the seen set, the queue and the predecessor map stay consistent |
| Dictionaries.Dictionary.LinkToNew | src/dictionary.hpp:177-180 | the newly discovered node gets the current node, which has an edge to it and is one level lower, as a seen predecessor |
| Dictionaries.Dictionary.LinkOf | src/dictionary.hpp:179 | every seen node other than the start has a seen predecessor one level lower with an edge to it |
| Dictionaries.Dictionary.LinkKept | src/dictionary.hpp:177-180 | a node seen before keeps its predecessor link when a new node is discovered |
| Dictionaries.Dictionary.LinksKept | src/dictionary.hpp:177-180 | all nodes seen before keep their predecessor links when a new node is discovered |
| Dictionaries.Dictionary.DiscoverLinks | src/dictionary.hpp:179 | every seen node other than the start has a seen predecessor one level lower with an edge to it |
| Dictionaries.Dictionary.DiscoverLayers | src/dictionary.hpp:178 | the newly found node joins the queue at level d + 1, behind the nodes of level d |
| Dictionaries.Dictionary.DiscoverFrontier | src/dictionary.hpp:177-178 | a node not seen before lies farther than d steps from the start, so queueing it behind level d keeps the frontier invariant |
| Dictionaries.Dictionary.Bfs | src/dictionary.hpp:138-196 | a missing word yields the empty result; a non-empty result is a ladder from start to end, no ladder is shorter, and the result is empty only when no ladder exists; bfs(w, w) is [w]; the number of pushes onto the queue is at most the number of nodes |
| Dictionaries.Dictionary.Search | src/dictionary.hpp:152-182 | when end is found at level d it is not within d-1 steps; otherwise the done nodes contain start, are closed under edges and exclude end; predecessor links are consistent; the ghost count of pushes onto the queue equals the number of seen nodes, so it is at most the number of nodes |
| Dictionaries.Dictionary.Round | src/dictionary.hpp:166-182 | one turn of the loop keeps the search invariant; the dequeued front node joins done and nothing else does, the rest of the old queue stays at the front of the new one in order, and the queue, after losing its front, and the seen set each gain exactly `added` nodes; the number of seen nodes is the number done plus the queue length |
| Dictionaries.Dictionary.ClosedWhenEmpty | src/dictionary.hpp:166 | when the queue runs dry, the done nodes are closed under edges |
| Dictionaries.Dictionary.VisitEdges | src/dictionary.hpp:172-181 | after the scan every edge of the current node is seen and the search invariant holds; the old queue is a prefix of the new one, and the queue and the seen set grow by exactly `added` nodes, with no node queued twice; the seen set only grows, every node seen before keeps its predecessor, and every newly seen node has the current node as predecessor |
| Dictionaries.Dictionary.ExpandOne | src/dictionary.hpp:172-181 | a node whose edges are all seen is expanded |
| Dictionaries.Dictionary.ExpandedGrows | src/dictionary.hpp:177 | seeing more nodes keeps expanded nodes expanded |
| Dictionaries.Dictionary.WalkBack | src/dictionary.hpp:184-192 | walking the predecessors from end collects the words of a backward chain of level[end] + 1 nodes that ends at start |
| Dictionaries.Dictionary.ShortestLadder | src/dictionary.hpp:184-195 | the reversed walk is a ladder from start to end, and no ladder is shorter |
| Dictionaries.Dictionary.NoLadder | src/dictionary.hpp:166-182 | when the queue empties without finding end, no ladder joins start and end |
| StandardRule.ChangedAtUpdate | src/rules/standard.hpp:20-26 | a change at position i is w with one of the first j letters other than w[i] written at i |
| StandardRule.AtPositionCount | src/rules/standard.hpp:20-26 | a word tried at position i occurs exactly once among that position's tries |
| StandardRule.ChangedBeforeSome | src/rules/standard.hpp:18-27 | a change before position i is a change at some single position p < i |
| StandardRule.ChangedNotBefore | src/rules/standard.hpp:18-27 | a change at position i is no change at any earlier position |
| StandardRule.BeforeHits | src/rules/standard.hpp:18-27 | the tries before position i contain a word once per position at which that word is a change of w |
| StandardRule.HitsOnce | src/rules/standard.hpp:18-27 | a word is a change of w at most at one position |
| StandardRule.BeforeCount | src/rules/standard.hpp:18-27 | a word tried before position i occurs exactly once there |
| StandardRule.SubstitutionsCount | src/rules/standard.hpp:18-27 | each one-letter substitution of w is tried exactly once, and no other word is tried |
| StandardRule.SubstitutionMembers | src/rules/standard.hpp:18-27 | a word is tried if and only if it is a one-letter substitution of w |
| StandardRule.NoSelfSubstitution | src/rules/standard.hpp:21-23 | w itself is never tried, so the rule makes no self-loops |
| StandardRule.AtPositionLength | src/rules/standard.hpp:20-26 | position i tries 25 letters, or 26 when w's letter there is not in the alphabet |
| StandardRule.BeforeLength | src/rules/standard.hpp:18-27 | for a lower-case word, the positions before i make 25 i connect calls |
| StandardRule.SubstitutionsLength | src/rules/standard.hpp:18-27 | for a lower-case word the rule calls connect 25 times the word's length |
| StandardRule.LetterConnected | src/rules/standard.hpp:24-25 | connecting the copy with letter j at position i extends the tries by that word |
| StandardRule.ConnectWord | src/rules/standard.hpp:17-27 | the loops for one word give w's node the targets of its substitutions, in the order they are tried |
| StandardRule.ConnectLetters | src/rules/standard.hpp:19-26 | the inner loop over letters performs position i's tries |
| StandardRule.ConnectLetter | src/rules/standard.hpp:21-25 | one letter: w's own letter is skipped; any other letter is written into the copy and the copy is connected |
| StandardRule.Apply | src/rules/standard.hpp:10-29 | every node gains the targets of its word's substitutions |
| SwapRule.PartnersMembers | src/rules/swap.hpp:16-24 | the inner loop for position i tries exactly the exchanges of i with the later positions below j |
| SwapRule.SwapsBeforeMembers | src/rules/swap.hpp:14-25 | the positions before i try exactly the exchanges of such a position with a later one |
| SwapRule.SwapsMembers | src/rules/swap.hpp:14-25 | a word is tried if and only if it is w with two positions exchanged |
| SwapRule.SwapPermutes | src/rules/swap.hpp:18-19 | an exchange keeps the length and the multiset of letters |
| SwapRule.SwapsPermute | src/rules/swap.hpp:14-25 | every word tried is a permutation of w |
| SwapRule.SwapFixes | src/rules/swap.hpp:18-19 | an exchange gives back w exactly when the two letters are equal |
| SwapRule.SwapSelfLoop | src/rules/swap.hpp:14-25 | w is among its own tries exactly when one of its letters occurs twice |
| SwapRule.SwapPairUnique | src/rules/swap.hpp:18-19 | an exchange that changes w determines its pair of positions |
| SwapRule.PartnersHits | src/rules/swap.hpp:16-24 | position i's inner loop tries c once for each partner whose exchange gives c |
| SwapRule.SwapsBeforeHits | src/rules/swap.hpp:14-25 | the positions before i try c once for each pair whose exchange gives c |
| SwapRule.PartnerHitsOnce | src/rules/swap.hpp:16-24 | a word other than w is the exchange of i with one partner at most |
| SwapRule.PairHitsOnce | src/rules/swap.hpp:14-25 | a word other than w is the exchange of one pair at most |
| SwapRule.PartnerHitsSelf | src/rules/swap.hpp:16-24 | the partners of i whose exchange gives w back are exactly those with the same letter as i |
| SwapRule.PairHitsSelf | src/rules/swap.hpp:14-25 | the pairs whose exchange gives w back are exactly the pairs with equal letters |
| SwapRule.SwapsCount | src/rules/swap.hpp:14-25 | every exchange of two different letters is tried exactly once, and no other word except w; w itself is tried once for each pair of equal letters |
| SwapRule.SwapUndone | src/rules/swap.hpp:22-23 | writing the two letters back restores the word |
| SwapRule.PartnerConnected | src/rules/swap.hpp:18-20 | connecting the exchange of i and j extends the tries by that word |
| SwapRule.PartnersRange | src/rules/swap.hpp:16 | the inner loop begins with no partner tried and ends with every partner of i tried |
| SwapRule.PartnersLength | src/rules/swap.hpp:16-24 | position i tries |w| - i - 1 partners |
| SwapRule.SwapsBeforeLength | src/rules/swap.hpp:14-25 | the positions before i make i (2|w| - i - 1) / 2 connect calls |
| SwapRule.SwapsLength | src/rules/swap.hpp:14-25 | the rule calls connect |w| (|w| - 1) / 2 times per word |
| SwapRule.ConnectWord | src/rules/swap.hpp:12-25 | the loops for one word give w's node the targets of its exchanges, in the order they are tried |
| SwapRule.ConnectPartners | src/rules/swap.hpp:15-24 | the inner loop performs position i's tries, and the copy equals the word before each partner |
| SwapRule.ConnectPartner | src/rules/swap.hpp:18-23 | one partner: exchange, connect, exchange back; the copy is the word again |
| SwapRule.Apply | src/rules/swap.hpp:9-27 | every node gains the targets of its word's exchanges |
| ExpandRule.AtPointIndex | src/rules/expand.hpp:16-19 | insertion point i tries the 26 letters in alphabet order |
| ExpandRule.PointsBeforeIndex | src/rules/expand.hpp:14-20 | the points before i make 26 i calls, and call 26 p + l inserts letter l at point p |
| ExpandRule.InsertionsIndex | src/rules/expand.hpp:14-20 | the rule calls connect 26 (|w| + 1) times, and call 26 p + l inserts letter l at point p |
| ExpandRule.InsertionsMembers | src/rules/expand.hpp:14-20 | a word is tried if and only if it is w with one letter inserted |
| ExpandRule.InsertionsLonger | src/rules/expand.hpp:14-20 | every word tried is one letter longer, so the rule makes no self-loop |
| ExpandRule.InsertedTwice | src/rules/expand.hpp:14-20 | inserting a letter next to an equal letter tries the same word at two calls, so it is connected at least twice |
| ExpandRule.InsertedAt | src/rules/expand.hpp:15-17 | inserting letter l at point p gives c exactly when c has letter l at p and deleting it there gives w back |
| ExpandRule.AtPointHits | src/rules/expand.hpp:16-19 | insertion point p tries c once if c's letter at p is among the letters tried so far and its deletion leaves w, and otherwise never |
| ExpandRule.PointsBeforeHits | src/rules/expand.hpp:14-20 | the points before i try c once for each position below i whose letter, deleted from c, leaves w |
| ExpandRule.InsertionsCount | src/rules/expand.hpp:14-20 | the rule tries c exactly once for each position of c whose letter, deleted, leaves w |
| ExpandRule.ThreeInsertions | src/rules/expand.hpp:14-20 | "aa" expanded tries "aaa" three times, one per insertion point |
| ExpandRule.SpacedCopy | src/rules/expand.hpp:15-17 | writing a letter over the space of the spaced copy gives the insertion |
| ExpandRule.InsertionConnected | src/rules/expand.hpp:17-18 | connecting the copy extends the tries by that insertion |
| ExpandRule.ConnectWord | src/rules/expand.hpp:13-20 | the loops for one word give w's node the targets of its insertions, in the order they are tried |
| ExpandRule.ConnectLetters | src/rules/expand.hpp:15-19 | the inner loop performs insertion point i's tries |
| ExpandRule.Apply | src/rules/expand.hpp:9-22 | every node gains the targets of its word's insertions |
| Rules.CandidatesAreSteps | src/dictionary.hpp:114-115 | each rule tries exactly the words its transformation yields |
| Rules.Apply | src/dictionary.hpp:114-115 | `apply(rule)` gives the store `Applied(old, rule)` and keeps it well formed |
| Rules.AppliedShape | src/dictionary.hpp:114-115 | applying a rule creates and removes no words, keeps every node's word and old edges, and appends exactly the gained edges |
| Rules.GainedSteps | src/dictionary.hpp:114-115 | node m gains an edge to node v exactly when v's word is one step of the rule from m's word |
| Rules.StandardGainedOnce | src/rules/standard.hpp:10-29 | under the standard rule a node gains exactly one edge to each one-letter substitution, no duplicate and no self-loop |
| Rules.SwapGainedOnce | src/rules/swap.hpp:9-27 | under the swap rule a node gains exactly one edge to each other word that exchanges two of its letters and none to any other word; it gains one self-loop for each pair of equal letters in its word |
| Rules.ExpandGainedCount | src/rules/expand.hpp:9-22 | under the expand rule node m gains one edge to node v for each position of v's word whose letter, deleted, leaves m's word, and there are no others |
| Rules.ExpandNoSelfLoop | src/rules/expand.hpp:9-22 | the expand rule never gives a node a self-loop |
| Rules.SwapSelfLoop | src/rules/swap.hpp:9-27 | the swap rule gives a node a self-loop exactly when its word has a repeated letter |

## Left out

- Reading the dictionary file is not modelled: no stream, no line reading and no trimming of the last character, and no message about the word count. Instead, the constructor takes a list of words and inserts each one with `operator[]`.
- Dictionaries.Dictionary.constructor: uses `operator[]`, so a word given twice keeps its first node. The source's `nodes[word] = new node` replaces and leaks that node, which makes no difference for a store that has no edges yet.
- `print_path` is left out. It is console output around `bfs`.
- The destructor is left out, and so is the memory it frees. Nodes are arena entries and are never freed.
- The private, unimplemented copy constructor, default constructor and assignment operator are left out, since nothing calls them.
- `begin`/`end` are left out. The rules visit nodes in arena order, whereas the source visits them in the hash map's unspecified order. Each node's gain depends only on its own word, so the final store does not depend on this order (`Dictionaries.ExtendSpec`).
- `bfs` follows edges in insertion order, as the source does. The hash set and hash map of the search become a Dafny `set` and `map`.
- Dictionaries.Dictionary.Bfs: the number of pushes onto the queue is a ghost out-parameter, because the source never reports it. It is bounded by the number of nodes. `Search`, `Round` and `VisitEdges` tie that count to the pushes onto `q`: each push adds one node to both the queue and the seen set.
- Dictionaries.Dictionary.Connect: with creation, the source may evaluate its two `operator[]` calls in either order. The model creates a's node first. Only the new node indices depend on this order.
- The program's driver (`driver.cpp`) is left out. It applies the standard, expand and swap rules in that order, printing a progress message before each, and then reads pairs of words from standard input and prints a path for each; all of that is console input and output.
- C++ `size_t` widths are left out; lengths here are unbounded naturals.
- Characters are Dafny `char`, and the model's rules work character by character. The source's `std::string` holds bytes, and its rules work on those bytes. The two agree when every character of a word is ASCII (code points below 128), since UTF-8 writes each of those as one byte of the same value, as for plain ASCII word lists. A character from 128 to 255, such as `é` (U+00E9), already takes two bytes in UTF-8. With multi-byte UTF-8 text they disagree: the model's standard rule links "café" to "cafe", but the source does not, because "café" is five bytes and "cafe" four.
