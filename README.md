# Graph ADTs: a verified model

This project models the two graph classes of a small Python data-structures
library and proves what their methods compute.

- `UndirectedGraph` (ud_graph.py) keeps an insertion-ordered dictionary
  from string labels to neighbour lists. It has no loops and no duplicate
  edges.
- `DirectedGraph` (d_graph.py) keeps a dense integer adjacency matrix over
  the vertices `0..v_count-1`. A cell of 0 means "no edge"; a positive cell
  is the edge's weight.

Both classes are Dafny classes whose fields the methods update in place.

- `UndirectedGraph` has `keys` (the dictionary's insertion order) and `adj`
  (the dictionary itself).
- `DirectedGraph` has `vCount` and `m`.

Every state-changing method of `UndirectedGraph` is proved to produce the
state that a function on graph values describes. For example, `AddEdge`
ends in `AddEdgeTo(old(State()), u, v)`. Lemmas then prove, about those
functions, the class invariant and the exact change in adjacency. The class
invariant is: no loop, no duplicate entry, every neighbour a key, and
symmetric adjacency.

The traversals (`dfs`, `bfs` of both classes) are pinned to reference "run"
functions that replay their loops step by step. That fixes the exact visiting
order, which is alphabetical for the undirected graph and by index for the
directed one. The lemmas then prove what a finished traversal means:
- it starts at the start vertex;
- it lists each vertex once;
- each vertex after the first is entered from an earlier one;
- with no end vertex, it lists exactly the vertices reachable from the start.

`count_connected_components` is proved to count rounds of breadth-first
search. Each round is the full set of labels reachable from its first label,
and no two rounds overlap.

`has_cycle` is proved to answer True exactly when the graph has a simple
cycle of at least three labels.

Behaviour as written that the model keeps:

- `get_edges` of the undirected graph copies the dictionary shallowly. While
  listing edges, it removes each label from the lists of its later-inserted
  neighbours, and those are the real lists. Afterwards every list keeps only
  the neighbours inserted after its own label. The method is a `modifies`
  method whose new state is `Pruned(old(State()))`. `PrunedBreaksSymmetry`
  and `PrunedWellFormedIffEdgeless` show that the class invariant survives
  the call only on a graph without edges.
- `dfs` and `bfs` of the directed graph run their search only when no end
  vertex is given. When an end vertex is given and the start is valid, the
  `elif v_end is not None` branch is taken and the search in the `else`
  branch is skipped. The method then falls off its end and returns Python
  `None`, modelled as `Option.None`.
- `count_connected_components` picks the next start with
  `list(set(...))[0]`. That choice depends on hash order, so the model leaves
  it open (`:|`). Every choice is proved to give the same guarantees.

Modules:

- `Seqs`: list filtering, `list.remove` and supporting facts.
- `LabelOrder`: Python string order and `sorted`.
- `UdSpec`: undirected graph values and their mutations.
- `UdEdges`: `get_edges`.
- `UdSearch`: walks and the traversals.
- `UdComponents`: connected components.
- `UdCycle`: cycle detection.
- `UdGraph`: the class.
- `DSpec`: directed graph values and traversals.
- `DGraph`: the class.

## Model

| member | source | states |
|---|---|---|
| `UdGraph.UndirectedGraph.constructor` | ud_graph.py:20-30 | With no edge list the dictionary is empty; otherwise it is `Build(edges)`, the result of `add_edge` on each pair in order, and the class invariant holds |
| `UdSpec.Build` | ud_graph.py:20-30 | Adding the edges of any list one by one to an empty graph yields a well-formed graph |
| `UdSpec.BuildLinks` | ud_graph.py:20-30 | After construction `a` lists `b` exactly when `a != b` and `(a, b)` or `(b, a)` is in the edge list |
| `UdSpec.BuildKeys` | ud_graph.py:20-30 | After construction the labels are exactly the endpoints of the non-loop pairs |
| `UdGraph.UndirectedGraph.AddVertex` | ud_graph.py:43-50 | The new state is `AddVertexTo` of the old one |
| `UdSpec.AddVertexTo` | ud_graph.py:43-50 | A new label is appended to the key order with an empty list; an existing label changes nothing; other lists are untouched; both invariants are kept |
| `UdGraph.UndirectedGraph.AddEdge` | ud_graph.py:52-72 | The new state is `AddEdgeTo` of the old one, and the class invariant is kept |
| `UdSpec.AddEdgeTo` | ud_graph.py:52-72 | A self-loop changes nothing; otherwise both endpoints become labels, they are adjacent afterwards, and every other list is unchanged |
| `UdSpec.AddEdgeShape` | ud_graph.py:52-72 | New labels go at the end of the key order, `u` before `v`, and the key order is unchanged when both are labels already; a new endpoint gets a one-element list and an existing one gets the other appended; a pair already adjacent in either direction leaves the graph unchanged |
| `UdSpec.AddEdgeConsistent` | ud_graph.py:52-72 | `add_edge` keeps keys distinct and matching the dictionary, no label in its own list, and every neighbour a label |
| `UdSpec.AddEdgeDistinct` | ud_graph.py:52-72 | On a well-formed graph `add_edge` never lists a neighbour twice (the duplicate check of lines 68-69) |
| `UdSpec.AddEdgeSymmetric` | ud_graph.py:52-72 | On a well-formed graph `add_edge` keeps adjacency symmetric |
| `UdSpec.AddEdgeWellFormed` | ud_graph.py:52-72 | `add_edge` keeps the whole class invariant |
| `UdSpec.AddEdgeLinks` | ud_graph.py:52-72 | After `add_edge(u, v)` with `u != v`, `a` lists `b` exactly when it did before or `{a, b}` is `{u, v}` |
| `UdSpec.AddEdgeIdempotent` | ud_graph.py:52-72 | Adding the same edge twice gives the same graph as adding it once |
| `UdGraph.UndirectedGraph.RemoveEdge` | ud_graph.py:74-84 | The new state is `RemoveEdgeFrom` of the old one, and the class invariant is kept |
| `UdSpec.RemoveEdgeFrom` | ud_graph.py:74-84 | Key order and labels never change; unless `u` and `v` list each other nothing changes; lists other than theirs are untouched; consistency is kept |
| `UdSpec.RemoveFirstMembership` | ud_graph.py:83-84 | `list.remove(x)` on a duplicate-free list leaves exactly the other entries, still duplicate-free |
| `UdSpec.RemoveEdgeLinks` | ud_graph.py:74-84 | On a well-formed graph `remove_edge(v, u)` keeps the invariant, and `a` lists `b` afterwards exactly when it did before and `{a, b}` is not `{u, v}` |
| `UdGraph.UndirectedGraph.RemoveVertex` | ud_graph.py:86-96 | The new state is `RemoveVertexFrom` of the old one, built by removing `v` from each neighbour's list in turn, and the class invariant is kept |
| `UdSpec.RemoveVertexFrom` | ud_graph.py:86-96 | `v` is no longer a label and every other label stays; an absent `v` changes nothing |
| `UdSpec.StripLists` | ud_graph.py:93-94 | The loop over `v`'s neighbours leaves other lists alone, and on a duplicate-free neighbour list removes the first `v` from each neighbour's list |
| `UdSpec.RemoveVertexLists` | ud_graph.py:86-96 | On a well-formed graph every remaining list is the old one without `v`, still duplicate-free |
| `UdSpec.RemoveVertexKeys` | ud_graph.py:86-96 | The key order loses `v` and keeps the order of the others |
| `UdSpec.RemoveVertexDistinct` | ud_graph.py:86-96 | No remaining list holds a label twice |
| `UdSpec.RemoveVertexSymmetric` | ud_graph.py:86-96 | Adjacency stays symmetric |
| `UdSpec.RemoveVertexEdge` | ud_graph.py:86-96 | A remaining adjacency is still listed in both directions |
| `UdSpec.RemoveVertexNoLoops` | ud_graph.py:86-96 | No remaining label lists itself |
| `UdSpec.RemoveVertexWellFormed` | ud_graph.py:86-96 | `remove_vertex` keeps the class invariant |
| `UdSpec.RemoveVertexLinks` | ud_graph.py:86-96 | Afterwards `a` lists `b` exactly when it did before and neither is `v` |
| `UdGraph.UndirectedGraph.GetVertices` | ud_graph.py:98-105 | Returns the labels in insertion order; each label once |
| `UdGraph.UndirectedGraph.GetEdges` | ud_graph.py:107-126 | Returns `EdgeList` of the old graph and leaves the lists `Pruned` |
| `UdGraph.UndirectedGraph.VisitKey` | ud_graph.py:115-121 | One pass of the outer loop: lists `(key, n)` for each neighbour still in the key's list, and removes the key from each such neighbour's list |
| `UdEdges.Pairs` | ud_graph.py:119-120 | The tuples built for one key pair it with each entry of its list, in order |
| `UdEdges.EdgeListMembership` | ud_graph.py:107-126 | On a well-formed graph `(a, b)` is listed exactly when `a` and `b` are adjacent and `a` was inserted first; each edge appears in exactly one orientation |
| `UdEdges.EdgesUpToDistinct` | ud_graph.py:107-126 | No tuple is listed twice |
| `UdEdges.EdgesUpToMembership` | ud_graph.py:115-121 | After the first `i` keys, `(a, b)` is listed exactly when `a` is among them and `b` is a neighbour of `a` not inserted before `a` |
| `UdEdges.Pruned` | ud_graph.py:112-121 | The pruned dictionary has the same labels and key order |
| `UdEdges.PrunedConsistent` | ud_graph.py:112-121 | The pruned dictionary still keeps every neighbour a label and no label in its own list |
| `UdEdges.PrunedBreaksSymmetry` | ud_graph.py:112-121 | For every edge, afterwards only the earlier-inserted endpoint still lists the other |
| `UdEdges.PrunedWellFormedIffEdgeless` | ud_graph.py:112-121 | The class invariant survives `get_edges` exactly when the graph has no edge |
| `UdEdges.RowAdvance` | ud_graph.py:119-121 | How one processed key changes a later key's list, compared with the list after the next key |
| `UdEdges.RemoveFromLater` | ud_graph.py:121 | A neighbour still listed by the current key is inserted later, and removing the key from its list matches the next row |
| `UdGraph.UndirectedGraph.IsValidPath` | ud_graph.py:128-145 | True exactly when every entry is a label and each next entry is in the list of the one before (so for `[]`) |
| `UdSpec.WalkReversed` | ud_graph.py:128-145 | In a well-formed graph a valid path reversed is valid |
| `UdSearch.Target` | ud_graph.py:155-156 | An end that is not a label is replaced by `None` |
| `UdSearch.SortMembers` | ud_graph.py:171 | `sorted` keeps exactly the elements |
| `UdGraph.UndirectedGraph.Dfs` | ud_graph.py:147-174 | `[]` for a start that is not a label; otherwise the list `DfsRun` defines, which starts at the start, lists each label once, enters each label from an earlier neighbour, and either ends at the end label or is closed under adjacency |
| `UdGraph.UndirectedGraph.PushAll` | ud_graph.py:171-172 | The push loop appends the reversed sorted neighbours to the stack |
| `UdSearch.DfsStep` | ud_graph.py:161-172 | One pass pushes only labels and shrinks the unvisited labels or the stack |
| `UdSearch.DfsRunOutcome` | ud_graph.py:161-174 | From any state meeting the loop invariant, the `dfs` loop ends in a valid outcome |
| `UdGraph.UndirectedGraph.Bfs` | ud_graph.py:176-203 | As for `Dfs`, with the list `BfsRun` defines |
| `UdGraph.UndirectedGraph.EnqueueUnvisited` | ud_graph.py:199-201 | The enqueue loop appends the sorted neighbours not yet visited |
| `UdSearch.BfsStep` | ud_graph.py:190-201 | One pass enqueues only labels and shrinks the unvisited labels or the queue |
| `UdSearch.BfsRunOutcome` | ud_graph.py:190-203 | From any state meeting the loop invariant, the `bfs` loop ends in a valid outcome |
| `UdSearch.TraversalsAgree` | ud_graph.py:147-203 | Both traversals end validly; with no end label each lists exactly the labels reachable from the start |
| `UdSearch.OutcomeReach` | ud_graph.py:147-203 | Every listed label is reachable from the start; a closed result lists all reachable labels; the result ends at the end label exactly when that label is reachable |
| `UdSearch.ReachesSymmetric` | ud_graph.py:11-18 | In a well-formed graph reachability is symmetric |
| `UdSearch.ClosedAbsorbs` | ud_graph.py:214-224 | A label that reaches a member of an adjacency-closed list is in the list |
| `UdGraph.UndirectedGraph.CountConnectedComponents` | ud_graph.py:205-224 | Returns the number of breadth-first rounds; the first starts at the alphabetically first label; the rounds are disjoint and cover every label; the count is between 1 and the number of labels |
| `UdComponents.RoundsAdd` | ud_graph.py:214-216 | A round started from an uncovered label adds exactly its traversal to the covered labels and keeps the rounds disjoint |
| `UdComponents.RoundsComponents` | ud_graph.py:205-224 | Every round is a connected component (exactly the labels reachable from its first one) |
| `UdComponents.CoverTest` | ud_graph.py:219-224 | `sorted(total_comps) == complete` exactly when every label is covered; otherwise an uncovered label exists to start the next round |
| `UdComponents.FreshComponent` | ud_graph.py:222-224 | A traversal from a label no earlier round listed shares no label with those rounds |
| `UdComponents.AddComponent` | ud_graph.py:216 | Extending the covered labels by a fresh duplicate-free round keeps them duplicate-free and the rounds disjoint |
| `UdComponents.TraversalIsComponent` | ud_graph.py:216 | A complete traversal is a connected component |
| `UdComponents.SortIdempotent` | ud_graph.py:209 | Sorting an already sorted list returns it |
| `UdComponents.SortSameElements` | ud_graph.py:219 | Two duplicate-free lists sort equal exactly when they hold the same labels |
| `UdGraph.UndirectedGraph.HasCycle` | ud_graph.py:226-243 | True exactly when the graph has a simple cycle of at least three labels |
| `UdGraph.UndirectedGraph.SearchFromKey` | ud_graph.py:233-242 | One pass of the outer loop succeeds exactly when the helper succeeds for some neighbour of the key |
| `UdGraph.UndirectedGraph.DropLabel` | ud_graph.py:236-239 | Builds the neighbour list without one label, in order |
| `UdGraph.UndirectedGraph.HasCycleHelper` | ud_graph.py:245-262 | True exactly when some extension of the current path, starting with a stack entry, reaches a label whose list meets the path before its parent |
| `UdCycle.CycleIffRooted` | ud_graph.py:226-243 | A simple cycle exists exactly when some key and neighbour make the helper succeed |
| `UdCycle.CycleGivesRooted` | ud_graph.py:226-243 | Every simple cycle is found from its first two labels |
| `UdCycle.RootedGivesCycle` | ud_graph.py:245-262 | Every success of the helper exhibits a simple cycle |
| `UdCycle.RootReady` | ud_graph.py:233-240 | The first helper call for a key and a neighbour meets the helper's precondition |
| `UdCycle.WitnessHere` | ud_graph.py:247-250 | A popped label that lists a label of `visited` is a success |
| `UdCycle.HelperRecurse` | ud_graph.py:252-259 | The arguments of the recursive call meet the helper's precondition |
| `UdCycle.DescendAll` | ud_graph.py:252-261 | Every success through a popped label is found by the recursive call on it |
| `UdCycle.WitnessLift` | ud_graph.py:259-261 | A success of the recursive call is a success of the caller |
| `UdCycle.WitnessDescend` | ud_graph.py:252-261 | A success through a popped label that lists no label of `visited` continues through a label of the new stack |
| `UdCycle.SimpleWalkBounded` | ud_graph.py:245-262 | The explored path never repeats a label, so its length, and the recursion depth, is at most the number of labels |
| `UdCycle.EdgelessAcyclic` | ud_graph.py:226-243 | A graph without edges has no cycle |
| `LabelOrder.Sort` | ud_graph.py:171 | `sorted` returns an ascending permutation of its input |
| `LabelOrder.SortedUnique` | ud_graph.py:199 | Any two ascending permutations of one list are equal, so every correct sort agrees with `Sort` |
| `Seqs.RemoveFirst` | ud_graph.py:83-84 | `list.remove(x)` drops the first occurrence of `x` and keeps the order of the rest when `x` is present, and keeps the list otherwise; it adds nothing |
| `Seqs.RemoveFirstAt` | ud_graph.py:83-84 | When `x` is present, `list.remove(x)` is the list with the entry at the first occurrence of `x` cut out, the entries before and after it kept in order |
| `Seqs.RemoveFirstIsMinus` | ud_graph.py:94 | On a duplicate-free list, removing the first `x` is filtering out `x` |
| `DGraph.DirectedGraph.constructor` | d_graph.py:18-35 | Without an edge list the graph is empty; with one it has `max(0, endpoints) + 1` vertices and each cell holds the weight of the last accepted tuple for it, or 0 |
| `DSpec.MaxEndpointIsMax` | d_graph.py:29-31 | The computed maximum bounds every endpoint and, unless it is 0, is one of them |
| `DGraph.DirectedGraph.AddVertex` | d_graph.py:56-68 | One more vertex; old cells unchanged; the new row and column are 0; returns the new count |
| `DGraph.DirectedGraph.AddEdge` | d_graph.py:70-79 | Sets exactly cell `(src, dst)` to `weight` when both are in range, distinct and the weight is at least 1; otherwise nothing changes |
| `DGraph.DirectedGraph.RemoveEdge` | d_graph.py:81-90 | Sets exactly cell `(src, dst)` to 0 when both are in range; removing an absent edge changes nothing |
| `DGraph.DirectedGraph.GetVertices` | d_graph.py:92-99 | Returns `0..v_count-1` in order |
| `DGraph.DirectedGraph.GetEdges` | d_graph.py:101-110 | Lists exactly the positive cells with their weights, in row-major order, none a self-loop |
| `DGraph.DirectedGraph.IsValidPath` | d_graph.py:112-120 | True exactly when every consecutive pair has a nonzero cell |
| `DGraph.DirectedGraph.Dfs` | d_graph.py:122-151 | `[]` for a start out of range; `None` when an end is given; otherwise the list `DfsRun` defines, which explores exactly the vertices reachable from the start |
| `DGraph.DirectedGraph.PushDescending` | d_graph.py:145-147 | The inner loop pushes `DescScan` of the row |
| `DSpec.DescScanMembers` | d_graph.py:145-147 | The scan pushes exactly the unvisited successors |
| `DSpec.DescScanDescending` | d_graph.py:145-147 | The scan pushes in descending order, so the lowest successor is on top |
| `DSpec.DfsStep` | d_graph.py:139-147 | One pass keeps indices in range and makes progress |
| `DSpec.DfsStepFrontier` | d_graph.py:139-147 | One pass keeps the traversal invariant |
| `DSpec.DfsRunExplores` | d_graph.py:137-151 | The `dfs` loop ends with a complete traversal from the start |
| `DGraph.DirectedGraph.Bfs` | d_graph.py:153-181 | As for `Dfs`, with the list `BfsRun` defines |
| `DGraph.DirectedGraph.EnqueueAscending` | d_graph.py:175-177 | The inner loop enqueues `AscScan` of the row |
| `DSpec.AscScanMembers` | d_graph.py:175-177 | The scan enqueues exactly the unvisited successors |
| `DSpec.AscScanAscending` | d_graph.py:175-177 | The scan enqueues in ascending order |
| `DSpec.BfsStep` | d_graph.py:169-177 | One pass keeps indices in range and makes progress |
| `DSpec.BfsStepFrontier` | d_graph.py:169-177 | One pass keeps the traversal invariant |
| `DSpec.BfsRunExplores` | d_graph.py:167-181 | The `bfs` loop ends with a complete traversal from the start |
| `DSpec.TraversalsAgree` | d_graph.py:122-181 | Both traversals list exactly the vertices reachable from the start |
| `DSpec.ExploresIsReachableSet` | d_graph.py:122-181 | A complete traversal lists exactly the reachable vertices |

## Left out

- `__str__` of both classes and the demonstration code under `__main__`: text formatting and console output.
- `DirectedGraph.has_cycle` and `DirectedGraph.dijkstra`: their bodies are `pass`, so there is no behaviour to model.
- `UdGraph.UndirectedGraph.CountConnectedComponents` requires at least one label, because `complete[0]` raises `IndexError` on an empty graph. It also requires the class invariant. On a dictionary that breaks it, Python's behaviour is not modelled. For example, after `add_edge('B', 'A'); get_edges()` the dictionary is `{'B': ['A'], 'A': []}`. There the rounds `['A']` and `['B', 'A']` overlap, the set difference at line 224 is empty, and `[0]` raises `IndexError`.
- `UdGraph.UndirectedGraph.RemoveVertex` requires the class invariant. Two kinds of dictionary break it. On one where a listed neighbour is not a key, or does not list `v`, Python raises `KeyError` or `ValueError`. After `get_edges`, though, removing a label none of whose neighbours were inserted after it succeeds in Python and leaves dangling entries. For example, `add_edge('A', 'B'); get_edges(); remove_vertex('B')` leaves `{'A': ['B']}`, where `'B'` is listed but is no longer a key. The model does not cover either case: the precondition excludes both that call sequence and the errors.
- `UdGraph.UndirectedGraph.GetEdges` requires the class invariant. On a dictionary that an earlier `get_edges` already pruned, the source raises `ValueError` whenever an edge remains; that case is not modelled.
- `UdGraph.UndirectedGraph.Dfs`, `UdGraph.UndirectedGraph.Bfs`, `UdGraph.UndirectedGraph.HasCycle`: require `UdSpec.Consistent`, which has four conditions. The key order lists each label once. The key order and the dictionary hold the same labels. No label lists itself. Every listed neighbour is a label. The source needs only the last one: a missing neighbour raises `KeyError` part-way. A self-loop is harmless to `dfs` and `bfs`, because the popped label is already visited and is skipped. Every operation that the model allows on its inputs keeps `Consistent` (`AddEdgeConsistent`, `RemoveEdgeFrom`, `RemoveVertexWellFormed`, `PrunedConsistent`). The Python class can still reach a dictionary that breaks it, through `remove_vertex` after `get_edges` as described for `RemoveVertex`. On such a dictionary, `dfs`, `bfs` and `has_cycle` from a label that lists the removed one raise `KeyError`, and the model does not cover that.
- `UdGraph.UndirectedGraph.HasCycleHelper`: requires its arguments to form a simple path with the stack holding neighbours off the path, which every call from `has_cycle` and from itself meets. Python's recursion limit is not modelled.
- `DGraph.DirectedGraph.IsValidPath` requires every index of a path longer than one vertex to be in range. Python would raise `IndexError`, or wrap around for a negative index.
- `Seqs.RemoveFirst` leaves the list unchanged when the element is absent, where Python's `list.remove` raises `ValueError`. Every use in the model is on a well-formed graph, where the element is present.
- The next start of `count_connected_components` depends on `set` iteration order. It is modelled as an arbitrary uncovered label, and the rounds are returned as a ghost output that the source does not have.
- `VisitKey`, `SearchFromKey`, `PushAll`, `EnqueueUnvisited`, `DropLabel`, `PushDescending` and `EnqueueAscending` are loops of the source methods moved into methods of their own. Their steps are the source's.
- Python integers are unbounded like Dafny's, and strings are compared by code point as `LabelOrder.Less` does. Running time is not modelled.
