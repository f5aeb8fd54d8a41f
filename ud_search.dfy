/** Walks, reachability and the two alphabetical traversals of the
    undirected graph (`dfs` and `bfs` of ud_graph.py), as reference
    definitions that the methods of `UndirectedGraph` are proved against,
    together with what a finished traversal guarantees. */
module UdSearch {
  import opened Seqs
  import opened LabelOrder
  import opened UdSpec

  /** Every entry of `s` is a label of the graph. */
  predicate AllKeys(g: Graph, s: seq<string>) {
    forall x :: x in s ==> x in g.adj
  }

  /** There is a walk from `a` to `b` (a label reaches itself). */
  ghost predicate Reaches(g: Graph, a: string, b: string) {
    exists p :: IsWalk(g, p) && |p| >= 1 && p[0] == a && p[|p| - 1] == b
  }

  /** Some entry of `vis` lists `x` as a neighbour. */
  ghost predicate LinkFrom(g: Graph, vis: seq<string>, x: string) {
    exists j :: 0 <= j < |vis| && Linked(g, vis[j], x)
  }

  /** Entry `k` of `r` is a neighbour of an entry before it. */
  ghost predicate NeighbourBefore(g: Graph, r: seq<string>, k: int) {
    exists j :: 0 <= j < k < |r| && Linked(g, r[j], r[k])
  }

  /** Every entry after the first is a neighbour of an earlier entry. */
  ghost predicate EarlierNeighbour(g: Graph, r: seq<string>) {
    forall k :: 0 < k < |r| ==> NeighbourBefore(g, r, k)
  }

  /** No neighbour of a listed label lies outside the list. */
  ghost predicate Closed(g: Graph, r: seq<string>) {
    forall u, w :: u in r && Linked(g, u, w) ==> w in r
  }

  /** What any traversal from `start` returns: `start` first, each label
      once, and every label entered from a neighbour listed before it. */
  ghost predicate Discovers(g: Graph, start: string, r: seq<string>) {
    && |r| >= 1 && r[0] == start
    && Distinct(r)
    && AllKeys(g, r)
    && EarlierNeighbour(g, r)
  }

  /** How a traversal towards `end` ends: it stops right after listing
      `end`, or it has run out of labels to visit without meeting `end`,
      in which case no neighbour leads out of its result. */
  ghost predicate Outcome(g: Graph, start: string, r: seq<string>, end: Option<string>) {
    && Discovers(g, start, r)
    && ((end.Some? && r[|r| - 1] == end.value) || (Closed(g, r) && (end.Some? ==> end.value !in r)))
  }

  /** `v_end` as the traversals use it: an end that is not a label is
      replaced by `None`. */
  function Target(g: Graph, end: Option<string>): (t: Option<string>)
    ensures t.Some? <==> end.Some? && end.value in g.adj
    ensures t.Some? ==> t == end
  {
    if end.Some? && end.value in g.adj then end else None
  }

  /** Labels not yet visited. */
  function Unseen(g: Graph, vis: seq<string>): set<string> {
    set k | k in g.adj && k !in vis
  }

  /** `sorted(...)` keeps the elements. */
  lemma SortMembers(s: seq<string>)
    ensures forall x :: x in Sort(s) <==> x in s
  {
    forall x ensures x in Sort(s) <==> x in s {
      assert x in Sort(s) <==> x in multiset(Sort(s));
      assert x in s <==> x in multiset(s);
    }
  }

  /** One pass of the `while stack` loop of `dfs` when the popped label is
      not the end: pop the top; if it was not visited yet, mark it and push
      all its neighbours in reverse alphabetical order, so that the
      alphabetically first is on top. */
  function DfsStep(g: Graph, stack: seq<string>, vis: seq<string>): (next: (seq<string>, seq<string>))
    requires Consistent(g) && stack != [] && AllKeys(g, stack)
    ensures AllKeys(g, next.0)
    ensures Unseen(g, next.1) < Unseen(g, vis) || (Unseen(g, next.1) == Unseen(g, vis) && |next.0| < |stack|)
  {
    var v := stack[|stack| - 1];
    var rest := stack[..|stack| - 1];
    if v in vis then (rest, vis)
    else
      var pushed := Reverse(Sort(g.adj[v]));
      SortMembers(g.adj[v]);
      ReverseMembers(Sort(g.adj[v]));
      assert v in Unseen(g, vis) && v !in Unseen(g, vis + [v]);
      (rest + pushed, vis + [v])
  }

  /** One pass of the `while queue` loop of `bfs` when the dequeued label is
      not the end: dequeue the front; if it was not visited yet, mark it
      and enqueue its not yet visited neighbours in alphabetical order. */
  function BfsStep(g: Graph, queue: seq<string>, vis: seq<string>): (next: (seq<string>, seq<string>))
    requires Consistent(g) && queue != [] && AllKeys(g, queue)
    ensures AllKeys(g, next.0)
    ensures Unseen(g, next.1) < Unseen(g, vis) || (Unseen(g, next.1) == Unseen(g, vis) && |next.0| < |queue|)
  {
    var v := queue[0];
    var rest := queue[1..];
    if v in vis then (rest, vis)
    else
      var pushed := Minus(Sort(g.adj[v]), vis + [v]);
      SortMembers(g.adj[v]);
      MinusMembers(Sort(g.adj[v]), vis + [v]);
      assert v in Unseen(g, vis) && v !in Unseen(g, vis + [v]);
      (rest + pushed, vis + [v])
  }

  /** The list `dfs` returns when its loop is at this stack and visited list. */
  function DfsRun(g: Graph, stack: seq<string>, vis: seq<string>, end: Option<string>): seq<string>
    requires Consistent(g) && AllKeys(g, stack)
    decreases Unseen(g, vis), |stack|
  {
    if stack == [] then vis
    else if end == Some(stack[|stack| - 1]) then vis + [stack[|stack| - 1]]
    else
      var next := DfsStep(g, stack, vis);
      DfsRun(g, next.0, next.1, end)
  }

  /** The list `bfs` returns when its loop is at this queue and visited list. */
  function BfsRun(g: Graph, queue: seq<string>, vis: seq<string>, end: Option<string>): seq<string>
    requires Consistent(g) && AllKeys(g, queue)
    decreases Unseen(g, vis), |queue|
  {
    if queue == [] then vis
    else if end == Some(queue[0]) then vis + [queue[0]]
    else
      var next := BfsStep(g, queue, vis);
      BfsRun(g, next.0, next.1, end)
  }

  /** The invariant of both traversal loops, `pending` being the stack or
      the queue: the visited labels are distinct, `start` comes first, each
      visited or pending label other than `start` is a neighbour of an
      earlier visited one, every neighbour of a visited label is visited or
      pending, and the end has not been visited. */
  ghost predicate Frontier(g: Graph, start: string, pending: seq<string>, vis: seq<string>, end: Option<string>) {
    && AllKeys(g, pending) && AllKeys(g, vis)
    && Distinct(vis)
    && (vis == [] ==> pending == [start])
    && (vis != [] ==> vis[0] == start)
    && EarlierNeighbour(g, vis)
    && (forall x :: x in pending ==> x == start || LinkFrom(g, vis, x))
    && (forall u, w :: u in vis && Linked(g, u, w) ==> w in vis || w in pending)
    && (end.Some? ==> end.value !in vis)
  }

  /** Appending a neighbour of a listed label keeps every entry after the
      first a neighbour of an earlier one. */
  lemma VisitKeepsNeighbours(g: Graph, vis: seq<string>, v: string)
    requires EarlierNeighbour(g, vis)
    requires vis != [] ==> LinkFrom(g, vis, v)
    ensures EarlierNeighbour(g, vis + [v])
  {
    var r := vis + [v];
    forall k | 0 < k < |r| ensures NeighbourBefore(g, r, k) {
      var j: int;
      if k < |vis| {
        assert NeighbourBefore(g, vis, k);
        j :| 0 <= j < k && Linked(g, vis[j], vis[k]);
        assert r[k] == vis[k];
      } else {
        j :| 0 <= j < |vis| && Linked(g, vis[j], v);
        assert r[k] == v;
      }
      assert r[j] == vis[j];
    }
  }

  /** After a visit every pending label other than `start` is still a
      neighbour of a visited one. */
  lemma VisitKeepsPending(g: Graph, start: string, pending: seq<string>, vis: seq<string>,
                          v: string, rest: seq<string>, pushed: seq<string>, vis': seq<string>, end: Option<string>)
    requires Frontier(g, start, pending, vis, end)
    requires vis' == if v in vis then vis else vis + [v]
    requires forall x :: x in rest ==> x in pending
    requires forall x :: x in pushed ==> Linked(g, v, x)
    ensures forall x :: x in rest + pushed ==> x == start || LinkFrom(g, vis', x)
  {
    var at := |vis'| - 1;
    if v in vis {
      at := IndexOf(vis, v);
    }
    assert vis'[at] == v;
    forall x | x in rest + pushed
      ensures x == start || LinkFrom(g, vis', x)
    {
      if x in pushed {
        assert Linked(g, vis'[at], x);
      } else if x != start {
        assert LinkFrom(g, vis, x);
        var j :| 0 <= j < |vis| && Linked(g, vis[j], x);
        assert vis'[j] == vis[j];
      }
    }
  }

  /** Taking `v` (not the end) off the pending list, marking it visited and
      adding its neighbours (at least those not yet visited) keeps the
      invariant. When `v` was visited already nothing is added. */
  lemma FrontierVisit(g: Graph, start: string, pending: seq<string>, vis: seq<string>,
                      v: string, rest: seq<string>, pushed: seq<string>, end: Option<string>)
    requires Consistent(g)
    requires Frontier(g, start, pending, vis, end)
    requires v in pending && end != Some(v)
    requires forall x :: x in pending <==> x == v || x in rest
    requires forall x :: x in pushed ==> Linked(g, v, x)
    requires v !in vis ==> forall x :: Linked(g, v, x) && x !in vis + [v] ==> x in pushed
    ensures Frontier(g, start, rest + pushed, if v in vis then vis else vis + [v], end)
  {
    var vis' := if v in vis then vis else vis + [v];
    assert AllKeys(g, rest + pushed);
    if v !in vis {
      assert vis != [] ==> v != start;
      VisitKeepsNeighbours(g, vis, v);
      assert Distinct(vis');
    }
    assert vis' != [] && vis'[0] == start;
    forall u, w | u in vis' && Linked(g, u, w) ensures w in vis' || w in rest + pushed {
      if u == v && v !in vis {
      } else {
        assert u in vis;
        assert w != v ==> w in vis || w in rest;
      }
    }
    VisitKeepsPending(g, start, pending, vis, v, rest, pushed, vis', end);
  }

  /** One `dfs` pass that does not meet the end keeps the invariant. */
  lemma DfsStepFrontier(g: Graph, start: string, stack: seq<string>, vis: seq<string>, end: Option<string>)
    requires Consistent(g) && stack != []
    requires Frontier(g, start, stack, vis, end)
    requires end != Some(stack[|stack| - 1])
    ensures Frontier(g, start, DfsStep(g, stack, vis).0, DfsStep(g, stack, vis).1, end)
  {
    var v := stack[|stack| - 1];
    var rest := stack[..|stack| - 1];
    assert stack == rest + [v];
    var pushed := if v in vis then [] else Reverse(Sort(g.adj[v]));
    SortMembers(g.adj[v]);
    ReverseMembers(Sort(g.adj[v]));
    FrontierVisit(g, start, stack, vis, v, rest, pushed, end);
    assert rest + [] == rest;
  }

  /** One `bfs` pass that does not meet the end keeps the invariant. */
  lemma BfsStepFrontier(g: Graph, start: string, queue: seq<string>, vis: seq<string>, end: Option<string>)
    requires Consistent(g) && queue != []
    requires Frontier(g, start, queue, vis, end)
    requires end != Some(queue[0])
    ensures Frontier(g, start, BfsStep(g, queue, vis).0, BfsStep(g, queue, vis).1, end)
  {
    var v := queue[0];
    var rest := queue[1..];
    assert queue == [v] + rest;
    var pushed := if v in vis then [] else Minus(Sort(g.adj[v]), vis + [v]);
    SortMembers(g.adj[v]);
    MinusMembers(Sort(g.adj[v]), vis + [v]);
    FrontierVisit(g, start, queue, vis, v, rest, pushed, end);
    assert rest + [] == rest;
  }

  /** Meeting the end: the visited list plus the end is still a traversal
      from `start`, and it ends with the end. */
  lemma MeetEnd(g: Graph, start: string, pending: seq<string>, vis: seq<string>, v: string, end: Option<string>)
    requires Frontier(g, start, pending, vis, end)
    requires v in pending && end == Some(v)
    ensures Outcome(g, start, vis + [v], end)
  {
    if vis != [] {
      assert v != start;
    }
    VisitKeepsNeighbours(g, vis, v);
  }

  /** From any state satisfying the invariant, the `dfs` loop ends in one
      of the two outcomes. */
  lemma {:induction false} DfsRunOutcome(g: Graph, start: string, stack: seq<string>, vis: seq<string>, end: Option<string>)
    requires Consistent(g)
    requires Frontier(g, start, stack, vis, end)
    ensures Outcome(g, start, DfsRun(g, stack, vis, end), end)
    decreases Unseen(g, vis), |stack|
  {
    if stack != [] {
      var v := stack[|stack| - 1];
      if end == Some(v) {
        MeetEnd(g, start, stack, vis, v, end);
      } else {
        var next := DfsStep(g, stack, vis);
        DfsStepFrontier(g, start, stack, vis, end);
        DfsRunOutcome(g, start, next.0, next.1, end);
      }
    }
  }

  /** From any state satisfying the invariant, the `bfs` loop ends in one
      of the two outcomes. */
  lemma {:induction false} BfsRunOutcome(g: Graph, start: string, queue: seq<string>, vis: seq<string>, end: Option<string>)
    requires Consistent(g)
    requires Frontier(g, start, queue, vis, end)
    ensures Outcome(g, start, BfsRun(g, queue, vis, end), end)
    decreases Unseen(g, vis), |queue|
  {
    if queue != [] {
      var v := queue[0];
      if end == Some(v) {
        MeetEnd(g, start, queue, vis, v, end);
      } else {
        var next := BfsStep(g, queue, vis);
        BfsStepFrontier(g, start, queue, vis, end);
        BfsRunOutcome(g, start, next.0, next.1, end);
      }
    }
  }

  /** A walk followed by a neighbour of its last label is a walk. */
  lemma WalkSnoc(g: Graph, p: seq<string>, x: string)
    requires IsWalk(g, p) && p != [] && Linked(g, p[|p| - 1], x) && x in g.adj
    ensures IsWalk(g, p + [x])
  {
    var p' := p + [x];
    assert forall k :: 0 <= k < |p| ==> p'[k] == p[k];
    forall k | 0 <= k < |p'| - 1 ensures p'[k + 1] in g.adj[p'[k]] {
      if k < |p| - 1 {
        assert p'[k] == p[k] && p'[k + 1] == p[k + 1];
      }
    }
  }

  /** Every entry of a list built neighbour by neighbour from its first entry
      is reachable from that first entry. */
  lemma {:induction false} EarlierNeighbourReaches(g: Graph, r: seq<string>, k: int)
    requires EarlierNeighbour(g, r) && AllKeys(g, r)
    requires 0 <= k < |r|
    ensures Reaches(g, r[0], r[k])
    decreases k
  {
    if k == 0 {
      assert IsWalk(g, [r[0]]);
    } else {
      assert NeighbourBefore(g, r, k);
      var j :| 0 <= j < k && Linked(g, r[j], r[k]);
      EarlierNeighbourReaches(g, r, j);
      var p :| IsWalk(g, p) && |p| >= 1 && p[0] == r[0] && p[|p| - 1] == r[j];
      WalkSnoc(g, p, r[k]);
      assert (p + [r[k]])[0] == r[0];
    }
  }

  /** A walk that starts inside a neighbour-closed list never leaves it. */
  lemma {:induction false} ClosedKeepsWalk(g: Graph, r: seq<string>, p: seq<string>)
    requires Closed(g, r)
    requires IsWalk(g, p) && |p| >= 1 && p[0] in r
    ensures p[|p| - 1] in r
    decreases |p|
  {
    if |p| > 1 {
      var p' := p[..|p| - 1];
      assert IsWalk(g, p') by {
        forall k | 0 <= k < |p'| - 1 ensures p'[k + 1] in g.adj[p'[k]] {
          assert p'[k] == p[k] && p'[k + 1] == p[k + 1];
        }
      }
      ClosedKeepsWalk(g, r, p');
      assert Linked(g, p[|p| - 2], p[|p| - 1]);
    }
  }

  /** What a finished traversal means for reachability: everything listed
      is reachable from the start; a traversal that did not stop at the end
      lists every reachable label; and an end label is met exactly when it
      is reachable. */
  lemma OutcomeReach(g: Graph, start: string, r: seq<string>, end: Option<string>, v: string)
    requires Outcome(g, start, r, end)
    ensures v in r ==> Reaches(g, start, v)
    ensures Closed(g, r) ==> (v in r <==> Reaches(g, start, v))
    ensures end.Some? ==> (r[|r| - 1] == end.value <==> Reaches(g, start, end.value))
  {
    if v in r {
      var k :| 0 <= k < |r| && r[k] == v;
      EarlierNeighbourReaches(g, r, k);
    }
    if Closed(g, r) && Reaches(g, start, v) {
      var p :| IsWalk(g, p) && |p| >= 1 && p[0] == start && p[|p| - 1] == v;
      ClosedKeepsWalk(g, r, p);
    }
    if end.Some? {
      EarlierNeighbourReaches(g, r, |r| - 1);
      if Reaches(g, start, end.value) && r[|r| - 1] != end.value {
        var p :| IsWalk(g, p) && |p| >= 1 && p[0] == start && p[|p| - 1] == end.value;
        ClosedKeepsWalk(g, r, p);
      }
    }
  }

  /** `dfs` and `bfs` from a label, with any end, both return a traversal
      ending in one of the two outcomes; without an end (or with an end
      that is not a label) both list exactly the labels reachable from the
      start, in their own orders. */
  lemma TraversalsAgree(g: Graph, start: string, end: Option<string>, v: string)
    requires Consistent(g) && start in g.adj
    ensures Outcome(g, start, DfsRun(g, [start], [], Target(g, end)), Target(g, end))
    ensures Outcome(g, start, BfsRun(g, [start], [], Target(g, end)), Target(g, end))
    ensures Target(g, end).None? ==>
      (v in DfsRun(g, [start], [], None) <==> Reaches(g, start, v)) &&
      (v in BfsRun(g, [start], [], None) <==> Reaches(g, start, v))
  {
    var t := Target(g, end);
    assert Frontier(g, start, [start], [], t);
    DfsRunOutcome(g, start, [start], [], t);
    BfsRunOutcome(g, start, [start], [], t);
    OutcomeReach(g, start, DfsRun(g, [start], [], t), t, v);
    OutcomeReach(g, start, BfsRun(g, [start], [], t), t, v);
  }

  /** In a well-formed graph reachability is symmetric. */
  lemma ReachesSymmetric(g: Graph, a: string, b: string)
    requires WellFormed(g) && Reaches(g, a, b)
    ensures Reaches(g, b, a)
  {
    var p :| IsWalk(g, p) && |p| >= 1 && p[0] == a && p[|p| - 1] == b;
    WalkReversed(g, p);
    var q := Reverse(p);
    assert q[0] == b && q[|q| - 1] == a;
  }

  /** In a well-formed graph a label that reaches a member of a
      neighbour-closed list is itself in the list. */
  lemma ClosedAbsorbs(g: Graph, r: seq<string>, v: string, x: string)
    requires WellFormed(g) && Closed(g, r)
    requires x in r && Reaches(g, v, x)
    ensures v in r
  {
    ReachesSymmetric(g, v, x);
    var p :| IsWalk(g, p) && |p| >= 1 && p[0] == x && p[|p| - 1] == v;
    ClosedKeepsWalk(g, r, p);
  }
}
