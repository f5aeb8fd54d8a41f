/** What `has_cycle` and `has_cycle_helper` of ud_graph.py decide. The
    helper extends a simple path one neighbour at a time and answers True
    as soon as the new label lists a path label other than its parent;
    the search is exhaustive, so the answer is True exactly when the graph
    has a simple cycle of at least three labels. */
module UdCycle {
  import opened Seqs
  import opened UdSpec

  /** A walk through distinct labels. */
  predicate SimpleWalk(g: Graph, p: seq<string>) {
    IsWalk(g, p) && Distinct(p)
  }

  /** A simple cycle: at least three distinct labels, each listing the
      next, and the last listing the first. */
  predicate IsCycle(g: Graph, c: seq<string>) {
    |c| >= 3 && SimpleWalk(g, c) && c[0] in g.adj[c[|c| - 1]]
  }

  ghost predicate HasSimpleCycle(g: Graph) {
    exists c :: IsCycle(g, c)
  }

  /** Python `set(a).isdisjoint(set(b))`. */
  predicate Disjoint(a: seq<string>, b: seq<string>) {
    forall i :: 0 <= i < |a| ==> a[i] !in b
  }

  /** The helper on path `path` succeeds through the extension `q`: `path + q`
      is a simple walk, and its last label lists a label of it other than
      its predecessor. */
  ghost predicate Witness(g: Graph, path: seq<string>, q: seq<string>) {
    && |path| >= 1 && q != []
    && SimpleWalk(g, path + q)
    && !Disjoint(g.adj[(path + q)[|path + q| - 1]], (path + q)[..|path + q| - 2])
  }

  /** Some extension starting with an entry of `stack` is a witness. */
  ghost predicate FoundFrom(g: Graph, path: seq<string>, stack: seq<string>) {
    exists q :: q != [] && q[0] in stack && Witness(g, path, q)
  }

  /** A witness whose first label is on the stack is found. */
  lemma FoundBy(g: Graph, path: seq<string>, stack: seq<string>, q: seq<string>)
    requires q != [] && q[0] in stack && Witness(g, path, q)
    ensures FoundFrom(g, path, stack)
  {
  }

  /** What the call `has_cycle_helper(a, [i], stack)` made by `has_cycle` for
      the key `i` and its neighbour `a` decides. */
  ghost predicate Rooted(g: Graph, i: string, a: string) {
    a in g.adj && FoundFrom(g, [i, a], Minus(g.adj[a], [i]))
  }

  /** The helper's precondition: `visited + [vertex]` is a simple walk and
      every stack entry is a neighbour of `vertex` off the path. */
  ghost predicate HelperReady(g: Graph, vertex: string, visited: seq<string>, stack: seq<string>) {
    && SimpleWalk(g, visited + [vertex]) && vertex in g.adj
    && (forall x :: x in stack ==> x in g.adj[vertex] && x !in visited + [vertex])
  }

  /** A popped label `v` that lists a label of `visited` completes a
      witness by itself. */
  lemma WitnessHere(g: Graph, vertex: string, visited: seq<string>, v: string)
    requires Consistent(g)
    requires SimpleWalk(g, visited + [vertex]) && vertex in g.adj
    requires v in g.adj[vertex] && v !in visited + [vertex]
    requires !Disjoint(g.adj[v], visited)
    ensures Witness(g, visited + [vertex], [v])
  {
    var p := visited + [vertex];
    var w := p + [v];
    assert w[..|w| - 2] == visited;
    assert forall k :: 0 <= k < |p| ==> w[k] == p[k];
    assert w[|p| - 1] == vertex && w[|w| - 1] == v;
    assert IsWalk(g, w) by {
      forall k | 0 <= k < |w| - 1 ensures w[k + 1] in g.adj[w[k]] {
        if k < |p| - 1 {
          assert w[k] == p[k] && w[k + 1] == p[k + 1];
        }
      }
    }
    assert Distinct(w);
  }

  /** The path for the recursive call is ready for it. */
  lemma HelperRecurse(g: Graph, vertex: string, visited: seq<string>, v: string)
    requires Consistent(g)
    requires SimpleWalk(g, visited + [vertex]) && vertex in g.adj
    requires v in g.adj[vertex] && v !in visited + [vertex]
    requires Disjoint(g.adj[v], visited)
    ensures HelperReady(g, v, visited + [vertex], Minus(g.adj[v], [vertex]))
  {
    var p := visited + [vertex];
    var w := p + [v];
    assert forall k :: 0 <= k < |p| ==> w[k] == p[k];
    assert w[|p| - 1] == vertex && w[|w| - 1] == v;
    assert IsWalk(g, w) by {
      forall k | 0 <= k < |w| - 1 ensures w[k + 1] in g.adj[w[k]] {
        if k < |p| - 1 {
          assert w[k] == p[k] && w[k + 1] == p[k + 1];
        }
      }
    }
    assert Distinct(w);
    MinusMembers(g.adj[v], [vertex]);
    forall x | x in Minus(g.adj[v], [vertex]) ensures x !in w {
      var i :| 0 <= i < |g.adj[v]| && g.adj[v][i] == x;
      assert x !in visited;
    }
  }

  /** A witness of the recursive call is one of the caller. */
  lemma WitnessLift(g: Graph, path: seq<string>, v: string, q: seq<string>)
    requires |path| >= 1 && Witness(g, path + [v], q)
    ensures Witness(g, path, [v] + q)
  {
    assert (path + [v]) + q == path + ([v] + q);
  }

  /** A witness through `v` on which `v` lists no label of `visited`
      continues into the recursive call on `v`. */
  lemma WitnessDescend(g: Graph, vertex: string, visited: seq<string>, q: seq<string>)
    requires Consistent(g)
    requires Witness(g, visited + [vertex], q) && q[0] in g.adj
    requires Disjoint(g.adj[q[0]], visited)
    ensures |q| >= 2 && q[1] in Minus(g.adj[q[0]], [vertex])
    ensures Witness(g, visited + [vertex] + [q[0]], q[1..])
  {
    var p := visited + [vertex];
    var w := p + q;
    MinusMembers(g.adj[q[0]], [vertex]);
    assert |q| >= 2 by {
      assert w[..|p| - 1] == visited;
      assert w[|p|] == q[0];
    }
    assert w[|p|] == q[0] && w[|p| + 1] == q[1];
    assert w[|p| - 1] == vertex;
    assert q[1] != vertex;
    assert (p + [q[0]]) + q[1..] == w;
  }

  /** A witness found from the root `i` and its neighbour `a` contains a
      simple cycle. */
  lemma RootedGivesCycle(g: Graph, i: string, a: string)
    requires Rooted(g, i, a)
    ensures HasSimpleCycle(g)
  {
    var q :| q != [] && q[0] in Minus(g.adj[a], [i]) && Witness(g, [i, a], q);
    var w := [i, a] + q;
    var last := w[|w| - 1];
    var k :| 0 <= k < |g.adj[last]| && g.adj[last][k] in w[..|w| - 2];
    var j :| 0 <= j < |w| - 2 && w[..|w| - 2][j] == g.adj[last][k];
    var c := w[j..];
    SliceSimpleWalk(g, w, j);
    assert c[0] == w[j] && c[|c| - 1] == last;
    assert IsCycle(g, c);
  }

  /** A stretch of a simple walk is a simple walk. */
  lemma SliceSimpleWalk(g: Graph, w: seq<string>, j: nat)
    requires SimpleWalk(g, w) && j <= |w|
    ensures SimpleWalk(g, w[j..])
  {
    var c := w[j..];
    assert forall t :: 0 <= t < |c| ==> c[t] == w[j + t];
  }

  /** Every simple cycle is found from its first label and second label. */
  lemma CycleGivesRooted(g: Graph, c: seq<string>)
    requires Consistent(g) && IsCycle(g, c)
    ensures Linked(g, c[0], c[1]) && Rooted(g, c[0], c[1])
  {
    var q := c[2..];
    MinusMembers(g.adj[c[1]], [c[0]]);
    assert [c[0], c[1]] + q == c;
    assert c[2] in g.adj[c[1]] && c[2] != c[0];
    assert c[..|c| - 2][0] == c[0];
    assert Witness(g, [c[0], c[1]], q);
  }

  /** `has_cycle` on a graph without edges finds nothing. */
  lemma EdgelessAcyclic(g: Graph)
    requires forall k :: k in g.adj ==> g.adj[k] == []
    ensures !HasSimpleCycle(g)
  {
    forall c | IsWalk(g, c) ensures |c| <= 1 {
      WalkHead(g, c);
      assert c != [] ==> g.adj[c[0]] == [];
    }
  }

  /** The second label of a walk is listed by the first. */
  lemma WalkHead(g: Graph, c: seq<string>)
    requires IsWalk(g, c)
    ensures |c| >= 2 ==> c[0] in g.adj && c[1] in g.adj[c[0]]
  {
    if |c| >= 2 {
      assert c[0 + 1] in g.adj[c[0]];
    }
  }

  /** The explored path never repeats a label, so it is never longer than
      the key list: this bounds the recursion depth of the helper. */
  lemma SimpleWalkBounded(g: Graph, p: seq<string>)
    requires Consistent(g) && SimpleWalk(g, p)
    ensures |p| <= |g.keys|
  {
    DistinctNoLonger(p, g.keys);
  }

  /** The call `has_cycle` makes for the `t`-th key and the `j`-th entry of
      its list succeeds. */
  ghost predicate RootedAt(g: Graph, t: int, j: int) {
    && 0 <= t < |g.keys| && g.keys[t] in g.adj
    && 0 <= j < |g.adj[g.keys[t]]|
    && Rooted(g, g.keys[t], g.adj[g.keys[t]][j])
  }

  /** The first call of the helper for a label and its neighbour meets the
      helper's precondition. */
  lemma RootReady(g: Graph, i: string, a: string)
    requires Consistent(g) && Linked(g, i, a)
    ensures HelperReady(g, a, [i], Minus(g.adj[a], [i]))
  {
    var p := [i] + [a];
    MinusMembers(g.adj[a], [i]);
    assert p == [i, a];
    assert IsWalk(g, p) by {
      assert p[1] in g.adj[p[0]];
    }
  }

  /** `has_cycle` succeeds for some key and neighbour exactly when the
      graph has a simple cycle. */
  lemma CycleIffRooted(g: Graph)
    requires Consistent(g)
    ensures HasSimpleCycle(g) <==> exists t, j :: RootedAt(g, t, j)
  {
    if HasSimpleCycle(g) {
      var c :| IsCycle(g, c);
      CycleGivesRooted(g, c);
      var t := IndexOf(g.keys, c[0]);
      var j := IndexOf(g.adj[c[0]], c[1]);
      assert RootedAt(g, t, j);
    }
    if exists t, j :: RootedAt(g, t, j) {
      var t, j :| RootedAt(g, t, j);
      RootedGivesCycle(g, g.keys[t], g.adj[g.keys[t]][j]);
    }
  }

  /** When the popped label `v` lists no label of `visited`, every witness
      through `v` is found by the recursive call on `v`. */
  lemma DescendAll(g: Graph, vertex: string, visited: seq<string>, v: string)
    requires Consistent(g) && v in g.adj
    requires Disjoint(g.adj[v], visited)
    ensures (exists q :: q != [] && q[0] == v && Witness(g, visited + [vertex], q)) ==>
      FoundFrom(g, visited + [vertex] + [v], Minus(g.adj[v], [vertex]))
  {
    if exists q :: q != [] && q[0] == v && Witness(g, visited + [vertex], q) {
      var q :| q != [] && q[0] == v && Witness(g, visited + [vertex], q);
      WitnessDescend(g, vertex, visited, q);
      assert q[1..][0] == q[1];
    }
  }
}
