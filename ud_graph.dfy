/** `UndirectedGraph` of ud_graph.py: an unweighted graph with string
    labels, stored as a dictionary from label to neighbour list. The
    dictionary is `keys` (its insertion order) plus `adj`; every method
    that changes the dictionary is proved to produce the state the
    matching function of `UdSpec` or `UdEdges` describes. */
module UdGraph {
  import opened Seqs
  import opened LabelOrder
  import opened UdSpec
  import opened UdEdges
  import opened UdSearch
  import opened UdComponents
  import opened UdCycle

  class UndirectedGraph {
    var keys: seq<string>
    var adj: map<string, seq<string>>

    /** The dictionary as a value. */
    function State(): Graph
      reads this
    {
      Graph(keys, adj)
    }

    /** The documented invariant: no duplicate edge, no loop, every
        neighbour a label, adjacency symmetric. */
    ghost predicate Valid()
      reads this
    {
      WellFormed(State())
    }

    /** `UndirectedGraph(start_edges)`: an empty dictionary, then
        `add_edge(u, v)` for every pair in order. */
    constructor (startEdges: Option<seq<(string, string)>>)
      ensures startEdges.None? ==> State() == Graph([], map[])
      ensures startEdges.Some? ==> State() == Build(startEdges.value)
      ensures Valid()
    {
      keys := [];
      adj := map[];
      new;
      assert State() == Build([]);
      if startEdges.Some? {
        var edges := startEdges.value;
        for k := 0 to |edges|
          invariant State() == Build(edges[..k])
        {
          PrefixStep(edges, k);
          var (u, v) := edges[k];
          AddEdge(u, v);
        }
        assert edges[..|edges|] == edges;
      }
    }

    /** `add_vertex(v)`. */
    method AddVertex(v: string)
      modifies this
      ensures State() == AddVertexTo(old(State()), v)
    {
      if v in adj {
        return;
      } else {
        keys := keys + [v];
        adj := adj[v := []];
      }
    }

    /** `add_edge(u, v)`, with the same five branches as the source. */
    method AddEdge(u: string, v: string)
      modifies this
      ensures State() == AddEdgeTo(old(State()), u, v)
      ensures old(Valid()) ==> Valid()
    {
      if Valid() {
        AddEdgeWellFormed(State(), u, v);
      }
      if u == v {
        return;
      } else if u !in adj && v !in adj {
        keys := keys + [u];
        adj := adj[u := [v]];
        keys := keys + [v];
        adj := adj[v := [u]];
      } else if u in adj && v !in adj {
        adj := adj[u := adj[u] + [v]];
        keys := keys + [v];
        adj := adj[v := [u]];
      } else if u !in adj && v in adj {
        keys := keys + [u];
        adj := adj[u := [v]];
        adj := adj[v := adj[v] + [u]];
      } else {
        if u in adj[v] || v in adj[u] {
          return;
        } else {
          adj := adj[u := adj[u] + [v]];
          adj := adj[v := adj[v] + [u]];
        }
      }
    }

    /** `remove_edge(v, u)`. */
    method RemoveEdge(v: string, u: string)
      modifies this
      ensures State() == RemoveEdgeFrom(old(State()), v, u)
      ensures old(Valid()) ==> Valid()
    {
      if Valid() {
        RemoveEdgeLinks(State(), v, u, v, u);
      }
      if u !in adj || v !in adj {
        return;
      } else if u !in adj[v] || v !in adj[u] {
        return;
      } else {
        adj := adj[v := RemoveFirst(adj[v], u)];
        adj := adj[u := RemoveFirst(adj[u], v)];
      }
    }

    /** `remove_vertex(v)`: `v` is removed from each neighbour's list in
        turn, then the key is popped. */
    method RemoveVertex(v: string)
      requires Valid()
      modifies this
      ensures State() == RemoveVertexFrom(old(State()), v)
      ensures Valid()
    {
      ghost var g := State();
      if v in adj {
        var ns := adj[v];
        assert forall n :: n in ns ==> n in g.adj;
        for t := 0 to |ns|
          invariant keys == g.keys
          invariant adj == Strip(g.adj, ns[..t], v)
        {
          StripStep(g.adj, ns, v, t);
          var n := ns[t];
          adj := adj[n := RemoveFirst(adj[n], v)];
        }
        assert ns[..|ns|] == ns;
        keys := RemoveFirst(keys, v);
        adj := adj - {v};
      }
      assert State() == RemoveVertexFrom(g, v);
      RemoveVertexWellFormed(g, v);
    }

    /** `get_vertices()`: the labels in insertion order. */
    method GetVertices() returns (vertices: seq<string>)
      ensures vertices == keys
      ensures UdSpec.Consistent(State()) ==>
        Distinct(vertices) && forall k :: k in vertices <==> k in adj
    {
      vertices := [];
      for i := 0 to |keys|
        invariant vertices == keys[..i]
      {
        vertices := vertices + [keys[i]];
      }
      assert keys[..|keys|] == keys;
    }

    /** `get_edges()`. The copy the source makes is shallow, so removing
        `key` from `edge_dict[neighbor]` edits the real list: afterwards
        each list keeps only the neighbours inserted after its own label. */
    method GetEdges() returns (edges: seq<(string, string)>)
      requires Valid()
      modifies this
      ensures edges == EdgeList(old(State()))
      ensures State() == Pruned(old(State()))
    {
      ghost var g0 := State();
      RowsStart(g0);
      edges := [];
      for i := 0 to |keys|
        invariant keys == g0.keys && adj == Rows(g0, i)
        invariant edges == EdgesUpTo(g0, i)
      {
        var row := VisitKey(g0, i);
        edges := edges + row;
      }
      RowsEnd(g0);
    }

    /** One pass of the outer loop of `get_edges`: unless the `i`-th key's
        list is empty, list a tuple for each of its neighbours and remove
        the key from that neighbour's list. */
    method VisitKey(ghost g0: Graph, i: nat) returns (row: seq<(string, string)>)
      requires WellFormed(g0) && i < |g0.keys|
      requires keys == g0.keys && adj == Rows(g0, i)
      modifies this
      ensures keys == g0.keys && adj == Rows(g0, i + 1)
      ensures row == Pairs(g0.keys[i], RowAfter(g0, i, i))
    {
      var key := keys[i];
      RowsAt(g0, i, i);
      var list := adj[key];
      DuringStart(g0, i);
      row := [];
      if list != [] {
        assert list[..0] == [];
        for t := 0 to |list|
          invariant keys == g0.keys
          invariant row == Pairs(key, list[..t])
          invariant adj == During(g0, i, list[..t])
        {
          var n := list[t];
          DuringStep(g0, i, list, t);
          PairsSnoc(key, list, t);
          row := row + [(key, n)];
          adj := adj[n := RemoveFirst(adj[n], key)];
        }
        assert list[..|list|] == list;
      }
      DuringDone(g0, i);
    }

    /** `is_valid_path(path)`. */
    method IsValidPath(path: seq<string>) returns (valid: bool)
      ensures valid == IsWalk(State(), path)
    {
      if path == [] {
        return true;
      }
      for i := 0 to |path|
        invariant i <= |path| - 1
        invariant forall k :: 0 <= k < i ==> path[k] in adj && path[k + 1] in adj[path[k]]
      {
        if path[i] !in adj {
          return false;
        } else if i == |path| - 1 {
          return true;
        } else if path[i + 1] !in adj[path[i]] {
          return false;
        }
      }
      assert false;
    }

    /** `dfs(v_start, v_end)`: the list `DfsRun` defines. */
    method Dfs(start: string, end: Option<string> := None) returns (r: seq<string>)
      requires UdSpec.Consistent(State())
      ensures start !in adj ==> r == []
      ensures start in adj ==> r == DfsRun(State(), [start], [], Target(State(), end))
      ensures start in adj ==> Outcome(State(), start, r, Target(State(), end))
    {
      if start !in adj {
        return [];
      }
      var target := end;
      if end.None? || end.value !in adj {
        target := None;
      }
      ghost var g := State();
      TraversalsAgree(g, start, end, start);
      var reachable: seq<string> := [];
      var stack := [start];
      while stack != []
        invariant AllKeys(g, stack)
        invariant DfsRun(g, stack, reachable, target) == DfsRun(g, [start], [], target)
        decreases Unseen(g, reachable), |stack|
      {
        ghost var next := DfsStep(g, stack, reachable);
        var v := stack[|stack| - 1];
        stack := stack[..|stack| - 1];
        if target == Some(v) {
          reachable := reachable + [v];
          return reachable;
        }
        if v !in reachable {
          reachable := reachable + [v];
          stack := PushAll(stack, Reverse(Sort(adj[v])));
        }
        assert stack == next.0 && reachable == next.1;
      }
      return reachable;
    }

    /** `bfs(v_start, v_end)`: the list `BfsRun` defines. */
    method Bfs(start: string, end: Option<string> := None) returns (r: seq<string>)
      requires UdSpec.Consistent(State())
      ensures start !in adj ==> r == []
      ensures start in adj ==> r == BfsRun(State(), [start], [], Target(State(), end))
      ensures start in adj ==> Outcome(State(), start, r, Target(State(), end))
    {
      if start !in adj {
        return [];
      }
      var target := end;
      if end.None? || end.value !in adj {
        target := None;
      }
      ghost var g := State();
      TraversalsAgree(g, start, end, start);
      var reachable: seq<string> := [];
      var queue := [start];
      while queue != []
        invariant AllKeys(g, queue)
        invariant BfsRun(g, queue, reachable, target) == BfsRun(g, [start], [], target)
        decreases Unseen(g, reachable), |queue|
      {
        ghost var next := BfsStep(g, queue, reachable);
        var v := queue[0];
        queue := queue[1..];
        if target == Some(v) {
          reachable := reachable + [v];
          return reachable;
        }
        if v !in reachable {
          reachable := reachable + [v];
          queue := EnqueueUnvisited(queue, Sort(adj[v]), reachable);
        }
        assert queue == next.0 && reachable == next.1;
      }
      return reachable;
    }

    /** The push loop of `dfs`. */
    static method PushAll(stack: seq<string>, ns: seq<string>) returns (r: seq<string>)
      ensures r == stack + ns
    {
      r := stack;
      for i := 0 to |ns|
        invariant r == stack + ns[..i]
      {
        r := r + [ns[i]];
      }
      assert ns[..|ns|] == ns;
    }

    /** The enqueue loop of `bfs`: only neighbours not yet visited. */
    static method EnqueueUnvisited(queue: seq<string>, ns: seq<string>, visited: seq<string>) returns (r: seq<string>)
      ensures r == queue + Minus(ns, visited)
    {
      r := queue;
      for i := 0 to |ns|
        invariant r == queue + Minus(ns[..i], visited)
      {
        PrefixStep(ns, i);
        if ns[i] !in visited {
          r := r + [ns[i]];
        }
      }
      assert ns[..|ns|] == ns;
    }

    /** `count_connected_components()`: breadth-first search from the
        alphabetically first label, then from any label not yet covered,
        until the covered labels sorted equal all labels sorted. The rounds
        are returned as the ghost `comps`. */
    method CountConnectedComponents() returns (count: int, ghost comps: seq<seq<string>>)
      requires Valid() && |keys| > 0
      ensures count == |comps| && 1 <= count <= |keys|
      ensures Rounds(State(), comps)
      ensures forall x :: x in adj <==> x in Flatten(comps)
      ensures comps[0] != [] && comps[0][0] == Sort(keys)[0]
    {
      ghost var g := State();
      var complete := Sort(keys);
      SortMembers(keys);
      SortIdempotent(complete);
      var v := complete[0];
      var totalComps: seq<string> := [];
      var quantity := 0;
      comps := [];
      while totalComps != complete
        invariant quantity == |comps|
        invariant Rounds(g, comps) && totalComps == Flatten(comps)
        invariant v in adj && v !in totalComps
        invariant |comps| == 0 ==> v == complete[0]
        invariant |comps| > 0 ==> comps[0] != [] && comps[0][0] == complete[0]
        decreases |keys| - |totalComps|
      {
        quantity := quantity + 1;
        var c := Bfs(v);
        RoundsAdd(g, comps, v, c);
        comps := comps + [c];
        totalComps := totalComps + c;
        CoverTest(g, totalComps);
        if Sort(totalComps) == complete {
          RoundsComponents(g, comps);
          assert forall x :: x in g.adj <==> x in Flatten(comps);
          assert State() == g;
          return quantity, comps;
        } else {
          v :| v in complete && v !in totalComps;
        }
      }
      assert false;
    }

    /** `has_cycle()`: for every label `i` and every neighbour `a` of it,
        search from the path `[i, a]` with the neighbours of `a` other
        than `i` on the stack. */
    method HasCycle() returns (r: bool)
      requires UdSpec.Consistent(State())
      ensures r <==> HasSimpleCycle(State())
    {
      ghost var g := State();
      CycleIffRooted(g);
      var order := keys;
      for k := 0 to |order|
        invariant forall t, j :: 0 <= t < k ==> !RootedAt(g, t, j)
      {
        var found := SearchFromKey(g, k);
        if found {
          return true;
        }
      }
      return false;
    }

    /** One round of the outer loop of `has_cycle()`: for the `k`-th key `i`
        and each neighbour `a` of it in turn, call the helper on the path
        `[i, a]`, stopping at the first success. */
    method SearchFromKey(ghost g: Graph, k: nat) returns (found: bool)
      requires g == State() && UdSpec.Consistent(g) && k < |keys|
      ensures found <==> exists j :: RootedAt(g, k, j)
    {
      var i := keys[k];
      var visited := [i];
      var ns := adj[i];
      for s := 0 to |ns|
        invariant forall j :: 0 <= j < s ==> !RootedAt(g, k, j)
      {
        var adjacent := ns[s];
        var stack := DropLabel(adj[adjacent], i);
        RootReady(g, i, adjacent);
        var result := HasCycleHelper(adjacent, visited, stack);
        assert [i] + [adjacent] == [i, adjacent];
        assert result <==> RootedAt(g, k, s);
        if result {
          return true;
        }
      }
      return false;
    }

    /** `has_cycle_helper(vertex, visited, stack)`: pop each stack entry
        `v`; succeed if `v` lists a label of `visited`, otherwise recurse on
        `v` with the path extended by `vertex`. The path never repeats a
        label, which bounds the recursion. */
    method HasCycleHelper(vertex: string, visited: seq<string>, stack: seq<string>) returns (r: bool)
      requires UdSpec.Consistent(State())
      requires HelperReady(State(), vertex, visited, stack)
      ensures r <==> FoundFrom(State(), visited + [vertex], stack)
      decreases Unseen(State(), visited + [vertex])
    {
      ghost var g := State();
      ghost var path := visited + [vertex];
      var st := stack;
      while st != []
        invariant |st| <= |stack| && st == stack[..|st|]
        invariant forall q :: q != [] && q[0] in stack[|st|..] ==> !Witness(g, path, q)
      {
        var v := st[|st| - 1];
        SuffixStep(stack, |st|);
        st := st[..|st| - 1];
        if !Disjoint(adj[v], visited) {
          WitnessHere(g, vertex, visited, v);
          FoundBy(g, path, stack, [v]);
          return true;
        } else {
          var newVisited := visited + [vertex];
          var newStack := DropLabel(adj[v], vertex);
          HelperRecurse(g, vertex, visited, v);
          DescendAll(g, vertex, visited, v);
          assert v in Unseen(g, path) && v !in Unseen(g, newVisited + [v]);
          var result := HasCycleHelper(v, newVisited, newStack);
          if result {
            ghost var q' :| q' != [] && q'[0] in newStack && Witness(g, newVisited + [v], q');
            WitnessLift(g, path, v, q');
            FoundBy(g, path, stack, [v] + q');
            return true;
          }
        }
      }
      assert stack[|st|..] == stack;
      return false;
    }

    /** `[n for n in s if n != x]`, as the loops of `has_cycle` and
        `has_cycle_helper` build it. */
    static method DropLabel(s: seq<string>, x: string) returns (r: seq<string>)
      ensures r == Minus(s, [x])
    {
      r := [];
      for i := 0 to |s|
        invariant r == Minus(s[..i], [x])
      {
        PrefixStep(s, i);
        if s[i] != x {
          r := r + [s[i]];
        }
      }
      assert s[..|s|] == s;
    }
  }
}
