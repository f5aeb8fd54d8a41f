/** Value-level specification of the undirected graph of ud_graph.py: the
    adjacency dictionary as an insertion-ordered key list plus a map from
    label to neighbour list, its invariants, and one function per mutator
    that the methods of `UndirectedGraph` are proved against. */
module UdSpec {
  import opened Seqs

  /** The state of an `UndirectedGraph`: `keys` is the dictionary's key order
      (insertion order), `adj` maps each label to its neighbour list. */
  datatype Graph = Graph(keys: seq<string>, adj: map<string, seq<string>>)

  /** What every operation keeps, `get_edges` included: the key order lists
      each key once, no list holds its own key, and every neighbour is a key. */
  ghost predicate Consistent(g: Graph) {
    && Distinct(g.keys)
    && (forall k :: k in g.keys <==> k in g.adj)
    && (forall k :: k in g.adj ==> k !in g.adj[k])
    && (forall k, n :: k in g.adj && n in g.adj[k] ==> n in g.adj)
  }

  /** The documented class invariant: in addition, no list holds a label
      twice and adjacency is symmetric. */
  ghost predicate WellFormed(g: Graph) {
    && Consistent(g)
    && ListsDistinct(g)
    && Symmetric(g)
  }

  /** `v` is in the neighbour list of `u`. */
  predicate Linked(g: Graph, u: string, v: string) {
    u in g.adj && v in g.adj[u]
  }

  /** `add_vertex(v)`: a new label is appended to the key order with an
      empty list; an existing label changes nothing. */
  function AddVertexTo(g: Graph, v: string): (r: Graph)
    ensures v in r.adj && r.adj.Keys == g.adj.Keys + {v}
    ensures forall k :: k in g.adj ==> r.adj[k] == g.adj[k]
    ensures v in g.adj ==> r == g
    ensures v !in g.adj ==> r.keys == g.keys + [v] && r.adj[v] == []
    ensures Consistent(g) ==> Consistent(r)
    ensures WellFormed(g) ==> WellFormed(r)
  {
    if v in g.adj then g else Graph(g.keys + [v], g.adj[v := []])
  }

  /** `add_edge(u, v)`, branch by branch: a self-loop is refused; missing
      endpoints are created (first `u`, then `v`) with a one-element list;
      an existing endpoint gets the other appended, unless the two are
      already adjacent in either direction. */
  function AddEdgeTo(g: Graph, u: string, v: string): (r: Graph)
    ensures u == v ==> r == g
    ensures u != v ==> r.adj.Keys == g.adj.Keys + {u, v}
    ensures u != v ==> Linked(r, u, v) || Linked(r, v, u)
    ensures forall k :: k in g.adj && k != u && k != v ==> r.adj[k] == g.adj[k]
  {
    if u == v then g
    else if u !in g.adj && v !in g.adj then
      Graph(g.keys + [u, v], g.adj[u := [v]][v := [u]])
    else if u in g.adj && v !in g.adj then
      Graph(g.keys + [v], g.adj[u := g.adj[u] + [v]][v := [u]])
    else if u !in g.adj && v in g.adj then
      Graph(g.keys + [u], g.adj[u := [v]][v := g.adj[v] + [u]])
    else if u in g.adj[v] || v in g.adj[u] then g
    else Graph(g.keys, g.adj[u := g.adj[u] + [v]][v := g.adj[v] + [u]])
  }

  /** Where `add_edge(u, v)` puts what it creates: new labels go at the end
      of the key order, `u` before `v`; a new endpoint gets a one-element
      list and an existing one gets the other appended; a pair already
      adjacent in either direction leaves the whole graph as it was. */
  lemma AddEdgeShape(g: Graph, u: string, v: string)
    requires u != v
    ensures u !in g.adj && v !in g.adj ==> AddEdgeTo(g, u, v).keys == g.keys + [u, v]
    ensures u in g.adj && v !in g.adj ==> AddEdgeTo(g, u, v).keys == g.keys + [v]
    ensures u !in g.adj && v in g.adj ==> AddEdgeTo(g, u, v).keys == g.keys + [u]
    ensures u in g.adj && v in g.adj ==> AddEdgeTo(g, u, v).keys == g.keys
    ensures u in g.adj && v in g.adj && (v in g.adj[u] || u in g.adj[v]) ==> AddEdgeTo(g, u, v) == g
    ensures u !in g.adj ==> AddEdgeTo(g, u, v).adj[u] == [v]
    ensures v !in g.adj ==> AddEdgeTo(g, u, v).adj[v] == [u]
    ensures u in g.adj && !(v in g.adj && (v in g.adj[u] || u in g.adj[v]))
      ==> AddEdgeTo(g, u, v).adj[u] == g.adj[u] + [v]
    ensures v in g.adj && !(u in g.adj && (v in g.adj[u] || u in g.adj[v]))
      ==> AddEdgeTo(g, u, v).adj[v] == g.adj[v] + [u]
  {
  }

  /** `add_edge` keeps the representation invariant. */
  lemma AddEdgeConsistent(g: Graph, u: string, v: string)
    requires Consistent(g)
    ensures Consistent(AddEdgeTo(g, u, v))
  {
    var r := AddEdgeTo(g, u, v);
    if u != v {
      if u !in g.adj && v !in g.adj {
        DistinctConcat(g.keys, [u, v]);
        assert forall k :: k in r.keys <==> k in g.keys || k == u || k == v;
      } else if u in g.adj && v !in g.adj {
        DistinctConcat(g.keys, [v]);
        assert forall k :: k in r.keys <==> k in g.keys || k == v;
      } else if u !in g.adj && v in g.adj {
        DistinctConcat(g.keys, [u]);
        assert forall k :: k in r.keys <==> k in g.keys || k == u;
      }
      assert forall k :: k in r.adj ==> k !in r.adj[k];
      assert forall k, n :: k in r.adj && n in r.adj[k] ==> n in r.adj;
    }
  }

  /** No list holds a label twice. */
  ghost predicate ListsDistinct(g: Graph) {
    forall k :: k in g.adj ==> Distinct(g.adj[k])
  }

  /** `v` lists `u` whenever `u` lists `v`. */
  ghost predicate Symmetric(g: Graph) {
    forall u, v :: u in g.adj && v in g.adj[u] ==> v in g.adj && u in g.adj[v]
  }

  lemma AddEdgeDistinct(g: Graph, u: string, v: string)
    requires WellFormed(g)
    ensures ListsDistinct(AddEdgeTo(g, u, v))
  {
    var r := AddEdgeTo(g, u, v);
    if u != v {
      forall k | k in r.adj ensures Distinct(r.adj[k]) {
        if k == u && u in g.adj && r.adj[u] != g.adj[u] {
          assert r.adj[u] == g.adj[u] + [v] && v !in g.adj[u];
        } else if k == v && v in g.adj && r.adj[v] != g.adj[v] {
          assert r.adj[v] == g.adj[v] + [u] && u !in g.adj[v];
        }
      }
    }
  }

  lemma AddEdgeSymmetric(g: Graph, u: string, v: string)
    requires WellFormed(g)
    ensures Symmetric(AddEdgeTo(g, u, v))
  {
    var r := AddEdgeTo(g, u, v);
    if u != v {
      forall a, b | a in r.adj && b in r.adj[a] ensures b in r.adj && a in r.adj[b] {
        if (a == u && b == v) || (a == v && b == u) {
        } else {
          assert b in g.adj[a];
        }
      }
    }
  }

  /** `add_edge` keeps the class invariant. */
  lemma AddEdgeWellFormed(g: Graph, u: string, v: string)
    requires WellFormed(g)
    ensures WellFormed(AddEdgeTo(g, u, v))
  {
    assert ListsDistinct(g) && Symmetric(g);
    AddEdgeConsistent(g, u, v);
    AddEdgeDistinct(g, u, v);
    AddEdgeSymmetric(g, u, v);
    var r := AddEdgeTo(g, u, v);
    assert ListsDistinct(r) && Symmetric(r);
  }

  /** On a well-formed graph `add_edge(u, v)` with `u != v` adds exactly the
      edge `{u, v}`, in both lists, and nothing else. */
  lemma AddEdgeLinks(g: Graph, u: string, v: string, a: string, b: string)
    requires WellFormed(g) && u != v
    ensures Linked(AddEdgeTo(g, u, v), a, b) <==>
      Linked(g, a, b) || (a == u && b == v) || (a == v && b == u)
  {
  }

  /** Adding the same edge twice is adding it once. */
  lemma AddEdgeIdempotent(g: Graph, u: string, v: string)
    ensures AddEdgeTo(AddEdgeTo(g, u, v), u, v) == AddEdgeTo(g, u, v)
  {
  }

  /** `remove_edge(v, u)`: when both are keys and each lists the other,
      removes `u` from `v`'s list and then `v` from `u`'s list; otherwise
      changes nothing. The key order never changes. */
  function RemoveEdgeFrom(g: Graph, v: string, u: string): (r: Graph)
    ensures r.keys == g.keys && r.adj.Keys == g.adj.Keys
    ensures !(Linked(g, v, u) && Linked(g, u, v)) ==> r == g
    ensures forall k :: k in g.adj && k != u && k != v ==> r.adj[k] == g.adj[k]
    ensures Consistent(g) ==> Consistent(r)
  {
    if u !in g.adj || v !in g.adj then g
    else if u !in g.adj[v] || v !in g.adj[u] then g
    else
      var a := g.adj[v := RemoveFirst(g.adj[v], u)];
      Graph(g.keys, a[u := RemoveFirst(a[u], v)])
  }

  /** On a duplicate-free list, `list.remove(x)` drops exactly `x`. */
  lemma RemoveFirstMembership(s: seq<string>, x: string)
    requires Distinct(s)
    ensures Distinct(RemoveFirst(s, x))
    ensures forall y :: y in RemoveFirst(s, x) <==> y in s && y != x
  {
    RemoveFirstIsMinus(s, x);
    MinusDistinct(s, [x]);
  }

  /** On a well-formed graph `remove_edge` keeps the invariant and removes
      exactly the edge `{u, v}` (in both lists). */
  lemma RemoveEdgeLinks(g: Graph, v: string, u: string, a: string, b: string)
    requires WellFormed(g)
    ensures WellFormed(RemoveEdgeFrom(g, v, u))
    ensures Linked(RemoveEdgeFrom(g, v, u), a, b) <==>
      Linked(g, a, b) && !(a == u && b == v) && !(a == v && b == u)
  {
    if Linked(g, v, u) {
      RemoveFirstMembership(g.adj[v], u);
      RemoveFirstMembership(g.adj[u], v);
    }
  }

  /** The loop of `remove_vertex`: `adj[n].remove(v)` for each `n` of `ns`
      in turn. */
  function Strip(adj: map<string, seq<string>>, ns: seq<string>, v: string): (r: map<string, seq<string>>)
    requires forall n :: n in ns ==> n in adj
    ensures r.Keys == adj.Keys
  {
    if ns == [] then adj
    else
      var a := Strip(adj, ns[..|ns| - 1], v);
      var n := ns[|ns| - 1];
      a[n := RemoveFirst(a[n], v)]
  }

  /** A list not named in `ns` is untouched; on a duplicate-free `ns` each
      named list loses its first `v`. */
  lemma {:induction false} StripLists(adj: map<string, seq<string>>, ns: seq<string>, v: string)
    requires forall n :: n in ns ==> n in adj
    ensures forall k :: k in adj && k !in ns ==> Strip(adj, ns, v)[k] == adj[k]
    ensures Distinct(ns) ==> forall k :: k in ns ==> Strip(adj, ns, v)[k] == RemoveFirst(adj[k], v)
    decreases |ns|
  {
    if ns != [] {
      var ns' := ns[..|ns| - 1];
      StripLists(adj, ns', v);
      assert forall k :: k in ns <==> k in ns' || k == ns[|ns| - 1];
      if Distinct(ns) {
        assert ns[|ns| - 1] !in ns';
      }
    }
  }

  /** The loop of `remove_vertex` one neighbour further. */
  lemma StripStep(adj: map<string, seq<string>>, ns: seq<string>, v: string, t: nat)
    requires forall n :: n in ns ==> n in adj
    requires t < |ns|
    ensures Strip(adj, ns[..t + 1], v) ==
      Strip(adj, ns[..t], v)[ns[t] := RemoveFirst(Strip(adj, ns[..t], v)[ns[t]], v)]
  {
    PrefixStep(ns, t);
  }

  /** `remove_vertex(v)`: removes `v` from the list of each of its
      neighbours, then deletes the key; an unknown label changes nothing.
      Python raises unless every neighbour of `v` is a key. */
  function RemoveVertexFrom(g: Graph, v: string): (r: Graph)
    requires v in g.adj ==> forall n :: n in g.adj[v] ==> n in g.adj
    ensures v !in r.adj && r.adj.Keys == g.adj.Keys - {v}
    ensures v !in g.adj ==> r == g
  {
    if v !in g.adj then g
    else Graph(RemoveFirst(g.keys, v), Strip(g.adj, g.adj[v], v) - {v})
  }

  /** After `remove_vertex(v)` on a well-formed graph every remaining list
      is the old one without `v`. */
  lemma RemoveVertexLists(g: Graph, v: string, k: string)
    requires WellFormed(g) && v in g.adj
    requires k in RemoveVertexFrom(g, v).adj
    ensures RemoveVertexFrom(g, v).adj[k] == Minus(g.adj[k], [v])
    ensures forall x :: x in RemoveVertexFrom(g, v).adj[k] <==> x in g.adj[k] && x != v
    ensures Distinct(RemoveVertexFrom(g, v).adj[k])
  {
    MinusMembers(g.adj[k], [v]);
    StripLists(g.adj, g.adj[v], v);
    if k in g.adj[v] {
      RemoveFirstIsMinus(g.adj[k], v);
    } else {
      MinusNothing(g.adj[k], [v]);
    }
    MinusDistinct(g.adj[k], [v]);
  }

  /** `remove_vertex(v)` drops `v` from the key order, keeping the order of
      the others. */
  lemma RemoveVertexKeys(g: Graph, v: string)
    requires WellFormed(g)
    ensures RemoveVertexFrom(g, v).keys == Minus(g.keys, [v])
    ensures Distinct(RemoveVertexFrom(g, v).keys)
    ensures forall k :: k in RemoveVertexFrom(g, v).keys <==> k in RemoveVertexFrom(g, v).adj
  {
    if v in g.adj {
      RemoveFirstMembership(g.keys, v);
      RemoveFirstIsMinus(g.keys, v);
    } else {
      assert v !in g.keys;
      MinusNothing(g.keys, [v]);
    }
  }

  lemma RemoveVertexDistinct(g: Graph, v: string)
    requires WellFormed(g)
    ensures ListsDistinct(RemoveVertexFrom(g, v))
  {
    var r := RemoveVertexFrom(g, v);
    if v in g.adj {
      forall k | k in r.adj ensures Distinct(r.adj[k]) {
        RemoveVertexLists(g, v, k);
      }
    }
  }

  /** Every listed label of a symmetric graph is a key. */
  lemma SymmetricClosed(g: Graph)
    requires Symmetric(g)
    ensures forall k, n :: k in g.adj && n in g.adj[k] ==> n in g.adj
  {
  }

  lemma RemoveVertexSymmetric(g: Graph, v: string)
    requires WellFormed(g) && v in g.adj
    ensures Symmetric(RemoveVertexFrom(g, v))
  {
    var r := RemoveVertexFrom(g, v);
    forall a, b | a in r.adj && b in r.adj[a] ensures b in r.adj && a in r.adj[b] {
      RemoveVertexEdge(g, v, a, b);
    }
  }

  lemma RemoveVertexEdge(g: Graph, v: string, a: string, b: string)
    requires WellFormed(g) && v in g.adj
    requires a in RemoveVertexFrom(g, v).adj && b in RemoveVertexFrom(g, v).adj[a]
    ensures b in RemoveVertexFrom(g, v).adj && a in RemoveVertexFrom(g, v).adj[b]
  {
    var r := RemoveVertexFrom(g, v);
    RemoveVertexLists(g, v, a);
    assert b in g.adj[a] && b != v;
    assert a in g.adj[b] && a != v;
    RemoveVertexLists(g, v, b);
  }

  lemma RemoveVertexNoLoops(g: Graph, v: string)
    requires WellFormed(g)
    ensures forall k :: k in RemoveVertexFrom(g, v).adj ==> k !in RemoveVertexFrom(g, v).adj[k]
  {
    var r := RemoveVertexFrom(g, v);
    if v in g.adj {
      forall k | k in r.adj ensures k !in r.adj[k] {
        RemoveVertexLists(g, v, k);
      }
    }
  }

  /** `remove_vertex(v)` keeps the class invariant. */
  lemma RemoveVertexWellFormed(g: Graph, v: string)
    requires WellFormed(g)
    ensures WellFormed(RemoveVertexFrom(g, v))
  {
    var r := RemoveVertexFrom(g, v);
    if v in g.adj {
      RemoveVertexKeys(g, v);
      RemoveVertexDistinct(g, v);
      RemoveVertexSymmetric(g, v);
      RemoveVertexNoLoops(g, v);
      SymmetricClosed(r);
      assert Consistent(r);
    } else {
      assert r == g;
    }
  }

  /** On a well-formed graph `remove_vertex(v)` removes every edge at `v`
      and leaves every other adjacency as it was. */
  lemma RemoveVertexLinks(g: Graph, v: string, a: string, b: string)
    requires WellFormed(g)
    ensures Linked(RemoveVertexFrom(g, v), a, b) <==> Linked(g, a, b) && a != v && b != v
  {
    var r := RemoveVertexFrom(g, v);
    if v in g.adj && a in r.adj {
      RemoveVertexLists(g, v, a);
    }
  }

  /** The constructor: `add_edge(u, v)` for every pair, in order. */
  function Build(edges: seq<(string, string)>): (g: Graph)
    ensures WellFormed(g)
  {
    if edges == [] then Graph([], map[])
    else
      var e := edges[|edges| - 1];
      var init := Build(edges[..|edges| - 1]);
      AddEdgeWellFormed(init, e.0, e.1);
      AddEdgeTo(init, e.0, e.1)
  }

  /** The graph built from a list of pairs has exactly the edges listed
      (in either orientation), self-loops excepted. */
  lemma {:induction false} BuildLinks(edges: seq<(string, string)>, a: string, b: string)
    ensures Linked(Build(edges), a, b) <==> a != b && ((a, b) in edges || (b, a) in edges)
    decreases |edges|
  {
    if edges != [] {
      var init := edges[..|edges| - 1];
      var e := edges[|edges| - 1];
      assert edges == init + [e];
      BuildLinks(init, a, b);
      if e.0 != e.1 {
        AddEdgeLinks(Build(init), e.0, e.1, a, b);
      }
    }
  }

  /** The labels of the built graph are exactly the endpoints of the pairs
      that are not self-loops. */
  lemma {:induction false} BuildKeys(edges: seq<(string, string)>, a: string)
    ensures a in Build(edges).adj <==> exists e :: e in edges && e.0 != e.1 && (a == e.0 || a == e.1)
    decreases |edges|
  {
    if edges != [] {
      var init := edges[..|edges| - 1];
      var e := edges[|edges| - 1];
      assert edges == init + [e];
      BuildKeys(init, a);
      if a in Build(init).adj {
        var e' :| e' in init && e'.0 != e'.1 && (a == e'.0 || a == e'.1);
        assert e' in edges;
      }
      if a in Build(edges).adj && a !in Build(init).adj {
        assert e in edges;
      }
    }
  }

  /** What `is_valid_path` accepts: every entry is a key and each next entry
      is in the list of the one before it (so the empty list too). */
  predicate IsWalk(g: Graph, p: seq<string>) {
    && (forall k :: 0 <= k < |p| ==> p[k] in g.adj)
    && (forall k :: 0 <= k < |p| - 1 ==> p[k + 1] in g.adj[p[k]])
  }

  /** In a well-formed graph a walk can be travelled backwards. */
  lemma WalkReversed(g: Graph, p: seq<string>)
    requires WellFormed(g) && IsWalk(g, p)
    ensures IsWalk(g, Reverse(p))
  {
    var q := Reverse(p);
    forall k | 0 <= k < |q| - 1 ensures q[k + 1] in g.adj[q[k]] {
      var j := |p| - 2 - k;
      assert q[k] == p[j + 1] && q[k + 1] == p[j];
    }
  }
}
