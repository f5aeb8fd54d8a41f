/** What `get_edges` of ud_graph.py returns and what it leaves behind.
    The method walks the keys in insertion order and, through a shallow
    copy of the dictionary, removes each key from the lists of its
    neighbours as it goes: each edge is listed once, from the earlier
    inserted endpoint, and the real lists keep only later-inserted
    neighbours afterwards. */
module UdEdges {
  import opened Seqs
  import opened UdSpec

  /** The tuples `(u, n)` for the entries `n` of `ns`, in order. */
  function Pairs(u: string, ns: seq<string>): (r: seq<(string, string)>)
    ensures |r| == |ns|
    ensures forall i :: 0 <= i < |ns| ==> r[i] == (u, ns[i])
  {
    if ns == [] then []
    else Pairs(u, ns[..|ns| - 1]) + [(u, ns[|ns| - 1])]
  }

  /** Listing one more neighbour adds its tuple at the end. */
  lemma PairsSnoc(u: string, ns: seq<string>, t: nat)
    requires t < |ns|
    ensures Pairs(u, ns[..t + 1]) == Pairs(u, ns[..t]) + [(u, ns[t])]
  {
    assert ns[..t + 1][..t] == ns[..t];
  }

  /** The list of key `p` once the keys before position `i` have been
      processed: the original list without those keys (and without the
      keys before `p` once `p` itself is reached). */
  function RowAfter(g: Graph, i: nat, p: nat): seq<string>
    requires Consistent(g) && i <= |g.keys| && p < |g.keys|
  {
    Minus(g.adj[g.keys[p]], g.keys[..if p < i then p else i])
  }

  /** Membership in the list of key `p` after `i` passes. */
  lemma RowMembers(g: Graph, i: nat, p: nat)
    requires Consistent(g) && i <= |g.keys| && p < |g.keys|
    ensures forall x :: x in RowAfter(g, i, p) <==>
      x in g.adj[g.keys[p]] && x !in g.keys[..if p < i then p else i]
  {
    MinusMembers(g.adj[g.keys[p]], g.keys[..if p < i then p else i]);
  }

  /** The tuples listed for the first `i` keys. */
  function EdgesUpTo(g: Graph, i: nat): seq<(string, string)>
    requires Consistent(g) && i <= |g.keys|
  {
    if i == 0 then []
    else EdgesUpTo(g, i - 1) + Pairs(g.keys[i - 1], RowAfter(g, i - 1, i - 1))
  }

  /** The list `get_edges` returns. */
  function EdgeList(g: Graph): seq<(string, string)>
    requires Consistent(g)
  {
    EdgesUpTo(g, |g.keys|)
  }

  /** The dictionary `get_edges` leaves behind: each list keeps only the
      neighbours inserted after its own key. */
  function Pruned(g: Graph): (r: Graph)
    requires Consistent(g)
    ensures r.keys == g.keys && r.adj.Keys == g.adj.Keys
  {
    Graph(g.keys, map k | k in g.adj :: Minus(g.adj[k], g.keys[..IndexOf(g.keys, k)]))
  }

  /** `get_edges` keeps the representation invariant: the pruned lists still
      hold only labels other than their own. */
  lemma PrunedConsistent(g: Graph)
    requires Consistent(g)
    ensures Consistent(Pruned(g))
  {
    forall k | k in g.adj
      ensures forall x :: x in Pruned(g).adj[k] <==> x in g.adj[k] && x !in g.keys[..IndexOf(g.keys, k)]
    {
      MinusMembers(g.adj[k], g.keys[..IndexOf(g.keys, k)]);
    }
  }

  /** Membership in the tuples listed for the first `i` keys. */
  lemma {:induction false} EdgesUpToMembership(g: Graph, i: nat, a: string, b: string)
    requires Consistent(g) && i <= |g.keys|
    ensures (a, b) in EdgesUpTo(g, i) <==>
      a in g.keys[..i] && b in g.adj[a] && b !in g.keys[..IndexOf(g.keys, a)]
    decreases i
  {
    if i > 0 {
      EdgesUpToMembership(g, i - 1, a, b);
      var u := g.keys[i - 1];
      var row := RowAfter(g, i - 1, i - 1);
      PairsMembers(u, row, a, b);
      RowMembers(g, i - 1, i - 1);
      LastKey(g, i, a);
    }
  }

  /** `(a, b)` is one of the tuples of `Pairs(u, ns)` exactly when `a` is
      `u` and `b` is listed. */
  lemma PairsMembers(u: string, ns: seq<string>, a: string, b: string)
    ensures (a, b) in Pairs(u, ns) <==> a == u && b in ns
  {
    if (a, b) in Pairs(u, ns) {
      var k :| 0 <= k < |ns| && Pairs(u, ns)[k] == (a, b);
    }
    if a == u && b in ns {
      var k :| 0 <= k < |ns| && ns[k] == b;
      assert Pairs(u, ns)[k] == (a, b);
    }
  }

  /** The `i`-th key is the one the first `i - 1` keys lack, at index `i - 1`. */
  lemma LastKey(g: Graph, i: nat, a: string)
    requires Consistent(g) && 0 < i <= |g.keys|
    ensures a in g.keys[..i] <==> a in g.keys[..i - 1] || a == g.keys[i - 1]
    ensures a in g.keys[..i - 1] ==> a != g.keys[i - 1]
    ensures IndexOf(g.keys, g.keys[i - 1]) == i - 1
  {
    var u := g.keys[i - 1];
    assert g.keys[..i] == g.keys[..i - 1] + [u];
    assert IndexOf(g.keys, u) == i - 1 by {
      var j := IndexOf(g.keys, u);
      assert g.keys[j] == g.keys[i - 1];
    }
    if a in g.keys[..i - 1] {
      var j :| 0 <= j < i - 1 && g.keys[j] == a;
      assert g.keys[j] != g.keys[i - 1];
    }
  }

  /** On a well-formed graph `get_edges` lists `(a, b)` exactly when `a` and
      `b` are adjacent and `a` was inserted before `b`; so each edge appears
      once, in one orientation. */
  lemma EdgeListMembership(g: Graph, a: string, b: string)
    requires WellFormed(g)
    ensures (a, b) in EdgeList(g) <==>
      Linked(g, a, b) && a in g.keys && b in g.keys && IndexOf(g.keys, a) < IndexOf(g.keys, b)
    ensures Linked(g, a, b) ==> ((a, b) in EdgeList(g) <==> (b, a) !in EdgeList(g))
  {
    assert g.keys[..|g.keys|] == g.keys;
    EdgesUpToMembership(g, |g.keys|, a, b);
    EdgesUpToMembership(g, |g.keys|, b, a);
    if Linked(g, a, b) {
      assert a in g.keys && b in g.keys && a != b;
      var ia := IndexOf(g.keys, a);
      var ib := IndexOf(g.keys, b);
      assert ia != ib;
      assert b in g.keys[..ia] <==> ib < ia by {
        if b in g.keys[..ia] {
          var j :| 0 <= j < ia && g.keys[j] == b;
          assert g.keys[j] == g.keys[ib];
        }
        if ib < ia {
          assert g.keys[..ia][ib] == b;
        }
      }
      assert a in g.keys[..ib] <==> ia < ib by {
        if a in g.keys[..ib] {
          var j :| 0 <= j < ib && g.keys[j] == a;
          assert g.keys[j] == g.keys[ia];
        }
        if ia < ib {
          assert g.keys[..ib][ia] == a;
        }
      }
    }
  }

  /** `get_edges` lists no tuple twice. */
  lemma {:induction false} EdgesUpToDistinct(g: Graph, i: nat)
    requires WellFormed(g) && i <= |g.keys|
    ensures Distinct(EdgesUpTo(g, i))
    decreases i
  {
    if i > 0 {
      EdgesUpToDistinct(g, i - 1);
      var u := g.keys[i - 1];
      var row := RowAfter(g, i - 1, i - 1);
      MinusDistinct(g.adj[u], g.keys[..i - 1]);
      var front := EdgesUpTo(g, i - 1);
      var back := Pairs(u, row);
      forall x, y | 0 <= x < y < |front + back| ensures (front + back)[x] != (front + back)[y] {
        if y >= |front| && x < |front| {
          EdgesUpToMembership(g, i - 1, front[x].0, front[x].1);
          assert front[x].0 in g.keys[..i - 1];
          assert u !in g.keys[..i - 1];
          assert (front + back)[y].0 == u;
        } else if x >= |front| {
          assert back[x - |front|] != back[y - |front|];
        }
      }
    }
  }

  /** After `get_edges`, adjacency is no longer symmetric wherever there is
      an edge: the earlier endpoint still lists the later one, but not the
      other way round. A second call would then fail in `list.remove`. */
  lemma PrunedBreaksSymmetry(g: Graph, a: string, b: string)
    requires WellFormed(g) && Linked(g, a, b)
    requires IndexOf(g.keys, a) < IndexOf(g.keys, b)
    ensures Linked(Pruned(g), a, b) && !Linked(Pruned(g), b, a)
  {
    var ia := IndexOf(g.keys, a);
    var ib := IndexOf(g.keys, b);
    PrefixIndex(g.keys, b, ia);
    PrefixIndex(g.keys, a, ib);
    MinusMembers(g.adj[a], g.keys[..ia]);
    MinusMembers(g.adj[b], g.keys[..ib]);
  }

  /** `get_edges` keeps the class invariant exactly when the graph has no
      edge. */
  lemma PrunedWellFormedIffEdgeless(g: Graph)
    requires WellFormed(g)
    ensures WellFormed(Pruned(g)) <==> forall k :: k in g.adj ==> g.adj[k] == []
  {
    if forall k :: k in g.adj ==> g.adj[k] == [] {
      assert Pruned(g) == g;
    } else {
      var k :| k in g.adj && g.adj[k] != [];
      var n := g.adj[k][0];
      assert Linked(g, k, n) && Linked(g, n, k);
      assert IndexOf(g.keys, k) != IndexOf(g.keys, n) by {
        assert g.keys[IndexOf(g.keys, k)] == k && g.keys[IndexOf(g.keys, n)] == n;
      }
      if IndexOf(g.keys, k) < IndexOf(g.keys, n) {
        PrunedBreaksSymmetry(g, k, n);
      } else {
        PrunedBreaksSymmetry(g, n, k);
      }
    }
  }

  /** Processing key `i` moves every row one step: a later row that lists
      `keys[i]` loses it, every other row is as it was. */
  lemma RowAdvance(g: Graph, i: nat, p: nat, removed: bool)
    requires WellFormed(g) && i < |g.keys| && p < |g.keys|
    requires removed <==> i < p && g.keys[p] in RowAfter(g, i, i)
    ensures (if removed then Minus(g.adj[g.keys[p]], g.keys[..i] + [g.keys[i]]) else RowAfter(g, i, p))
      == RowAfter(g, i + 1, p)
  {
    var key := g.keys[i];
    var k := g.keys[p];
    assert g.keys[..i + 1] == g.keys[..i] + [key];
    if i < p && !removed {
      assert IndexOf(g.keys, k) == p by {
        assert g.keys[IndexOf(g.keys, k)] == g.keys[p];
      }
      PrefixIndex(g.keys, k, i);
      RowMembers(g, i, i);
      assert k !in g.adj[key];
      assert key !in g.adj[k];
      MinusIgnoresAbsent(g.adj[k], g.keys[..i], key);
    }
  }

  /** The inner step of `get_edges`: removing `keys[i]` from the current
      list of a later neighbour `n` gives that list without `keys[..i+1]`. */
  lemma RemoveFromLater(g: Graph, i: nat, n: string)
    requires WellFormed(g) && i < |g.keys|
    requires n in RowAfter(g, i, i)
    ensures n in g.keys && i < IndexOf(g.keys, n)
    ensures RemoveFirst(RowAfter(g, i, IndexOf(g.keys, n)), g.keys[i])
      == Minus(g.adj[n], g.keys[..i] + [g.keys[i]])
  {
    var key := g.keys[i];
    RowMembers(g, i, i);
    assert n in g.adj[key] && n !in g.keys[..i];
    var q := IndexOf(g.keys, n);
    PrefixIndex(g.keys, n, i);
    assert q != i;
    RemoveAfterMinus(g.adj[n], g.keys[..i], key);
  }

  /** The list of key `p` while key `i` is processed, once the neighbours
      `done` of key `i` have had `keys[i]` removed from their lists. */
  function RowDuring(g: Graph, i: nat, done: seq<string>, p: nat): seq<string>
    requires Consistent(g) && i < |g.keys| && p < |g.keys|
  {
    if i < p && g.keys[p] in done then Minus(g.adj[g.keys[p]], g.keys[..i] + [g.keys[i]])
    else RowAfter(g, i, p)
  }

  /** One step of the inner loop of `get_edges`: removing `keys[i]` from the
      list of the neighbour `list[t]` moves that list alone. */
  lemma RowDuringStep(g: Graph, i: nat, list: seq<string>, t: nat, p: nat)
    requires WellFormed(g) && i < |g.keys| && p < |g.keys|
    requires list == RowAfter(g, i, i) && t < |list|
    ensures list[t] in g.keys
    ensures RowDuring(g, i, list[..t + 1], p) ==
      if g.keys[p] == list[t] then RemoveFirst(RowDuring(g, i, list[..t], p), g.keys[i])
      else RowDuring(g, i, list[..t], p)
  {
    var n := list[t];
    RemoveFromLater(g, i, n);
    MinusDistinct(g.adj[g.keys[i]], g.keys[..i]);
    PrefixSnoc(list, t);
    if g.keys[p] == n {
      assert p == IndexOf(g.keys, n) by {
        assert g.keys[IndexOf(g.keys, n)] == g.keys[p];
      }
      assert n !in list[..t] by {
        assert forall j :: 0 <= j < t ==> list[..t][j] == list[j] != list[t];
      }
    }
  }

  /** At the end of the inner loop every list is as the next outer pass
      expects it. */
  lemma RowDuringDone(g: Graph, i: nat, p: nat)
    requires WellFormed(g) && i < |g.keys| && p < |g.keys|
    ensures RowDuring(g, i, RowAfter(g, i, i), p) == RowAfter(g, i + 1, p)
  {
    RowAdvance(g, i, p, i < p && g.keys[p] in RowAfter(g, i, i));
  }

  /** The whole dictionary once the first `i` keys have been processed. */
  function Rows(g: Graph, i: nat): map<string, seq<string>>
    requires Consistent(g) && i <= |g.keys|
  {
    map k | k in g.adj :: RowAfter(g, i, IndexOf(g.keys, k))
  }

  /** The whole dictionary while key `i` is processed, once its neighbours
      `done` have been handled. */
  function During(g: Graph, i: nat, done: seq<string>): map<string, seq<string>>
    requires Consistent(g) && i < |g.keys|
  {
    map k | k in g.adj :: RowDuring(g, i, done, IndexOf(g.keys, k))
  }

  /** In a duplicate-free key order the position of `keys[p]` is `p`. */
  lemma KeyPosition(g: Graph, p: nat)
    requires Consistent(g) && p < |g.keys|
    ensures g.keys[p] in g.adj && IndexOf(g.keys, g.keys[p]) == p
  {
    var q := IndexOf(g.keys, g.keys[p]);
    assert g.keys[q] == g.keys[p];
  }

  /** The `p`-th key's entry of `Rows`. */
  lemma RowsAt(g: Graph, i: nat, p: nat)
    requires Consistent(g) && i <= |g.keys| && p < |g.keys|
    ensures g.keys[p] in Rows(g, i) && Rows(g, i)[g.keys[p]] == RowAfter(g, i, p)
  {
    KeyPosition(g, p);
  }

  /** Before the first pass every list is untouched. */
  lemma RowsStart(g: Graph)
    requires Consistent(g)
    ensures Rows(g, 0) == g.adj
  {
    forall k | k in g.adj ensures Rows(g, 0)[k] == g.adj[k] {
      MinusNothing(g.adj[k], g.keys[..0]);
    }
  }

  /** After the last pass the dictionary is the pruned one. */
  lemma RowsEnd(g: Graph)
    requires Consistent(g)
    ensures Rows(g, |g.keys|) == Pruned(g).adj
  {
  }

  /** Before the inner loop of pass `i` nothing has moved yet. */
  lemma DuringStart(g: Graph, i: nat)
    requires Consistent(g) && i < |g.keys|
    ensures During(g, i, []) == Rows(g, i)
  {
  }

  /** One step of the inner loop of `get_edges` on the whole dictionary. */
  lemma DuringStep(g: Graph, i: nat, list: seq<string>, t: nat)
    requires WellFormed(g) && i < |g.keys|
    requires list == RowAfter(g, i, i) && t < |list|
    ensures list[t] in During(g, i, list[..t])
    ensures During(g, i, list[..t + 1]) ==
      During(g, i, list[..t])[list[t] := RemoveFirst(During(g, i, list[..t])[list[t]], g.keys[i])]
  {
    RowDuringStep(g, i, list, t, 0);
    DuringStepAt(g, i, list, t);
    var before := During(g, i, list[..t]);
    UpdateExt(During(g, i, list[..t + 1]), before, list[t], RemoveFirst(before[list[t]], g.keys[i]));
  }

  /** `DuringStep`, key by key. */
  lemma DuringStepAt(g: Graph, i: nat, list: seq<string>, t: nat)
    requires WellFormed(g) && i < |g.keys|
    requires list == RowAfter(g, i, i) && t < |list|
    ensures forall k :: k in g.adj ==>
      During(g, i, list[..t + 1])[k] ==
        (if k == list[t] then RemoveFirst(During(g, i, list[..t])[k], g.keys[i]) else During(g, i, list[..t])[k])
  {
    forall k | k in g.adj
      ensures During(g, i, list[..t + 1])[k] ==
        if k == list[t] then RemoveFirst(During(g, i, list[..t])[k], g.keys[i]) else During(g, i, list[..t])[k]
    {
      var p := IndexOf(g.keys, k);
      RowDuringStep(g, i, list, t, p);
    }
  }

  /** After the inner loop of pass `i` the dictionary is the one pass
      `i + 1` starts from. */
  lemma DuringDone(g: Graph, i: nat)
    requires WellFormed(g) && i < |g.keys|
    ensures During(g, i, RowAfter(g, i, i)) == Rows(g, i + 1)
  {
    forall k | k in g.adj ensures During(g, i, RowAfter(g, i, i))[k] == Rows(g, i + 1)[k] {
      RowDuringDone(g, i, IndexOf(g.keys, k));
    }
  }
}
