/** What `count_connected_components` of ud_graph.py relies on: the rounds
    of breadth-first search it performs are the reachability classes of the
    graph, each found from a label no earlier round listed. */
module UdComponents {
  import opened Seqs
  import opened LabelOrder
  import opened UdSpec
  import opened UdSearch

  /** `c` lists exactly the labels reachable from its first entry. */
  ghost predicate Component(g: Graph, c: seq<string>) {
    c != [] && forall x :: x in c <==> Reaches(g, c[0], x)
  }

  /** No label is listed by two of the lists. */
  ghost predicate PairwiseDisjoint(comps: seq<seq<string>>) {
    forall i, j, x :: 0 <= i < j < |comps| && x in comps[i] ==> x !in comps[j]
  }

  /** A sorted list is its own `sorted(...)`. */
  lemma SortIdempotent(s: seq<string>)
    requires Sorted(s)
    ensures Sort(s) == s
  {
    SortedUnique(Sort(s), s);
  }

  /** For duplicate-free lists, `sorted(a) == sorted(b)` holds exactly when
      `a` and `b` have the same elements: the test by which the source
      decides that every label has been covered. */
  lemma SortSameElements(a: seq<string>, b: seq<string>)
    requires Distinct(a) && Distinct(b)
    ensures Sort(a) == Sort(b) <==> forall x :: x in a <==> x in b
  {
    SortMembers(a);
    SortMembers(b);
    if forall x :: x in a <==> x in b {
      SameElementsSameMultiset(a, b);
      SortedUnique(Sort(a), Sort(b));
    }
  }

  /** A complete traversal from `v` is the reachability class of `v`. */
  lemma TraversalIsComponent(g: Graph, v: string, c: seq<string>)
    requires Outcome(g, v, c, None)
    ensures Component(g, c)
  {
    forall x ensures x in c <==> Reaches(g, c[0], x) {
      OutcomeReach(g, v, c, None, x);
    }
  }

  /** In a well-formed graph the traversal from a label that no complete
      traversal so far has listed shares no label with any of them. */
  lemma FreshComponent(g: Graph, comps: seq<seq<string>>, v: string, c: seq<string>)
    requires WellFormed(g)
    requires forall i :: 0 <= i < |comps| ==> Closed(g, comps[i])
    requires v !in Flatten(comps)
    requires Outcome(g, v, c, None)
    ensures forall x :: x in c ==> x !in Flatten(comps)
  {
    FlattenMembers(comps, v);
    forall x | x in c ensures x !in Flatten(comps) {
      FlattenMembers(comps, x);
      OutcomeReach(g, v, c, None, x);
      forall i | 0 <= i < |comps| ensures x !in comps[i] {
        if x in comps[i] {
          ClosedAbsorbs(g, comps[i], v, x);
        }
      }
    }
  }

  /** Pairwise disjoint lists that each list labels once join into a
      duplicate-free list; one more list disjoint from all of them keeps
      that. */
  lemma AddComponent(comps: seq<seq<string>>, c: seq<string>)
    requires PairwiseDisjoint(comps) && Distinct(Flatten(comps)) && Distinct(c)
    requires forall x :: x in c ==> x !in Flatten(comps)
    ensures PairwiseDisjoint(comps + [c])
    ensures Distinct(Flatten(comps + [c]))
  {
    var all := comps + [c];
    assert all[..|all| - 1] == comps;
    DistinctConcat(Flatten(comps), c);
    forall i, j, x | 0 <= i < j < |all| && x in all[i] ensures x !in all[j] {
      if j == |comps| {
        assert x in Flatten(comps) by {
          assert all[i] == comps[i];
          FlattenMembers(comps, x);
        }
      } else {
        assert all[i] == comps[i] && all[j] == comps[j];
      }
    }
  }

  /** The rounds of `count_connected_components` so far: each is the
      complete breadth-first traversal from its first entry, no label is
      listed twice, and every listed entry is a label. */
  ghost predicate Rounds(g: Graph, comps: seq<seq<string>>)
    requires Consistent(g)
  {
    && PairwiseDisjoint(comps)
    && Distinct(Flatten(comps)) && AllKeys(g, Flatten(comps))
    && forall i :: 0 <= i < |comps| ==>
      && comps[i] != [] && comps[i][0] in g.adj
      && Outcome(g, comps[i][0], comps[i], None)
      && comps[i] == BfsRun(g, [comps[i][0]], [], None)
  }

  /** One more round, from a label no earlier round listed, keeps the
      rounds disjoint and adds exactly the new traversal to the covered
      labels. */
  lemma RoundsAdd(g: Graph, comps: seq<seq<string>>, v: string, c: seq<string>)
    requires WellFormed(g) && Rounds(g, comps)
    requires v in g.adj && v !in Flatten(comps)
    requires c == BfsRun(g, [v], [], None) && Outcome(g, v, c, None)
    ensures Rounds(g, comps + [c])
    ensures Flatten(comps + [c]) == Flatten(comps) + c
  {
    var all := comps + [c];
    assert all[..|all| - 1] == comps;
    forall i | 0 <= i < |comps| ensures Closed(g, comps[i]) {
      assert Outcome(g, comps[i][0], comps[i], None);
    }
    FreshComponent(g, comps, v, c);
    AddComponent(comps, c);
    forall i | 0 <= i < |all|
      ensures all[i] != [] && all[i][0] in g.adj
      ensures Outcome(g, all[i][0], all[i], None) && all[i] == BfsRun(g, [all[i][0]], [], None)
    {
      if i < |comps| {
        assert all[i] == comps[i];
      }
    }
  }

  /** What the rounds mean: each is a reachability class, and there are no
      more rounds than covered labels. */
  lemma RoundsComponents(g: Graph, comps: seq<seq<string>>)
    requires Consistent(g) && Rounds(g, comps)
    ensures forall i :: 0 <= i < |comps| ==> Component(g, comps[i])
    ensures |comps| <= |Flatten(comps)|
  {
    forall i | 0 <= i < |comps| ensures Component(g, comps[i]) {
      TraversalIsComponent(g, comps[i][0], comps[i]);
    }
    FlattenLength(comps);
  }

  /** The test by which `count_connected_components` stops: the sorted
      covered labels equal the sorted labels exactly when every label is
      covered, and otherwise some label is still uncovered. */
  lemma CoverTest(g: Graph, covered: seq<string>)
    requires Consistent(g) && Distinct(covered) && AllKeys(g, covered)
    ensures |covered| <= |g.keys|
    ensures Sort(covered) == Sort(g.keys) <==> forall x :: x in g.adj <==> x in covered
    ensures Sort(covered) != Sort(g.keys) ==> exists x :: x in Sort(g.keys) && x !in covered
  {
    DistinctNoLonger(covered, g.keys);
    SortSameElements(covered, g.keys);
    SortMembers(g.keys);
  }
}
