/** Sequence helpers shared by both graph models: the Python list operations
    the two classes rely on (membership filtering, `list.remove`), and the
    counting facts their termination and bound proofs need. */
module Seqs {

  datatype Option<+T> = None | Some(value: T)

  /** No element occurs twice. */
  predicate Distinct<T(==)>(s: seq<T>) {
    forall i, j :: 0 <= i < j < |s| ==> s[i] != s[j]
  }

  /** The elements of `s` that do not occur in `ex`, in their original order
      (a Python list comprehension `[x for x in s if x not in ex]`). */
  function Minus<T(==)>(s: seq<T>, ex: seq<T>): seq<T> {
    if s == [] then []
    else Minus(s[..|s| - 1], ex) + (if s[|s| - 1] in ex then [] else [s[|s| - 1]])
  }

  /** The filter keeps exactly the elements not excluded, and never
      lengthens the list. */
  lemma {:induction false} MinusMembers<T(!new)>(s: seq<T>, ex: seq<T>)
    ensures forall x :: x in Minus(s, ex) <==> x in s && x !in ex
    ensures |Minus(s, ex)| <= |s|
    decreases |s|
  {
    if s != [] {
      var s' := s[..|s| - 1];
      MinusMembers(s', ex);
      assert s == s' + [s[|s| - 1]];
    }
  }

  /** Python's `list.remove(x)`: drops the first occurrence of `x`
      (the source only calls it when `x` is present). */
  function RemoveFirst<T(==)>(s: seq<T>, x: T): (r: seq<T>)
    ensures x in s ==> |r| == |s| - 1
    ensures x !in s ==> r == s
    ensures forall y :: y in r ==> y in s
  {
    if s == [] then []
    else if s[0] == x then s[1..]
    else [s[0]] + RemoveFirst(s[1..], x)
  }

  /** The entry `list.remove(x)` drops is the first occurrence of `x`;
      the entries before and after it keep their order. */
  lemma {:induction false} RemoveFirstAt<T>(s: seq<T>, x: T)
    requires x in s
    ensures RemoveFirst(s, x) == s[..IndexOf(s, x)] + s[IndexOf(s, x) + 1..]
    decreases |s|
  {
    if s[0] != x {
      var t := s[1..];
      assert x in t;
      RemoveFirstAt(t, x);
      assert RemoveFirst(s, x) == [s[0]] + RemoveFirst(t, x);
      var i := IndexOf(t, x);
      assert IndexOf(s, x) == 1 + i;
      assert s[..1 + i] == [s[0]] + t[..i];
      assert s[1 + i + 1..] == t[i + 1..];
    }
  }

  /** The list in reverse order (Python `reversed` / `reverse=True`). */
  function Reverse<T>(s: seq<T>): (r: seq<T>)
    ensures |r| == |s|
    ensures forall i :: 0 <= i < |s| ==> r[i] == s[|s| - 1 - i]
  {
    if s == [] then [] else [s[|s| - 1]] + Reverse(s[..|s| - 1])
  }

  /** Reversal keeps the elements. */
  lemma ReverseMembers<T>(s: seq<T>)
    ensures forall x :: x in Reverse(s) <==> x in s
  {
    var r := Reverse(s);
    forall x | x in s ensures x in r {
      var i :| 0 <= i < |s| && s[i] == x;
      assert r[|s| - 1 - i] == x;
    }
  }

  /** How many entries of `s` occur in `vis`. */
  function CountIn<T(==)>(s: seq<T>, vis: seq<T>): nat {
    if s == [] then 0
    else CountIn(s[..|s| - 1], vis) + (if s[|s| - 1] in vis then 1 else 0)
  }

  /** Position of the first occurrence of `x`. */
  function IndexOf<T(==)>(s: seq<T>, x: T): (i: nat)
    requires x in s
    ensures i < |s| && s[i] == x && x !in s[..i]
  {
    if s[0] == x then 0 else 1 + IndexOf(s[1..], x)
  }

  /** The first `t` entries of a prefix one entry longer. */
  lemma PrefixStep<T>(s: seq<T>, t: nat)
    requires t < |s|
    ensures s[..t + 1][..t] == s[..t] && s[..t + 1][t] == s[t]
  {
  }

  /** A suffix one entry longer. */
  lemma SuffixStep<T>(s: seq<T>, n: nat)
    requires 0 < n <= |s|
    ensures s[n - 1..] == [s[n - 1]] + s[n..]
  {
  }

  /** A prefix one entry longer. */
  lemma PrefixSnoc<T>(s: seq<T>, t: nat)
    requires t < |s|
    ensures s[..t + 1] == s[..t] + [s[t]]
  {
  }

  /** In a duplicate-free list, `x` lies in the first `n` entries exactly
      when its position is below `n`. */
  lemma PrefixIndex<T>(s: seq<T>, x: T, n: nat)
    requires Distinct(s) && x in s && n <= |s|
    ensures x in s[..n] <==> IndexOf(s, x) < n
  {
    var q := IndexOf(s, x);
    if q < n {
      assert s[..n][q] == x;
    }
    if x in s[..n] {
      var j :| 0 <= j < n && s[..n][j] == x;
      assert s[j] == s[q];
    }
  }

  lemma {:induction false} MinusConcat<T(!new)>(a: seq<T>, b: seq<T>, ex: seq<T>)
    ensures Minus(a + b, ex) == Minus(a, ex) + Minus(b, ex)
    decreases |b|
  {
    if b == [] {
      assert a + b == a;
    } else {
      var b' := b[..|b| - 1];
      assert (a + b)[..|a + b| - 1] == a + b';
      MinusConcat(a, b', ex);
    }
  }

  lemma {:induction false} MinusDistinct<T(!new)>(s: seq<T>, ex: seq<T>)
    requires Distinct(s)
    ensures Distinct(Minus(s, ex))
    decreases |s|
  {
    if s != [] {
      MinusDistinct(s[..|s| - 1], ex);
      MinusMembers(s[..|s| - 1], ex);
    }
  }

  /** Excluding a value that does not occur changes nothing. */
  lemma {:induction false} MinusIgnoresAbsent<T(!new)>(s: seq<T>, ex: seq<T>, x: T)
    requires x !in s
    ensures Minus(s, ex + [x]) == Minus(s, ex)
    decreases |s|
  {
    if s != [] {
      MinusIgnoresAbsent(s[..|s| - 1], ex, x);
    }
  }

  /** With nothing to exclude the filter is the identity. */
  lemma {:induction false} MinusNothing<T(!new)>(s: seq<T>, ex: seq<T>)
    requires forall x :: x in s ==> x !in ex
    ensures Minus(s, ex) == s
    decreases |s|
  {
    if s != [] {
      var s' := s[..|s| - 1];
      MinusNothing(s', ex);
      assert s == s' + [s[|s| - 1]];
    }
  }

  /** Filtering a one-element list. */
  lemma MinusSingle<T(!new)>(a: T, x: T)
    ensures Minus([a], [x]) == if a == x then [] else [a]
  {
    assert [a][..0] == [];
  }

  /** On a duplicate-free list, `list.remove(x)` is the filter that excludes `x`. */
  lemma {:induction false} RemoveFirstIsMinus<T(!new)>(s: seq<T>, x: T)
    requires Distinct(s)
    ensures RemoveFirst(s, x) == Minus(s, [x])
    decreases |s|
  {
    if s != [] {
      var t := s[1..];
      assert s == [s[0]] + t;
      MinusConcat([s[0]], t, [x]);
      MinusSingle(s[0], x);
      DistinctTail(s);
      if s[0] == x {
        MinusNothing(t, [x]);
        assert RemoveFirst(s, x) == t;
      } else {
        RemoveFirstIsMinus(t, x);
        assert RemoveFirst(s, x) == [s[0]] + RemoveFirst(t, x);
      }
    }
  }

  /** The tail of a duplicate-free list is duplicate-free and misses its head. */
  lemma DistinctTail<T>(s: seq<T>)
    requires Distinct(s) && s != []
    ensures Distinct(s[1..]) && s[0] !in s[1..]
  {
    var t := s[1..];
    assert forall i :: 0 <= i < |t| ==> t[i] == s[i + 1];
  }

  /** Filtering twice is filtering by both exclusion lists. */
  lemma {:induction false} MinusMinus<T(!new)>(s: seq<T>, ex: seq<T>, ex2: seq<T>)
    ensures Minus(Minus(s, ex), ex2) == Minus(s, ex + ex2)
    decreases |s|
  {
    if s != [] {
      var s' := s[..|s| - 1];
      var last := s[|s| - 1];
      MinusMinus(s', ex, ex2);
      MinusConcat(Minus(s', ex), if last in ex then [] else [last], ex2);
      if last !in ex {
        assert [last][..0] == [];
      }
    }
  }

  /** On a duplicate-free list, removing `x` from the filtered list is the
      filter that also excludes `x`. */
  lemma RemoveAfterMinus<T(!new)>(s: seq<T>, ex: seq<T>, x: T)
    requires Distinct(s)
    ensures RemoveFirst(Minus(s, ex), x) == Minus(s, ex + [x])
  {
    MinusDistinct(s, ex);
    RemoveFirstIsMinus(Minus(s, ex), x);
    MinusMinus(s, ex, [x]);
  }

  /** Filtering out a value that occurs strictly shortens the list. */
  lemma {:induction false} MinusShorter<T(!new)>(s: seq<T>, ex: seq<T>, x: T)
    requires x in s && x in ex
    ensures |Minus(s, ex)| < |s|
    decreases |s|
  {
    var s' := s[..|s| - 1];
    MinusMembers(s', ex);
    if s[|s| - 1] != x {
      assert x in s';
      MinusShorter(s', ex, x);
    }
  }

  lemma {:induction false} CountInConcat<T(!new)>(a: seq<T>, b: seq<T>, vis: seq<T>)
    ensures CountIn(a + b, vis) == CountIn(a, vis) + CountIn(b, vis)
    decreases |b|
  {
    if b == [] {
      assert a + b == a;
    } else {
      var b' := b[..|b| - 1];
      assert (a + b)[..|a + b| - 1] == a + b';
      CountInConcat(a, b', vis);
    }
  }

  /** Entries that all lie outside `vis` add nothing to the count. */
  lemma {:induction false} CountInNone<T(!new)>(s: seq<T>, vis: seq<T>)
    requires forall x :: x in s ==> x !in vis
    ensures CountIn(s, vis) == 0
    decreases |s|
  {
    if s != [] {
      CountInNone(s[..|s| - 1], vis);
    }
  }

  /** Pigeonhole: a duplicate-free list drawn from `t` is no longer than `t`. */
  lemma {:induction false} DistinctNoLonger<T(!new)>(s: seq<T>, t: seq<T>)
    requires Distinct(s)
    requires forall x :: x in s ==> x in t
    ensures |s| <= |t|
    decreases |s|
  {
    if s != [] {
      var x := s[|s| - 1];
      var s' := s[..|s| - 1];
      var t' := Minus(t, [x]);
      MinusMembers(t, [x]);
      forall y | y in s' ensures y in t' {
        var k :| 0 <= k < |s'| && s'[k] == y;
        assert s[k] == y && k < |s| - 1;
      }
      DistinctNoLonger(s', t');
      MinusShorter(t, [x], x);
    }
  }

  /** In a duplicate-free list each element occurs exactly once. */
  lemma {:induction false} DistinctMultiplicity<T(!new)>(s: seq<T>, x: T)
    requires Distinct(s)
    ensures multiset(s)[x] == if x in s then 1 else 0
    decreases |s|
  {
    if s != [] {
      var s' := s[..|s| - 1];
      assert s == s' + [s[|s| - 1]];
      DistinctMultiplicity(s', x);
    }
  }

  /** Two duplicate-free lists with the same elements are permutations of each other. */
  lemma SameElementsSameMultiset<T(!new)>(a: seq<T>, b: seq<T>)
    requires Distinct(a) && Distinct(b)
    requires forall x :: x in a <==> x in b
    ensures multiset(a) == multiset(b)
  {
    forall x ensures multiset(a)[x] == multiset(b)[x] {
      DistinctMultiplicity(a, x);
      DistinctMultiplicity(b, x);
    }
  }

  /** Two duplicate-free lists with no common element concatenate to a
      duplicate-free list. */
  lemma DistinctConcat<T>(a: seq<T>, b: seq<T>)
    requires Distinct(a) && Distinct(b)
    requires forall x :: x in a ==> x !in b
    ensures Distinct(a + b)
  {
    forall i, j | 0 <= i < j < |a + b| ensures (a + b)[i] != (a + b)[j] {
      if i < |a| && j >= |a| {
        assert (a + b)[i] in a && (a + b)[j] == b[j - |a|];
      } else if i >= |a| {
        assert (a + b)[i] == b[i - |a|] && (a + b)[j] == b[j - |a|];
      }
    }
  }

  /** The lists of `ss` joined in order (repeated `list.extend`). */
  function Flatten<T>(ss: seq<seq<T>>): seq<T> {
    if ss == [] then [] else Flatten(ss[..|ss| - 1]) + ss[|ss| - 1]
  }

  /** An element of the joined list comes from one of the lists. */
  lemma {:induction false} FlattenMembers<T>(ss: seq<seq<T>>, x: T)
    ensures x in Flatten(ss) <==> exists i :: 0 <= i < |ss| && x in ss[i]
    decreases |ss|
  {
    if ss != [] {
      var front := ss[..|ss| - 1];
      FlattenMembers(front, x);
      assert forall i :: 0 <= i < |front| ==> front[i] == ss[i];
    }
  }

  /** Joining non-empty lists gives at least one element per list. */
  lemma {:induction false} FlattenLength<T(!new)>(ss: seq<seq<T>>)
    requires forall i :: 0 <= i < |ss| ==> ss[i] != []
    ensures |Flatten(ss)| >= |ss|
    decreases |ss|
  {
    if ss != [] {
      FlattenLength(ss[..|ss| - 1]);
    }
  }

  /** A map that agrees with `b` except at `k`, where it holds `v`, is
      `b[k := v]`. */
  lemma UpdateExt<K, V>(a: map<K, V>, b: map<K, V>, k: K, v: V)
    requires a.Keys == b.Keys && k in a && a[k] == v
    requires forall j :: j in a && j != k ==> a[j] == b[j]
    ensures a == b[k := v]
  {
  }
}
