/** `DirectedGraph` of d_graph.py: a directed graph with positive integer
    weights over the vertices `0..vCount-1`, stored as a dense adjacency
    matrix in which 0 means "no edge". The matrix grows in place when a
    vertex is added; edges are single cell writes. */
module DGraph {
  import opened Seqs
  import opened DSpec

  class DirectedGraph {
    var vCount: nat
    var m: seq<seq<int>>

    /** The matrix is `vCount` by `vCount`, holds no negative weight and no self-loop. */
    ghost predicate Valid()
      reads this
    {
      ValidMatrix(m, vCount)
    }

    /** `DirectedGraph(start_edges)`. With no edge list the graph is empty;
        with one (even an empty one) it first creates `max(0, endpoints) + 1`
        vertices and then applies `add_edge` to each tuple in turn. */
    constructor (startEdges: Option<seq<(int, int, int)>>)
      ensures Valid()
      ensures startEdges.None? ==> vCount == 0
      ensures startEdges.Some? ==> vCount == MaxEndpoint(startEdges.value) + 1
      ensures startEdges.Some? ==>
        forall i, j :: 0 <= i < vCount && 0 <= j < vCount ==> m[i][j] == LastWeight(startEdges.value, i, j)
    {
      vCount := 0;
      m := [];
      new;
      if startEdges.Some? {
        var edges := startEdges.value;
        var n := 0;
        for k := 0 to |edges|
          invariant n == MaxEndpoint(edges[..k])
        {
          assert edges[..k + 1][..k] == edges[..k];
          var (u, v, _) := edges[k];
          if n < u || n < v {
            n := if u >= v then u else v;
          }
        }
        assert edges[..|edges|] == edges;
        for t := 0 to n + 1
          invariant Valid() && vCount == t
          invariant forall i, j :: 0 <= i < t && 0 <= j < t ==> m[i][j] == 0
        {
          var _ := AddVertex();
        }
        for k := 0 to |edges|
          invariant Valid() && vCount == n + 1
          invariant forall i, j :: 0 <= i < vCount && 0 <= j < vCount ==> m[i][j] == LastWeight(edges[..k], i, j)
        {
          assert edges[..k + 1][..k] == edges[..k];
          var (u, v, w) := edges[k];
          AddEdge(u, v, w);
        }
      }
    }

    /** `add_vertex()`: appends a zero row, then widens every row by one zero
        column; returns the new vertex count. */
    method AddVertex() returns (count: nat)
      requires Valid()
      modifies this
      ensures Valid()
      ensures vCount == old(vCount) + 1 && count == vCount
      ensures forall i, j :: 0 <= i < old(vCount) && 0 <= j < old(vCount) ==> m[i][j] == old(m)[i][j]
      ensures forall k :: 0 <= k < vCount ==> m[old(vCount)][k] == 0 && m[k][old(vCount)] == 0
    {
      var last := vCount;
      m := m + [[0]];
      vCount := vCount + 1;
      for t := 0 to last
        invariant vCount == last + 1
        invariant |m| == last + 1 && |m[last]| == t + 1
        invariant forall j :: 0 <= j <= t ==> m[last][j] == 0
        invariant m[..last] == old(m)
      {
        m := m[last := m[last] + [0]];
      }
      for i := 0 to last
        invariant vCount == last + 1
        invariant |m| == last + 1 && |m[last]| == last + 1
        invariant forall j :: 0 <= j <= last ==> m[last][j] == 0
        invariant forall p :: 0 <= p < i ==> m[p] == old(m)[p] + [0]
        invariant forall p :: i <= p < last ==> m[p] == old(m)[p]
      {
        m := m[i := m[i] + [0]];
      }
      assert forall i :: 0 <= i < last ==> m[i] == old(m)[i] + [0];
      assert forall i, j :: 0 <= i <= last && 0 <= j <= last ==> m[i][j] >= 0 && (i == j ==> m[i][j] == 0);
      count := vCount;
    }

    /** `add_edge(src, dst, weight)`: sets the one cell `(src, dst)` to
        `weight`, overwriting; a silent no-op for an out-of-range endpoint,
        a self-loop or a weight below 1. */
    method AddEdge(src: int, dst: int, weight: int := 1)
      requires Valid()
      modifies this
      ensures Valid() && vCount == old(vCount)
      ensures forall i, j :: 0 <= i < vCount && 0 <= j < vCount ==>
        m[i][j] == if i == src && j == dst && AcceptsEdge(vCount, src, dst, weight) then weight else old(m)[i][j]
    {
      if src >= vCount || dst >= vCount || weight < 1 || src == dst || src < 0 || dst < 0 {
        return;
      } else {
        m := m[src := m[src][dst := weight]];
      }
    }

    /** `remove_edge(src, dst)`: sets the cell `(src, dst)` to 0 when both
        indices are in range, and otherwise changes nothing. Removing an
        absent edge (a second removal included) changes nothing either. */
    method RemoveEdge(src: int, dst: int)
      requires Valid()
      modifies this
      ensures Valid() && vCount == old(vCount)
      ensures forall i, j :: 0 <= i < vCount && 0 <= j < vCount ==>
        m[i][j] == if i == src && j == dst then 0 else old(m)[i][j]
      ensures old(Cell(m, src, dst)) == 0 ==> m == old(m)
    {
      if src >= vCount || dst >= vCount || src < 0 || dst < 0 {
        return;
      } else {
        if m[src][dst] == 0 {
          assert m[src][dst := 0] == m[src];
        }
        m := m[src := m[src][dst := 0]];
      }
    }

    /** `get_vertices()`: the indices `0..vCount-1` in ascending order. */
    method GetVertices() returns (vertices: seq<int>)
      ensures |vertices| == vCount
      ensures forall i :: 0 <= i < vCount ==> vertices[i] == i
    {
      vertices := [];
      for i := 0 to vCount
        invariant |vertices| == i
        invariant forall k :: 0 <= k < i ==> vertices[k] == k
      {
        vertices := vertices + [i];
      }
    }

    /** `get_edges()`: one `(src, dst, weight)` per positive cell, in
        row-major order. Because of the matrix invariant no listed edge is a
        self-loop and every weight is at least 1. */
    method GetEdges() returns (edges: seq<Edge>)
      requires Valid()
      ensures forall e :: e in edges <==>
        0 <= e.src < vCount && 0 <= e.dst < vCount && e.weight == Cell(m, e.src, e.dst) && e.weight > 0
      ensures forall a, b :: 0 <= a < b < |edges| ==> RowMajorBefore(edges[a], edges[b])
      ensures forall e :: e in edges ==> e.src != e.dst && e.weight >= 1
    {
      edges := [];
      for i := 0 to vCount
        invariant forall e :: e in edges <==>
          0 <= e.src < i && 0 <= e.dst < vCount && e.weight == Cell(m, e.src, e.dst) && e.weight > 0
        invariant forall a, b :: 0 <= a < b < |edges| ==> RowMajorBefore(edges[a], edges[b])
      {
        for j := 0 to vCount
          invariant forall e :: e in edges <==>
            ((0 <= e.src < i && 0 <= e.dst < vCount) || (e.src == i && 0 <= e.dst < j))
            && e.weight == Cell(m, e.src, e.dst) && e.weight > 0
          invariant forall a, b :: 0 <= a < b < |edges| ==> RowMajorBefore(edges[a], edges[b])
        {
          if m[i][j] > 0 {
            assert forall a :: 0 <= a < |edges| ==> edges[a] in edges;
            edges := edges + [Edge(i, j, m[i][j])];
          }
        }
      }
    }

    /** `is_valid_path(path)`: true for any list of at most one vertex, and
        otherwise exactly when every consecutive pair is an edge. Python
        would raise or wrap around on an index outside the matrix, so the
        indices of a longer path must be in range. */
    method IsValidPath(path: seq<int>) returns (valid: bool)
      requires Valid()
      requires |path| > 1 ==> InRange(path, vCount)
      ensures valid == IsPath(m, path)
    {
      if |path| > 1 {
        for i := 0 to |path| - 1
          invariant forall k :: 0 <= k < i ==> Cell(m, path[k], path[k + 1]) != 0
        {
          if m[path[i]][path[i + 1]] == 0 {
            return false;
          }
        }
      }
      return true;
    }

    /** `dfs(v_start, v_end)`. An out-of-range start gives `[]`. With a start
        in range and an end given (in range or not), the traversal is in the
        `else` branch the source skips, so the call returns Python `None`.
        Otherwise the result is the order `DfsRun` defines (the lowest
        unvisited successor is explored first), and it lists exactly the
        vertices reachable from the start (see `ExploresIsReachableSet`). */
    method Dfs(start: int, end: Option<int> := None) returns (r: Option<seq<int>>)
      requires Valid()
      ensures !(0 <= start < vCount) ==> r == Some([])
      ensures 0 <= start < vCount && end.Some? ==> r == None
      ensures 0 <= start < vCount && end.None? ==>
        r == Some(DfsRun(m, [start], [])) && Explores(m, start, r.value)
    {
      if start < 0 || start >= |m| {
        return Some([]);
      } else if end.Some? {
        return None;
      }
      var visited: seq<int> := [];
      var stack := [start];
      while stack != []
        invariant Frontier(m, start, stack, visited)
        invariant DfsRun(m, stack, visited) == DfsRun(m, [start], [])
        decreases Unvisited(|m|, visited), CountIn(stack, visited)
      {
        ghost var next := DfsStep(m, stack, visited);
        DfsStepFrontier(m, start, stack, visited);
        DfsAdvance(m, stack, visited);
        var index := stack[|stack| - 1];
        stack := stack[..|stack| - 1];
        if index !in visited {
          visited := visited + [index];
        }
        stack := PushDescending(stack, m[index], visited);
        assert stack == next.0 && visited == next.1;
      }
      return Some(visited);
    }

    /** `bfs(v_start, v_end)`: the same three outcomes as `Dfs`, with a FIFO
        queue that scans each row in ascending order, so the order is the
        one `BfsRun` defines. */
    method Bfs(start: int, end: Option<int> := None) returns (r: Option<seq<int>>)
      requires Valid()
      ensures !(0 <= start < vCount) ==> r == Some([])
      ensures 0 <= start < vCount && end.Some? ==> r == None
      ensures 0 <= start < vCount && end.None? ==>
        r == Some(BfsRun(m, [start], [])) && Explores(m, start, r.value)
    {
      if start < 0 || start >= |m| {
        return Some([]);
      } else if end.Some? {
        return None;
      }
      var visited: seq<int> := [];
      var queue := [start];
      while queue != []
        invariant Frontier(m, start, queue, visited)
        invariant BfsRun(m, queue, visited) == BfsRun(m, [start], [])
        decreases Unvisited(|m|, visited), CountIn(queue, visited)
      {
        ghost var next := BfsStep(m, queue, visited);
        BfsStepFrontier(m, start, queue, visited);
        BfsAdvance(m, queue, visited);
        var index := queue[0];
        queue := queue[1..];
        if index !in visited {
          visited := visited + [index];
        }
        queue := EnqueueAscending(queue, m[index], visited);
        assert queue == next.0 && visited == next.1;
      }
      return Some(visited);
    }

    /** The inner loop of `dfs`: scans a row from the last column down and
        pushes every unvisited successor. */
    static method PushDescending(stack: seq<int>, row: seq<int>, visited: seq<int>) returns (r: seq<int>)
      ensures r == stack + DescScan(row, visited, 0)
    {
      r := stack;
      var i := |row|;
      while i > 0
        invariant 0 <= i <= |row|
        invariant r == stack + DescScan(row, visited, i)
      {
        i := i - 1;
        if row[i] > 0 && i !in visited {
          r := r + [i];
        }
      }
    }

    /** The inner loop of `bfs`: scans a row in ascending column order and
        enqueues every unvisited successor. */
    static method EnqueueAscending(queue: seq<int>, row: seq<int>, visited: seq<int>) returns (r: seq<int>)
      ensures r == queue + AscScan(row, visited, |row|)
    {
      r := queue;
      for i := 0 to |row|
        invariant r == queue + AscScan(row, visited, i)
      {
        if row[i] > 0 && i !in visited {
          r := r + [i];
        }
      }
    }
  }
}
