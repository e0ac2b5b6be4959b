/** The comuna adjacency graph: neighbour lists from a `touches` relation
    between comuna geometries, the 0/1 adjacency matrix built from them, and
    its row-major edge list. Comunas are numbered 0..n-1 in file order; the
    geometric test itself is a parameter. */
module Adjacency {
  import opened Tables

  /** `comuna_i.geometry.touches(comuna_j.geometry)`. */
  type Touches = (nat, nat) -> bool

  /** The neighbours of `i` among the comunas numbered below `m`, in order. */
  function NeighboursBefore(touches: Touches, i: nat, m: nat): (r: seq<nat>)
    ensures forall j: nat :: j in r <==> j < m && j != i && touches(i, j)
    ensures Increasing(r)
    ensures forall k :: 0 <= k < |r| ==> r[k] < m
  {
    if m == 0 then []
    else
      var init := NeighboursBefore(touches, i, m - 1);
      if m - 1 != i && touches(i, m - 1) then init + [m - 1] else init
  }

  /** `vecinas` for comuna `i`: every other comuna it touches, by increasing
      number; never `i` itself. */
  function Neighbours(n: nat, touches: Touches, i: nat): (r: seq<nat>)
    ensures forall j: nat :: j in r <==> j < n && j != i && touches(i, j)
    ensures i !in r
    ensures Increasing(r)
    ensures forall k :: 0 <= k < |r| ==> r[k] < n
  {
    NeighboursBefore(touches, i, n)
  }

  /** `detectar_comunas_vecinas`: the `comunas_vecinas` dictionary, keyed
      0..n-1, as a sequence indexed by key. */
  method DetectNeighbours(n: nat, touches: Touches) returns (vecinas: seq<seq<nat>>)
    ensures |vecinas| == n
    ensures forall i :: 0 <= i < n ==> vecinas[i] == Neighbours(n, touches, i)
  {
    vecinas := [];
    for i := 0 to n
      invariant |vecinas| == i
      invariant forall r :: 0 <= r < i ==> vecinas[r] == Neighbours(n, touches, r)
    {
      var row: seq<nat> := [];
      for j := 0 to n
        invariant row == NeighboursBefore(touches, i, j)
      {
        if i != j && touches(i, j) {
          row := row + [j];
        }
      }
      vecinas := vecinas + [row];
    }
  }

  /** Every listed neighbour is a comuna number. */
  predicate InRange(vecinas: seq<seq<nat>>) {
    forall i, k :: 0 <= i < |vecinas| && 0 <= k < |vecinas[i]| ==> vecinas[i][k] < |vecinas|
  }

  /** The matrix the lists describe: 1 where the column is listed in the
      row's list, 0 elsewhere. */
  function MatrixOf(vecinas: seq<seq<nat>>): (g: seq<seq<int>>)
    ensures |g| == |vecinas| && forall i :: 0 <= i < |g| ==> |g[i]| == |vecinas|
  {
    var n := |vecinas|;
    seq(n, i requires 0 <= i < n => seq(n, j requires 0 <= j < n => if j in vecinas[i] then 1 else 0))
  }

  /** The contents of a matrix, row by row. */
  function Grid(m: array2<int>): (g: seq<seq<int>>)
    reads m
    ensures |g| == m.Length0 && forall i :: 0 <= i < |g| ==> |g[i]| == m.Length1
  {
    seq(m.Length0, i requires 0 <= i < m.Length0 reads m =>
      seq(m.Length1, j requires 0 <= j < m.Length1 reads m => m[i, j]))
  }

  /** `crear_matriz_adyacencia`: `np.zeros((n, n))`, then a 1 for every
      listed neighbour. */
  method AdjacencyMatrix(vecinas: seq<seq<nat>>) returns (m: array2<int>)
    requires InRange(vecinas)
    ensures fresh(m) && m.Length0 == |vecinas| && m.Length1 == |vecinas|
    ensures forall i, j :: 0 <= i < |vecinas| && 0 <= j < |vecinas| ==>
      m[i, j] == if j in vecinas[i] then 1 else 0
    ensures Grid(m) == MatrixOf(vecinas)
  {
    var n := |vecinas|;
    m := new int[n, n]((i, j) => 0);
    for i := 0 to n
      invariant forall r, c :: 0 <= r < n && 0 <= c < n ==>
        m[r, c] == if r < i && c in vecinas[r] then 1 else 0
    {
      var row := vecinas[i];
      for k := 0 to |row|
        invariant forall r, c :: 0 <= r < n && 0 <= c < n ==>
          m[r, c] == if (r < i && c in vecinas[r]) || (r == i && c in row[..k]) then 1 else 0
      {
        assert row[..k + 1] == row[..k] + [row[k]];
        m[i, row[k]] := 1;
      }
      assert row[..|row|] == row;
    }
    assert forall i :: 0 <= i < n ==> Grid(m)[i] == MatrixOf(vecinas)[i];
  }

  /** The matrix of the detected lists: an entry is 1 exactly when the two
      comunas are different and touch, so the diagonal is 0; every entry is
      0 or 1. */
  lemma MatrixEntries(n: nat, touches: Touches, vecinas: seq<seq<nat>>, i: nat, j: nat)
    requires |vecinas| == n && forall r :: 0 <= r < n ==> vecinas[r] == Neighbours(n, touches, r)
    requires i < n && j < n
    ensures MatrixOf(vecinas)[i][j] == 1 <==> i != j && touches(i, j)
    ensures MatrixOf(vecinas)[i][j] == 0 || MatrixOf(vecinas)[i][j] == 1
    ensures MatrixOf(vecinas)[i][i] == 0
  {
  }

  /** A symmetric `touches` gives a symmetric matrix. */
  lemma MatrixSymmetric(n: nat, touches: Touches, vecinas: seq<seq<nat>>)
    requires |vecinas| == n && forall r :: 0 <= r < n ==> vecinas[r] == Neighbours(n, touches, r)
    requires forall a: nat, b: nat :: touches(a, b) == touches(b, a)
    ensures forall i, j :: 0 <= i < n && 0 <= j < n ==> MatrixOf(vecinas)[i][j] == MatrixOf(vecinas)[j][i]
  {
    forall i, j | 0 <= i < n && 0 <= j < n ensures MatrixOf(vecinas)[i][j] == MatrixOf(vecinas)[j][i] {
      MatrixEntries(n, touches, vecinas, i, j);
      MatrixEntries(n, touches, vecinas, j, i);
    }
  }

  /** An edge `[i, j]` of `edge_index`. */
  datatype Edge = Edge(source: nat, target: nat)

  /** The edges of row `i` among the first `j` columns, by column. */
  function RowEdgesBefore(g: seq<seq<int>>, i: nat, j: nat): (r: seq<Edge>)
    requires i < |g| && j <= |g[i]|
    ensures forall e :: e in r <==> e.source == i && e.target < j && g[i][e.target] == 1
  {
    if j == 0 then []
    else RowEdgesBefore(g, i, j - 1) + (if g[i][j - 1] == 1 then [Edge(i, j - 1)] else [])
  }

  /** The edges of the first `i` rows, row by row. */
  function EdgesBefore(g: seq<seq<int>>, i: nat): (r: seq<Edge>)
    requires i <= |g|
    ensures forall e :: e in r <==> e.source < i && e.target < |g[e.source]| && g[e.source][e.target] == 1
  {
    if i == 0 then []
    else EdgesBefore(g, i - 1) + RowEdgesBefore(g, i - 1, |g[i - 1]|)
  }

  /** `edge_index`: the pairs with a 1, in row-major order. */
  function Edges(g: seq<seq<int>>): (r: seq<Edge>)
    ensures forall e :: e in r <==> e.source < |g| && e.target < |g[e.source]| && g[e.source][e.target] == 1
  {
    EdgesBefore(g, |g|)
  }

  /** The edge loop of `crear_dataframes_gnn`. */
  method EdgeIndex(m: array2<int>) returns (edges: seq<Edge>)
    ensures edges == Edges(Grid(m))
  {
    ghost var g := Grid(m);
    edges := [];
    for i := 0 to m.Length0
      invariant edges == EdgesBefore(g, i)
    {
      for j := 0 to m.Length1
        invariant edges == EdgesBefore(g, i) + RowEdgesBefore(g, i, j)
      {
        if m[i, j] == 1 {
          edges := edges + [Edge(i, j)];
        }
      }
    }
  }

  /** `e` comes before `f` in row-major order. */
  predicate RowMajor(e: Edge, f: Edge) {
    e.source < f.source || (e.source == f.source && e.target < f.target)
  }

  predicate RowMajorOrdered(es: seq<Edge>) {
    forall a, b :: 0 <= a < b < |es| ==> RowMajor(es[a], es[b])
  }

  lemma {:induction false} RowEdgesOrdered(g: seq<seq<int>>, i: nat, j: nat)
    requires i < |g| && j <= |g[i]|
    ensures RowMajorOrdered(RowEdgesBefore(g, i, j))
  {
    if j > 0 {
      RowEdgesOrdered(g, i, j - 1);
      var init := RowEdgesBefore(g, i, j - 1);
      assert forall a :: 0 <= a < |init| ==> init[a] in init;
    }
  }

  /** The edge list is in strict row-major order, so it has no repeated
      edge. */
  lemma {:induction false} EdgesOrdered(g: seq<seq<int>>, i: nat)
    requires i <= |g|
    ensures RowMajorOrdered(EdgesBefore(g, i))
  {
    if i > 0 {
      EdgesOrdered(g, i - 1);
      RowEdgesOrdered(g, i - 1, |g[i - 1]|);
      var init := EdgesBefore(g, i - 1);
      var row := RowEdgesBefore(g, i - 1, |g[i - 1]|);
      assert forall a :: 0 <= a < |init| ==> init[a] in init;
      assert forall b :: 0 <= b < |row| ==> row[b] in row;
    }
  }

  /** `matriz_adyacencia[i].sum()`. */
  function RowSum(row: seq<int>): int {
    if row == [] then 0 else RowSum(row[..|row| - 1]) + row[|row| - 1]
  }

  /** In a 0/1 row the sum counts the row's edges. */
  lemma {:induction false} RowSumCountsEdges(g: seq<seq<int>>, i: nat, j: nat)
    requires i < |g| && j <= |g[i]|
    requires forall c :: 0 <= c < |g[i]| ==> g[i][c] == 0 || g[i][c] == 1
    ensures |RowEdgesBefore(g, i, j)| == RowSum(g[i][..j])
  {
    if j > 0 {
      RowSumCountsEdges(g, i, j - 1);
      assert g[i][..j][..j - 1] == g[i][..j - 1];
    }
  }

  /** The sum of the first `i` row sums. */
  function TotalBefore(g: seq<seq<int>>, i: nat): int
    requires i <= |g|
  {
    if i == 0 then 0 else TotalBefore(g, i - 1) + RowSum(g[i - 1])
  }

  /** In a 0/1 matrix the edge list has one edge per 1. */
  lemma {:induction false} EdgeCount(g: seq<seq<int>>, i: nat)
    requires i <= |g|
    requires forall r, c :: 0 <= r < |g| && 0 <= c < |g[r]| ==> g[r][c] == 0 || g[r][c] == 1
    ensures |EdgesBefore(g, i)| == TotalBefore(g, i)
  {
    if i > 0 {
      EdgeCount(g, i - 1);
      RowSumCountsEdges(g, i - 1, |g[i - 1]|);
      assert g[i - 1][..|g[i - 1]|] == g[i - 1];
    }
  }

  /** The row sum of the detected matrix counts the comuna's neighbours. */
  lemma {:induction false} DegreeBefore(n: nat, touches: Touches, vecinas: seq<seq<nat>>, i: nat, j: nat)
    requires |vecinas| == n && forall r :: 0 <= r < n ==> vecinas[r] == Neighbours(n, touches, r)
    requires i < n && j <= n
    ensures RowSum(MatrixOf(vecinas)[i][..j]) == |NeighboursBefore(touches, i, j)|
  {
    if j > 0 {
      DegreeBefore(n, touches, vecinas, i, j - 1);
      assert MatrixOf(vecinas)[i][..j][..j - 1] == MatrixOf(vecinas)[i][..j - 1];
      MatrixEntries(n, touches, vecinas, i, j - 1);
    }
  }

  /** `grado`: the row sum is the length of the comuna's neighbour list. */
  lemma Degree(n: nat, touches: Touches, vecinas: seq<seq<nat>>, i: nat)
    requires |vecinas| == n && forall r :: 0 <= r < n ==> vecinas[r] == Neighbours(n, touches, r)
    requires i < n
    ensures RowSum(MatrixOf(vecinas)[i]) == |vecinas[i]|
  {
    DegreeBefore(n, touches, vecinas, i, n);
    assert MatrixOf(vecinas)[i][..n] == MatrixOf(vecinas)[i];
  }

  /** `total_conexiones`: the sum of the neighbour-list lengths. */
  function TotalConnections(vecinas: seq<seq<nat>>): nat {
    if vecinas == [] then 0 else TotalConnections(vecinas[..|vecinas| - 1]) + |vecinas[|vecinas| - 1]|
  }

  /** The edge list of the detected matrix has one edge per listed neighbour,
      `total_conexiones` in all. */
  lemma EdgesMatchConnections(n: nat, touches: Touches, vecinas: seq<seq<nat>>)
    requires |vecinas| == n && forall r :: 0 <= r < n ==> vecinas[r] == Neighbours(n, touches, r)
    ensures |Edges(MatrixOf(vecinas))| == TotalConnections(vecinas)
  {
    var g := MatrixOf(vecinas);
    forall r, c | 0 <= r < |g| && 0 <= c < |g[r]| ensures g[r][c] == 0 || g[r][c] == 1 {
      MatrixEntries(n, touches, vecinas, r, c);
    }
    EdgeCount(g, n);
    TotalsAgree(n, touches, vecinas, n);
    assert vecinas[..n] == vecinas;
  }

  lemma {:induction false} TotalsAgree(n: nat, touches: Touches, vecinas: seq<seq<nat>>, i: nat)
    requires |vecinas| == n && forall r :: 0 <= r < n ==> vecinas[r] == Neighbours(n, touches, r)
    requires i <= n
    ensures TotalBefore(MatrixOf(vecinas), i) == TotalConnections(vecinas[..i])
  {
    if i > 0 {
      TotalsAgree(n, touches, vecinas, i - 1);
      Degree(n, touches, vecinas, i - 1);
      assert vecinas[..i][..i - 1] == vecinas[..i - 1];
    }
  }
}
