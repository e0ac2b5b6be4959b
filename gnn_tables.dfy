/** `crear_dataframes_gnn` and `carga_comunas_gnn`: the node, edge and
    adjacency tables of the comuna graph, with node labels `Comuna_i` that
    stay distinct when comuna names repeat. */
module GnnTables {
  import opened Tables
  import opened Adjacency

  /** One comuna from the file, in file order. `area` is the geometry's area,
      taken as given. */
  datatype ComunaRecord = ComunaRecord(name: string, provincia: string, codComuna: int, codRegion: int, area: real)

  /** A row of `df_node_features`; the numeric columns went through
      `np.array(..., dtype=float)`. */
  datatype NodeRow = NodeRow(id: nat, name: string, provincia: string, codComuna: real,
                             codRegion: real, degree: real, area: real, nameLen: real)

  /** A row of `df_edges`. */
  datatype EdgeRow = EdgeRow(source: nat, target: nat, sourceName: string, targetName: string)

  /** `df_adjacency` after `reset_index`: the header is `comuna` followed by
      the labels, and each row starts with its label. */
  datatype AdjacencyFrame = AdjacencyFrame(columns: seq<string>, rows: seq<(string, seq<int>)>)

  function DigitChar(d: nat): (c: char)
    requires d < 10
    ensures '0' <= c <= '9' && c as int - '0' as int == d
  {
    ('0' as int + d) as char
  }

  /** `f"{i}"`: the decimal digits of `i`. */
  function NatToString(i: nat): (s: string)
    ensures |s| > 0 && forall k :: 0 <= k < |s| ==> '0' <= s[k] <= '9'
    ensures s[0] == '0' <==> i == 0
    ensures |s| > 1 ==> s[0] != '0'
  {
    if i < 10 then [DigitChar(i)] else NatToString(i / 10) + [DigitChar(i % 10)]
  }

  /** Reads a string of decimal digits back. */
  function ParseNat(s: string): nat {
    if s == [] then 0
    else
      var c := s[|s| - 1];
      var d := if '0' <= c <= '9' then c as int - '0' as int else 0;
      ParseNat(s[..|s| - 1]) * 10 + d
  }

  /** Reading the digits of `i` gives `i` back. */
  lemma {:induction false} ParseNatToString(i: nat)
    ensures ParseNat(NatToString(i)) == i
  {
    if i >= 10 {
      ParseNatToString(i / 10);
      var s := NatToString(i);
      assert s[..|s| - 1] == NatToString(i / 10);
    }
  }

  /** `nombre_unico = f"{nombre_base}_{i}"`. */
  function Label(name: string, i: nat): string {
    name + "_" + NatToString(i)
  }

  /** The characters after the last `_`. */
  function AfterLastUnderscore(s: string): (r: string)
    ensures '_' !in r
  {
    if s == [] || s[|s| - 1] == '_' then []
    else AfterLastUnderscore(s[..|s| - 1]) + [s[|s| - 1]]
  }

  lemma {:induction false} AfterLastUnderscoreOf(p: string, d: string)
    requires '_' !in d
    ensures AfterLastUnderscore(p + "_" + d) == d
  {
    if d != [] {
      var n := |d| - 1;
      assert d[n] in d;
      assert (p + "_" + d)[..|p + "_" + d| - 1] == p + "_" + d[..n];
      assert '_' !in d[..n] by {
        forall k | 0 <= k < n ensures d[..n][k] != '_' {
          assert d[k] in d;
        }
      }
      AfterLastUnderscoreOf(p, d[..n]);
      assert d == d[..n] + [d[n]];
    } else {
      assert (p + "_" + d)[|p + "_" + d| - 1] == '_';
    }
  }

  /** A label names its comuna's number: the digits after its last `_`,
      whatever the name holds. */
  lemma LabelIndex(name: string, i: nat)
    ensures ParseNat(AfterLastUnderscore(Label(name, i))) == i
  {
    var d := NatToString(i);
    assert '_' !in d by {
      forall k | 0 <= k < |d| ensures d[k] != '_' {
      }
    }
    AfterLastUnderscoreOf(name, d);
    ParseNatToString(i);
  }

  /** Labels of different comunas differ, even when their names are equal. */
  lemma LabelsDistinct(a: string, i: nat, b: string, j: nat)
    requires i != j
    ensures Label(a, i) != Label(b, j)
  {
    LabelIndex(a, i);
    LabelIndex(b, j);
  }

  /** `nombres_unicos`. */
  method UniqueNames(comunas: seq<ComunaRecord>) returns (labels: seq<string>)
    ensures |labels| == |comunas|
    ensures forall i :: 0 <= i < |comunas| ==> labels[i] == Label(comunas[i].name, i)
    ensures NoDuplicates(labels)
  {
    labels := [];
    for i := 0 to |comunas|
      invariant |labels| == i
      invariant forall k :: 0 <= k < i ==> labels[k] == Label(comunas[k].name, k)
    {
      labels := labels + [Label(comunas[i].name, i)];
    }
    forall a, b | 0 <= a < b < |labels| ensures labels[a] != labels[b] {
      LabelsDistinct(comunas[a].name, a, comunas[b].name, b);
    }
  }

  /** The node row of comuna `i`, with `grado` the sum of its matrix row. */
  function NodeOf(comunas: seq<ComunaRecord>, g: seq<seq<int>>, i: nat): NodeRow
    requires i < |comunas| && i < |g|
  {
    var c := comunas[i];
    NodeRow(i, c.name, c.provincia, c.codComuna as real, c.codRegion as real,
            RowSum(g[i]) as real, c.area, |c.name| as real)
  }

  /** The `node_features` loop. */
  method NodeFeatures(comunas: seq<ComunaRecord>, m: array2<int>) returns (nodes: seq<NodeRow>)
    requires m.Length0 == |comunas|
    ensures |nodes| == |comunas|
    ensures forall i :: 0 <= i < |comunas| ==> nodes[i] == NodeOf(comunas, Grid(m), i)
  {
    nodes := [];
    for i := 0 to |comunas|
      invariant |nodes| == i
      invariant forall k :: 0 <= k < i ==> nodes[k] == NodeOf(comunas, Grid(m), k)
    {
      nodes := nodes + [NodeOf(comunas, Grid(m), i)];
    }
  }

  /** Every edge joins two comunas of the file. */
  predicate EdgesInRange(edges: seq<Edge>, n: nat) {
    forall k :: 0 <= k < |edges| ==> edges[k].source < n && edges[k].target < n
  }

  /** `df_edges`: one row per edge, with both comunas' names; no rows (only
      the column names) when there is no edge. */
  function EdgeTable(comunas: seq<ComunaRecord>, edges: seq<Edge>): (rows: seq<EdgeRow>)
    requires EdgesInRange(edges, |comunas|)
    ensures |rows| == |edges|
    ensures forall k :: 0 <= k < |edges| ==>
      rows[k].source == edges[k].source && rows[k].target == edges[k].target &&
      rows[k].sourceName == comunas[edges[k].source].name &&
      rows[k].targetName == comunas[edges[k].target].name
  {
    if |edges| > 0 then
      seq(|edges|, k requires 0 <= k < |edges| =>
        EdgeRow(edges[k].source, edges[k].target, comunas[edges[k].source].name, comunas[edges[k].target].name))
    else []
  }

  /** `df_adjacency`. */
  function AdjacencyTable(labels: seq<string>, g: seq<seq<int>>): (f: AdjacencyFrame)
    requires |labels| == |g|
    ensures f.columns == ["comuna"] + labels
    ensures |f.rows| == |g| && forall i :: 0 <= i < |g| ==> f.rows[i] == (labels[i], g[i])
  {
    AdjacencyFrame(["comuna"] + labels, seq(|g|, i requires 0 <= i < |g| => (labels[i], g[i])))
  }

  /** The three tables `carga_comunas_gnn` returns, and `total_conexiones`. */
  datatype GnnOutput = GnnOutput(nodes: seq<NodeRow>, edges: seq<EdgeRow>, adjacency: AdjacencyFrame,
                                 totalConnections: nat)

  /** The tables for the comunas of the file and their `touches` relation. */
  function GnnSpec(comunas: seq<ComunaRecord>, touches: Touches): GnnOutput {
    var n := |comunas|;
    var vecinas := seq(n, i requires 0 <= i < n => Neighbours(n, touches, i));
    var g := MatrixOf(vecinas);
    var es := Edges(g);
    assert EdgesInRange(es, n) by {
      forall k | 0 <= k < |es| ensures es[k].source < n && es[k].target < n {
        assert es[k] in es;
      }
    }
    GnnOutput(seq(n, i requires 0 <= i < n => NodeOf(comunas, g, i)),
              EdgeTable(comunas, es),
              AdjacencyTable(seq(n, i requires 0 <= i < n => Label(comunas[i].name, i)), g),
              TotalConnections(vecinas))
  }

  /** `carga_comunas_gnn`, after the comuna file has been read. */
  method BuildGnnTables(comunas: seq<ComunaRecord>, touches: Touches) returns (out: GnnOutput)
    ensures out == GnnSpec(comunas, touches)
  {
    var n := |comunas|;
    var vecinas := DetectNeighbours(n, touches);
    assert vecinas == seq(n, i requires 0 <= i < n => Neighbours(n, touches, i));
    var total := TotalConnections(vecinas);
    var m := AdjacencyMatrix(vecinas);
    var edges := EdgeIndex(m);
    var nodes := NodeFeatures(comunas, m);
    assert EdgesInRange(edges, n) by {
      forall k | 0 <= k < |edges| ensures edges[k].source < n && edges[k].target < n {
        assert edges[k] in edges;
      }
    }
    var edgeRows := EdgeTable(comunas, edges);
    var labels := UniqueNames(comunas);
    var adjacency := AdjacencyTable(labels, Grid(m));
    out := GnnOutput(nodes, edgeRows, adjacency, total);
  }

  /** Node ids are 0..n-1 in file order, and each node's degree is the
      number of comunas it touches. */
  lemma GnnNodes(comunas: seq<ComunaRecord>, touches: Touches, i: nat)
    requires i < |comunas|
    ensures var out := GnnSpec(comunas, touches);
      |out.nodes| == |comunas| && out.nodes[i].id == i && out.nodes[i].name == comunas[i].name &&
      out.nodes[i].degree == |Neighbours(|comunas|, touches, i)| as real
  {
    var n := |comunas|;
    var vecinas := seq(n, k requires 0 <= k < n => Neighbours(n, touches, k));
    Degree(n, touches, vecinas, i);
  }

  /** Some row of the edge table goes from comuna `i` to comuna `j`. */
  predicate HasEdgeRow(rows: seq<EdgeRow>, i: nat, j: nat) {
    exists k :: 0 <= k < |rows| && rows[k].source == i && rows[k].target == j
  }

  /** The edge table has a row from `i` to `j` exactly when the two are
      distinct comunas that touch. */
  lemma GnnEdgePair(comunas: seq<ComunaRecord>, touches: Touches, i: nat, j: nat)
    ensures HasEdgeRow(GnnSpec(comunas, touches).edges, i, j) <==>
      i < |comunas| && j < |comunas| && i != j && touches(i, j)
  {
    var n := |comunas|;
    var vecinas := seq(n, k requires 0 <= k < n => Neighbours(n, touches, k));
    var g := MatrixOf(vecinas);
    var es := Edges(g);
    var rows := GnnSpec(comunas, touches).edges;
    if i < n && j < n {
      MatrixEntries(n, touches, vecinas, i, j);
    }
    if i < n && j < n && i != j && touches(i, j) {
      assert Edge(i, j) in es;
      var k :| 0 <= k < |es| && es[k] == Edge(i, j);
      assert rows[k].source == i && rows[k].target == j;
    }
    if HasEdgeRow(rows, i, j) {
      var k :| 0 <= k < |rows| && rows[k].source == i && rows[k].target == j;
      assert es[k] in es;
      assert es[k] == Edge(i, j);
    }
  }

  /** The edge table lists exactly the ordered pairs of different comunas
      that touch, in row-major order, and has `total_conexiones` rows. */
  lemma GnnEdges(comunas: seq<ComunaRecord>, touches: Touches)
    ensures var rows := GnnSpec(comunas, touches).edges;
      |rows| == GnnSpec(comunas, touches).totalConnections &&
      (forall a, b :: 0 <= a < b < |rows| ==>
        rows[a].source < rows[b].source || (rows[a].source == rows[b].source && rows[a].target < rows[b].target)) &&
      forall i: nat, j: nat :: HasEdgeRow(rows, i, j) <==>
        i < |comunas| && j < |comunas| && i != j && touches(i, j)
  {
    var n := |comunas|;
    var vecinas := seq(n, k requires 0 <= k < n => Neighbours(n, touches, k));
    EdgesMatchConnections(n, touches, vecinas);
    EdgesOrdered(MatrixOf(vecinas), n);
    forall i: nat, j: nat
      ensures HasEdgeRow(GnnSpec(comunas, touches).edges, i, j) <==> i < n && j < n && i != j && touches(i, j)
    {
      GnnEdgePair(comunas, touches, i, j);
    }
  }

  /** With no comunas touching, the edge table is empty. */
  lemma GnnNoEdges(comunas: seq<ComunaRecord>, touches: Touches)
    requires forall i: nat, j: nat :: !touches(i, j)
    ensures GnnSpec(comunas, touches).edges == []
  {
    var n := |comunas|;
    var vecinas := seq(n, k requires 0 <= k < n => Neighbours(n, touches, k));
    var es := Edges(MatrixOf(vecinas));
    if es != [] {
      assert es[0] in es;
      MatrixEntries(n, touches, vecinas, es[0].source, es[0].target);
    }
  }

  /** The adjacency table's labels are distinct and its header is `comuna`
      followed by them. */
  lemma GnnLabels(comunas: seq<ComunaRecord>, touches: Touches)
    ensures var f := GnnSpec(comunas, touches).adjacency;
      |f.columns| == |comunas| + 1 && f.columns[0] == "comuna" &&
      forall a, b :: 1 <= a < b < |f.columns| ==> f.columns[a] != f.columns[b]
  {
    var f := GnnSpec(comunas, touches).adjacency;
    forall a, b | 1 <= a < b < |f.columns| ensures f.columns[a] != f.columns[b] {
      LabelsDistinct(comunas[a - 1].name, a - 1, comunas[b - 1].name, b - 1);
    }
  }
}
