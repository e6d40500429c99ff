/** Graphs built from a matrix of (weight, from, to) rows. */
module Graphs {
  import opened SpanningForests

  datatype Row = Row(weight: int, from: int, to: int)

  datatype Node = Node(value: int, indegree: nat, outdegree: nat, nexts: seq<int>, edges: seq<Edge>)

  ghost function EdgeAt(matrix: seq<Row>, i: nat): Edge
    requires i < |matrix|
  {
    Edge(i, matrix[i].weight, matrix[i].from, matrix[i].to)
  }

  ghost function AllEdges(matrix: seq<Row>, n: nat): set<Edge>
    requires n <= |matrix|
  {
    set i | 0 <= i < n :: EdgeAt(matrix, i)
  }

  ghost function Ends(matrix: seq<Row>, n: nat): set<int>
    requires n <= |matrix|
  {
    (set i | 0 <= i < n :: matrix[i].from) + (set i | 0 <= i < n :: matrix[i].to)
  }

  /** The first n rows' edges leaving v, in row order. */
  ghost function Leaving(matrix: seq<Row>, n: nat, v: int): seq<Edge>
    requires n <= |matrix|
  {
    if n == 0 then []
    else Leaving(matrix, n - 1, v) + if matrix[n - 1].from == v then [EdgeAt(matrix, n - 1)] else []
  }

  ghost function Entering(matrix: seq<Row>, n: nat, v: int): nat
    requires n <= |matrix|
  {
    if n == 0 then 0 else Entering(matrix, n - 1, v) + if matrix[n - 1].to == v then 1 else 0
  }

  ghost function Targets(edges: seq<Edge>): seq<int> {
    seq(|edges|, i requires 0 <= i < |edges| => edges[i].to)
  }

  ghost function NodeOf(matrix: seq<Row>, n: nat, v: int): Node
    requires n <= |matrix|
  {
    var out := Leaving(matrix, n, v);
    Node(v, Entering(matrix, n, v), |out|, Targets(out), out)
  }

  lemma {:induction false} NoRowsYet(matrix: seq<Row>, n: nat, v: int)
    requires n <= |matrix| && v !in Ends(matrix, n)
    ensures Leaving(matrix, n, v) == [] && Entering(matrix, n, v) == 0
  {
    if n > 0 {
      assert v !in Ends(matrix, n - 1);
      NoRowsYet(matrix, n - 1, v);
    }
  }

  lemma MoreEdges(matrix: seq<Row>, n: nat)
    requires n < |matrix|
    ensures AllEdges(matrix, n + 1) == AllEdges(matrix, n) + {EdgeAt(matrix, n)}
  {
    forall e | e in AllEdges(matrix, n) + {EdgeAt(matrix, n)} ensures e in AllEdges(matrix, n + 1) {
      var i :| 0 <= i <= n && e == EdgeAt(matrix, i);
    }
  }

  lemma {:induction false} LeavingIsExact(matrix: seq<Row>, n: nat, v: int, e: Edge)
    requires n <= |matrix|
    ensures e in Leaving(matrix, n, v) <==> e in AllEdges(matrix, n) && e.from == v
  {
    if n > 0 {
      LeavingIsExact(matrix, n - 1, v, e);
      MoreEdges(matrix, n - 1);
    }
  }

  class Graph {
    var nodes: map<int, Node>
    var edges: set<Edge>

    constructor ()
      ensures nodes == map[] && edges == {}
    {
      nodes, edges := map[], {};
    }

    /** The graph of the first n rows: every edge, and every node's degrees and lists. */
    ghost predicate Describes(matrix: seq<Row>, n: nat)
      requires n <= |matrix|
      reads this
    {
      && edges == AllEdges(matrix, n)
      && nodes.Keys == Ends(matrix, n)
      && forall v :: v in nodes ==> nodes[v] == NodeOf(matrix, n, v)
    }
  }

  // ----- what that means in terms of the rows

  /** Exactly the first n rows, each as the edge of its weight and ends. */
  ghost predicate AreRows(matrix: seq<Row>, n: nat, edges: set<Edge>)
    requires n <= |matrix|
  {
    forall e :: e in edges <==> exists i :: 0 <= i < n && IsRow(matrix, i, e)
  }

  ghost predicate IsRow(matrix: seq<Row>, i: int, e: Edge)
    requires 0 <= i < |matrix|
  {
    e.id == i && e.weight == matrix[i].weight && e.from == matrix[i].from && e.to == matrix[i].to
  }

  ghost function RowsFrom(matrix: seq<Row>, n: nat, v: int): set<int>
    requires n <= |matrix|
  {
    set i | 0 <= i < n && matrix[i].from == v
  }

  ghost function RowsTo(matrix: seq<Row>, n: nat, v: int): set<int>
    requires n <= |matrix|
  {
    set i | 0 <= i < n && matrix[i].to == v
  }

  /** Its own value, the numbers of rows leaving and entering it, and the rows leaving it in order. */
  ghost predicate IsNode(matrix: seq<Row>, n: nat, v: int, node: Node)
    requires n <= |matrix|
  {
    && node.value == v
    && node.outdegree == |RowsFrom(matrix, n, v)| && node.indegree == |RowsTo(matrix, n, v)|
    && |node.edges| == node.outdegree && |node.nexts| == node.outdegree
    && (forall k :: 0 <= k < |node.edges| ==> IsRowFrom(matrix, n, v, node.edges[k]))
    && (forall k, l :: 0 <= k < l < |node.edges| ==> node.edges[k].id < node.edges[l].id)
    && forall k :: 0 <= k < |node.edges| ==> node.nexts[k] == node.edges[k].to
  }

  ghost predicate IsRowFrom(matrix: seq<Row>, n: nat, v: int, e: Edge)
    requires n <= |matrix|
  {
    0 <= e.id < n && IsRow(matrix, e.id, e) && e.from == v
  }

  /** The nodes are the ends of the rows, each as its rows say. */
  ghost predicate AreNodes(matrix: seq<Row>, n: nat, nodes: map<int, Node>)
    requires n <= |matrix|
  {
    && (forall v :: v in nodes <==> exists i :: 0 <= i < n && (matrix[i].from == v || matrix[i].to == v))
    && forall v :: v in nodes ==> IsNode(matrix, n, v, nodes[v])
  }

  lemma {:induction false} LeavingAreRows(matrix: seq<Row>, n: nat, v: int)
    requires n <= |matrix|
    ensures IsNode(matrix, n, v, NodeOf(matrix, n, v))
  {
    if n == 0 {
      assert RowsFrom(matrix, n, v) == {} && RowsTo(matrix, n, v) == {};
    } else {
      LeavingAreRows(matrix, n - 1, v);
      MoreRows(matrix, n - 1, v);
      EdgeCounted(matrix, n - 1, v);
    }
  }

  lemma MoreRows(matrix: seq<Row>, n: nat, v: int)
    requires n < |matrix|
    ensures |RowsFrom(matrix, n + 1, v)| == |RowsFrom(matrix, n, v)| + if matrix[n].from == v then 1 else 0
    ensures |RowsTo(matrix, n + 1, v)| == |RowsTo(matrix, n, v)| + if matrix[n].to == v then 1 else 0
  {
    hide RowsFrom, RowsTo;
    RowsFromNext(matrix, n, v);
    RowsToNext(matrix, n, v);
  }

  lemma RowsFromNext(matrix: seq<Row>, n: nat, v: int)
    requires n < |matrix|
    ensures RowsFrom(matrix, n + 1, v) == RowsFrom(matrix, n, v) + if matrix[n].from == v then {n} else {}
    ensures n !in RowsFrom(matrix, n, v)
  {
  }

  lemma RowsToNext(matrix: seq<Row>, n: nat, v: int)
    requires n < |matrix|
    ensures RowsTo(matrix, n + 1, v) == RowsTo(matrix, n, v) + if matrix[n].to == v then {n} else {}
    ensures n !in RowsTo(matrix, n, v)
  {
  }

  lemma AllAreRows(matrix: seq<Row>, n: nat)
    requires n <= |matrix|
    ensures AreRows(matrix, n, AllEdges(matrix, n))
  {
    forall e ensures e in AllEdges(matrix, n) <==> exists i :: 0 <= i < n && IsRow(matrix, i, e) {
      if e in AllEdges(matrix, n) {
        var i :| 0 <= i < n && e == EdgeAt(matrix, i);
        assert IsRow(matrix, i, e);
      }
      if i :| 0 <= i < n && IsRow(matrix, i, e) {
        assert e == EdgeAt(matrix, i);
      }
    }
  }

  /** The description determines edges and nodes from the rows alone. */
  lemma GraphOfRows(graph: Graph, matrix: seq<Row>, n: nat)
    requires n <= |matrix| && graph.Describes(matrix, n)
    ensures AreRows(matrix, n, graph.edges) && AreNodes(matrix, n, graph.nodes)
  {
    AllAreRows(matrix, n);
    forall v | v in graph.nodes ensures IsNode(matrix, n, v, graph.nodes[v]) {
      LeavingAreRows(matrix, n, v);
    }
    forall v ensures v in Ends(matrix, n) <==> exists i :: 0 <= i < n && (matrix[i].from == v || matrix[i].to == v) {
    }
  }

  // ----- building it

  method CreateGraph(matrix: seq<Row>) returns (graph: Graph)
    ensures fresh(graph) && graph.Describes(matrix, |matrix|)
    ensures AreRows(matrix, |matrix|, graph.edges) && AreNodes(matrix, |matrix|, graph.nodes)
  {
    graph := new Graph();
    for i := 0 to |matrix|
      invariant fresh(graph) && graph.Describes(matrix, i)
    {
      AddRow(graph, matrix, i);
    }
    GraphOfRows(graph, matrix, |matrix|);
  }

  ghost predicate NodesOf(matrix: seq<Row>, n: nat, nodes: map<int, Node>)
    requires n <= |matrix|
  {
    forall v :: v in nodes ==> nodes[v] == NodeOf(matrix, n, v)
  }

  /** The entry a row's end is looked up under: an empty node if it is new. */
  function Registered(nodes: map<int, Node>, v: int): map<int, Node> {
    if v in nodes then nodes else nodes[v := Node(v, 0, 0, [], [])]
  }

  function WithEdge(node: Node, edge: Edge): Node {
    node.(outdegree := node.outdegree + 1, nexts := node.nexts + [edge.to], edges := node.edges + [edge])
  }

  lemma RegisteredIsEmpty(matrix: seq<Row>, n: nat, nodes: map<int, Node>, v: int)
    requires n <= |matrix| && NodesOf(matrix, n, nodes) && Ends(matrix, n) <= nodes.Keys
    ensures NodesOf(matrix, n, Registered(nodes, v))
  {
    if v !in nodes {
      NoRowsYet(matrix, n, v);
    }
  }

  lemma EdgeCounted(matrix: seq<Row>, n: nat, v: int)
    requires n < |matrix|
    ensures var row, prior, later := matrix[n], NodeOf(matrix, n, v), NodeOf(matrix, n + 1, v);
            var out := if v == row.from then WithEdge(prior, EdgeAt(matrix, n)) else prior;
            later == if v == row.to then out.(indegree := out.indegree + 1) else out
  {
    var out := Leaving(matrix, n, v);
    assert Targets(out + [EdgeAt(matrix, n)]) == Targets(out) + [matrix[n].to];
    assert out + [] == out;
  }

  method AddRow(graph: Graph, matrix: seq<Row>, i: nat)
    requires i < |matrix| && graph.Describes(matrix, i)
    modifies graph
    ensures graph.Describes(matrix, i + 1)
    ensures AreRows(matrix, i + 1, graph.edges) && AreNodes(matrix, i + 1, graph.nodes)
  {
    var from, to := matrix[i].from, matrix[i].to;
    var edge := Edge(i, matrix[i].weight, from, to);
    var nodes := graph.nodes;
    RegisteredIsEmpty(matrix, i, nodes, from);
    nodes := Registered(nodes, from);
    RegisteredIsEmpty(matrix, i, nodes, to);
    nodes := Registered(nodes, to);
    ghost var before := nodes;
    nodes := nodes[from := WithEdge(nodes[from], edge)];
    nodes := nodes[to := nodes[to].(indegree := nodes[to].indegree + 1)];
    forall v | v in nodes ensures nodes[v] == NodeOf(matrix, i + 1, v) {
      EdgeCounted(matrix, i, v);
    }
    MoreEdges(matrix, i);
    assert nodes.Keys == Ends(matrix, i + 1);
    graph.nodes := nodes;
    graph.edges := graph.edges + {edge};
    GraphOfRows(graph, matrix, i + 1);
  }
}
