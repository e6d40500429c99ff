/**
 Prim's algorithm started over from every node, in the order the graph hands its nodes out: what
 it builds on any directed graph, when that spans the graph, and when it is of least weight.
*/
module PrimSpanning {
  import opened SpanningForests
  import opened Graphs
  import opened MinimumSpanning

  // ----- directed reachability

  ghost predicate Path(E: set<Edge>, u: int, p: seq<Edge>, v: int)
    decreases |p|
  {
    if p == [] then u == v else p[0] in E && p[0].from == u && Path(E, p[0].to, p[1..], v)
  }

  ghost predicate Reaches(E: set<Edge>, u: int, v: int) {
    exists p :: Path(E, u, p, v)
  }

  lemma ReachesSelf(E: set<Edge>, u: int)
    ensures Reaches(E, u, u)
  {
    assert Path(E, u, [], u);
  }

  lemma {:induction false} PathConcat(E: set<Edge>, u: int, p: seq<Edge>, v: int, q: seq<Edge>, w: int)
    requires Path(E, u, p, v) && Path(E, v, q, w)
    ensures Path(E, u, p + q, w)
    decreases |p|
  {
    if p == [] {
      assert p + q == q;
    } else {
      assert (p + q)[1..] == p[1..] + q;
      PathConcat(E, p[0].to, p[1..], v, q, w);
    }
  }

  lemma ReachesTransitive(E: set<Edge>, u: int, v: int, w: int)
    requires Reaches(E, u, v) && Reaches(E, v, w)
    ensures Reaches(E, u, w)
  {
    var p :| Path(E, u, p, v);
    var q :| Path(E, v, q, w);
    PathConcat(E, u, p, v, q, w);
  }

  lemma ReachesAlong(E: set<Edge>, e: Edge)
    requires e in E
    ensures Reaches(E, e.from, e.to)
  {
    assert Path(E, e.to, [e][1..], e.to);
    assert Path(E, e.from, [e], e.to);
  }

  /** No edge leaves V. */
  ghost predicate Closed(E: set<Edge>, V: set<int>) {
    forall e :: e in E && e.from in V ==> e.to in V
  }

  lemma {:induction false} PathStays(E: set<Edge>, V: set<int>, u: int, p: seq<Edge>, v: int)
    requires Closed(E, V) && u in V && Path(E, u, p, v)
    ensures v in V
    decreases |p|
  {
    if p != [] {
      PathStays(E, V, p[0].to, p[1..], v);
    }
  }

  lemma ClosedHolds(E: set<Edge>, V: set<int>, u: int, v: int)
    requires Closed(E, V) && u in V && Reaches(E, u, v)
    ensures v in V
  {
    var p :| Path(E, u, p, v);
    PathStays(E, V, u, p, v);
  }

  // ----- visiting orders

  /** Every node once, in any order. */
  ghost predicate Visits(order: seq<int>, nodes: set<int>) {
    (forall i, j :: 0 <= i < j < |order| ==> order[i] != order[j]) && forall x :: x in order <==> x in nodes
  }

  /** The k-th start is the first that reaches x. */
  ghost predicate IsFirst(E: set<Edge>, order: seq<int>, x: int, k: int) {
    && 0 <= k < |order| && Reaches(E, order[k], x)
    && forall j :: 0 <= j < k ==> !Reaches(E, order[j], x)
  }

  /** The ends of every edge are first reached from the same start. */
  ghost predicate SamePass(E: set<Edge>, order: seq<int>) {
    forall e, k :: e in E ==> (IsFirst(E, order, e.from, k) <==> IsFirst(E, order, e.to, k))
  }

  /** The ends of every edge reach each other. */
  ghost predicate Mutual(E: set<Edge>) {
    forall e :: e in E ==> Reaches(E, e.to, e.from)
  }

  lemma MutualIsSamePass(E: set<Edge>, order: seq<int>)
    requires Mutual(E)
    ensures SamePass(E, order)
  {
    forall e, z | e in E ensures Reaches(E, z, e.from) <==> Reaches(E, z, e.to) {
      ReachesAlong(E, e);
      if Reaches(E, z, e.from) {
        ReachesTransitive(E, z, e.from, e.to);
      }
      if Reaches(E, z, e.to) {
        ReachesTransitive(E, z, e.to, e.from);
      }
    }
    hide Reaches;
  }

  lemma {:induction false} SomeVisit(nodes: set<int>) returns (order: seq<int>)
    ensures Visits(order, nodes)
    decreases nodes
  {
    if nodes == {} {
      order := [];
    } else {
      assert (forall x :: x !in nodes) ==> nodes == {};
      var x :| x in nodes;
      var rest := SomeVisit(nodes - {x});
      order := [x] + rest;
      VisitFirst(nodes, x, rest);
    }
  }

  lemma VisitFirst(nodes: set<int>, x: int, rest: seq<int>)
    requires x in nodes && Visits(rest, nodes - {x})
    ensures Visits([x] + rest, nodes)
  {
    var order := [x] + rest;
    forall y ensures y in order <==> y in nodes {
      assert y in order <==> y == x || y in rest;
    }
    assert forall j :: 1 <= j < |order| ==> order[j] == rest[j - 1] && order[j] in rest;
  }

  /** Every visiting order keeps the ends of every edge together if and only if they reach each other. */
  lemma SamePassAlwaysIffMutual(E: set<Edge>, nodes: set<int>)
    requires forall e :: e in E ==> e.from in nodes && e.to in nodes
    ensures (forall order :: Visits(order, nodes) ==> SamePass(E, order)) <==> Mutual(E)
  {
    if Mutual(E) {
      forall order {
        MutualIsSamePass(E, order);
      }
    } else {
      var e :| e in E && !Reaches(E, e.to, e.from);
      var rest := SomeVisit(nodes - {e.to});
      VisitFirst(nodes, e.to, rest);
      ReachesSelf(E, e.to);
      var order := [e.to] + rest;
      hide Reaches, Visits;
      assert IsFirst(E, order, e.to, 0) && !IsFirst(E, order, e.from, 0);
      assert !SamePass(E, order);
      assert Visits(order, nodes);
    }
  }

  // ----- one choice

  /** Every edge has a twin of the same weight in the other direction. */
  ghost predicate Symmetrical(E: set<Edge>) {
    forall e {:trigger HasTwin(E, e)} :: e in E ==> HasTwin(E, e)
  }

  ghost predicate HasTwin(E: set<Edge>, e: Edge) {
    exists d :: d in E && IsTwin(e, d)
  }

  ghost predicate IsTwin(e: Edge, d: Edge) {
    d.from == e.to && d.to == e.from && d.weight == e.weight
  }

  ghost predicate Crosses(V: set<int>, e: Edge) {
    (e.from in V) != (e.to in V)
  }

  lemma {:induction false} NoCrossingNoEscape(G: set<Edge>, V: set<int>, u: int, p: seq<Edge>, v: int)
    requires Walk(G, u, p, v) && u in V && forall g :: g in G ==> !Crosses(V, g)
    ensures v in V
    decreases |p|
  {
    if p != [] {
      if p[0].from == u && Walk(G, p[0].to, p[1..], v) {
        NoCrossingNoEscape(G, V, p[0].to, p[1..], v);
      } else {
        NoCrossingNoEscape(G, V, p[0].from, p[1..], v);
      }
    }
  }

  /** F lives inside V. */
  ghost predicate Inside(F: set<Edge>, V: set<int>) {
    forall f :: f in F ==> f.from in V && f.to in V
  }

  lemma InsideSeparates(F: set<Edge>, V: set<int>, u: int, v: int)
    requires (forall f :: f in F ==> !Crosses(V, f)) && u in V && v !in V
    ensures !Connected(F, u, v)
  {
    if Connected(F, u, v) {
      var p :| Walk(F, u, p, v);
      NoCrossingNoEscape(F, V, u, p, v);
    }
  }

  /** Edges leaving the current tree are queued, or end at a visited node. */
  ghost predicate Frontier(E: set<Edge>, cur: set<int>, V: set<int>, queue: set<Edge>) {
    forall e :: e in E && e.from in cur ==> e in queue || e.to in V
  }

  /** On a symmetric graph an edge across the visited border is queued, or its twin is. */
  lemma CrossingIsQueued(E: set<Edge>, prior: set<int>, cur: set<int>, V: set<int>, queue: set<Edge>, x: Edge, g: Edge)
    requires Symmetrical(E) && Closed(E, prior) && Frontier(E, cur, V, queue) && V == prior + cur
    requires Lightest(queue, x) && g in E && Crosses(V, g)
    ensures x.weight <= g.weight
  {
    assert HasTwin(E, g);
    var d :| d in E && IsTwin(g, d);
    var leaving := if g.from in V then g else d;
    assert leaving in queue;
  }

  /** The lightest queued edge to a new node closes no cycle, and on a symmetric graph keeps the forest promising. */
  lemma PrimChoice(E: set<Edge>, prior: set<int>, cur: set<int>, V: set<int>, queue: set<Edge>, F: set<Edge>, x: Edge)
    requires Closed(E, prior) && Frontier(E, cur, V, queue) && V == prior + cur
    requires Lightest(queue, x) && x in E && x.from in V && x.to !in V
    requires Inside(F, V) && Acyclic(F)
    ensures Acyclic(F + {x})
    ensures Symmetrical(E) && Promising(E, F) ==> Promising(E, F + {x})
  {
    InsideSeparates(F, V, x.from, x.to);
    AddKeepsAcyclic(F, x);
    if Symmetrical(E) && Promising(E, F) {
      forall T | SpanningForest(E, T) ensures GrowsWithin(E, F + {x}, Weight(T)) {
        GrowsByLightest(E, prior, cur, V, queue, F, x, T);
      }
    }
  }

  lemma GrowsByLightest(E: set<Edge>, prior: set<int>, cur: set<int>, V: set<int>, queue: set<Edge>, F: set<Edge>,
                        x: Edge, T: set<Edge>)
    requires Closed(E, prior) && Frontier(E, cur, V, queue) && V == prior + cur
    requires Lightest(queue, x) && x in E && x.from in V && x.to !in V && Inside(F, V)
    requires Symmetrical(E) && Promising(E, F) && SpanningForest(E, T)
    ensures GrowsWithin(E, F + {x}, Weight(T))
  {
    assert GrowsWithin(E, F, Weight(T));
    var T' :| SpanningForest(E, T') && F <= T' && Weight(T') <= Weight(T);
    var G := set g | g in T' && !Crosses(V, g);
    InsideSeparates(G, V, x.from, x.to);
    forall g | g in T' && g !in G ensures x.weight <= g.weight {
      CrossingIsQueued(E, prior, cur, V, queue, x, g);
    }
    assert GoodCut(F, x, T', G);
    GrowByCut(E, F, x, T', G);
    LooserBound(E, F + {x}, Weight(T'), Weight(T));
  }

  // ----- one pass

  /** The tree grown from root: reached by directed edges, and connected by what was added to F0. */
  ghost predicate Rooted(E: set<Edge>, cur: set<int>, root: int, F0: set<Edge>, F: set<Edge>) {
    && F0 <= F
    && (forall c :: c in cur ==> Reaches(E, root, c) && Connected(F, root, c))
    && forall f :: f in F && f !in F0 ==> f.from in cur && f.to in cur
  }

  lemma RootedGrows(E: set<Edge>, cur: set<int>, root: int, F0: set<Edge>, F: set<Edge>, x: Edge)
    requires Rooted(E, cur, root, F0, F) && x in E && x.from in cur
    ensures Rooted(E, cur + {x.to}, root, F0, F + {x})
  {
    ReachesAlong(E, x);
    ReachesTransitive(E, root, x.from, x.to);
    EdgeConnects(F + {x}, x);
    hide Reaches, Connected;
    forall c | c in cur ensures Connected(F + {x}, root, c) {
      Monotone(F, F + {x}, root, c);
    }
    Transitive(F + {x}, root, x.from, x.to);
  }

  /** What one pass keeps while it grows the tree cur beside the nodes of earlier passes. */
  ghost predicate PrimState(E: set<Edge>, nodes: set<int>, prior: set<int>, cur: set<int>, V: set<int>,
                            queue: set<Edge>, F0: set<Edge>, F: set<Edge>, root: int)
  {
    && V == prior + cur && prior !! cur && V <= nodes
    && F <= E && Inside(F, V) && Acyclic(F) && (Symmetrical(E) ==> Promising(E, F))
    && queue <= E && (forall x :: x in queue ==> x.from in V)
    && Closed(E, prior) && Frontier(E, cur, V, queue) && Rooted(E, cur, root, F0, F)
  }

  lemma PrimAdds(E: set<Edge>, nodes: set<int>, prior: set<int>, cur: set<int>, V: set<int>, queue: set<Edge>,
                 F0: set<Edge>, F: set<Edge>, root: int, x: Edge, out: set<Edge>)
    requires PrimState(E, nodes, prior, cur, V, queue, F0, F, root)
    requires Lightest(queue, x) && x.to !in V && x.to in nodes && out == set e | e in E && e.from == x.to
    ensures PrimState(E, nodes, prior, cur + {x.to}, V + {x.to}, queue - {x} + out, F0, F + {x}, root)
  {
    PrimChoice(E, prior, cur, V, queue, F, x);
    RootedGrows(E, cur, root, F0, F, x);
    hide Acyclic, Promising, Symmetrical, Rooted;
  }

  lemma PrimStarts(E: set<Edge>, nodes: set<int>, prior: set<int>, F: set<Edge>, root: int, out: set<Edge>)
    requires prior <= nodes && F <= E && Inside(F, prior) && Acyclic(F) && (Symmetrical(E) ==> Promising(E, F))
    requires Closed(E, prior) && root in nodes && out == set e | e in E && e.from == root
    ensures PrimState(E, nodes, prior, {root} - prior, prior + {root}, out, F, F, root)
  {
    Reflexive(F, root);
    ReachesSelf(E, root);
    hide Acyclic, Promising, Symmetrical, Reaches, Connected;
  }

  lemma EndsAreNodes(matrix: seq<Row>, e: Edge)
    requires e in AllEdges(matrix, |matrix|)
    ensures e.from in Ends(matrix, |matrix|) && e.to in Ends(matrix, |matrix|)
  {
    var i :| 0 <= i < |matrix| && e == EdgeAt(matrix, i);
  }

  lemma QueuesAllLeaving(matrix: seq<Row>, v: int, edges: seq<Edge>)
    requires edges == Leaving(matrix, |matrix|, v)
    ensures (set e | e in edges) == set e | e in AllEdges(matrix, |matrix|) && e.from == v
  {
    forall e {
      LeavingIsExact(matrix, |matrix|, v, e);
    }
  }

  /** One pass of the outer loop: unlocks everything the node reaches and drains the queue. */
  method PrimFrom(graph: Graph, ghost matrix: seq<Row>, node: int, unlocked0: set<int>, result0: set<Edge>)
      returns (unlocked: set<int>, result: set<Edge>, ghost cur: set<int>)
    requires graph.Describes(matrix, |matrix|) && node in graph.nodes
    requires unlocked0 <= graph.nodes.Keys && result0 <= graph.edges && Inside(result0, unlocked0)
    requires Acyclic(result0) && (Symmetrical(graph.edges) ==> Promising(graph.edges, result0))
    requires Closed(graph.edges, unlocked0)
    ensures PrimState(graph.edges, graph.nodes.Keys, unlocked0, cur, unlocked, {}, result0, result, node)
    ensures node in unlocked
  {
    ghost var E, nodes := graph.edges, graph.nodes.Keys;
    cur := {node} - unlocked0;
    unlocked, result := unlocked0 + {node}, result0;
    var queue := set e | e in graph.nodes[node].edges;
    QueuesAllLeaving(matrix, node, graph.nodes[node].edges);
    PrimStarts(E, nodes, unlocked0, result, node, queue);
    while queue != {}
      invariant node in unlocked && PrimState(E, nodes, unlocked0, cur, unlocked, queue, result0, result, node)
      decreases nodes - unlocked, queue
    {
      ghost var _ := LightestExists(queue);
      var poll :| poll in queue && Lightest(queue, poll);
      var to := poll.to;
      EndsAreNodes(matrix, poll);
      if to !in unlocked {
        var out := set e | e in graph.nodes[to].edges;
        QueuesAllLeaving(matrix, to, graph.nodes[to].edges);
        PrimAdds(E, nodes, unlocked0, cur, unlocked, queue, result0, result, node, poll, out);
        unlocked, result, queue := unlocked + {to}, result + {poll}, queue - {poll} + out;
        cur := cur + {to};
      } else {
        queue := queue - {poll};
      }
    }
  }

  // ----- all passes

  /** pass says from which start every visited node was reached first; F joins it to that start. */
  ghost predicate Passed(E: set<Edge>, order: seq<int>, i: nat, V: set<int>, F: set<Edge>, pass: map<int, nat>) {
    && i <= |order| && pass.Keys == V && (forall k :: 0 <= k < i ==> order[k] in V)
    && (forall x :: x in V ==> pass[x] < i && IsFirst(E, order, x, pass[x]) && Connected(F, order[pass[x]], x))
    && forall f :: f in F ==> f.from in V && f.to in V && pass[f.from] == pass[f.to]
  }

  ghost function Extended(pass: map<int, nat>, prior: set<int>, V: set<int>, i: nat): map<int, nat>
    requires pass.Keys == prior
  {
    map x | x in V :: if x in prior then pass[x] else i
  }

  lemma PassAdds(E: set<Edge>, nodes: set<int>, order: seq<int>, i: nat, prior: set<int>, cur: set<int>, V: set<int>,
                 F0: set<Edge>, F: set<Edge>, pass: map<int, nat>, pass': map<int, nat>)
    requires i < |order| && Passed(E, order, i, prior, F0, pass) && pass' == Extended(pass, prior, V, i)
    requires PrimState(E, nodes, prior, cur, V, {}, F0, F, order[i]) && order[i] in V
    ensures Passed(E, order, i + 1, V, F, pass')
  {
    hide IsFirst, Connected, Acyclic, Promising, Symmetrical;
    forall x | x in V ensures pass'[x] < i + 1 && IsFirst(E, order, x, pass'[x]) && Connected(F, order[pass'[x]], x) {
      if x in prior {
        Monotone(F0, F, order[pass[x]], x);
      } else {
        NewInPass(E, nodes, order, i, prior, cur, V, F0, F, pass, x);
      }
    }
    EdgesInPass(E, nodes, order, i, prior, cur, V, F0, F, pass, pass');
    hide PrimState, Reaches;
  }

  lemma NewInPass(E: set<Edge>, nodes: set<int>, order: seq<int>, i: nat, prior: set<int>, cur: set<int>, V: set<int>,
                  F0: set<Edge>, F: set<Edge>, pass: map<int, nat>, x: int)
    requires i < |order| && Passed(E, order, i, prior, F0, pass) && x in cur
    requires PrimState(E, nodes, prior, cur, V, {}, F0, F, order[i])
    ensures IsFirst(E, order, x, i) && Connected(F, order[i], x)
  {
    hide Reaches, Connected, Acyclic, Promising, Symmetrical;
    forall j | 0 <= j < i ensures !Reaches(E, order[j], x) {
      if Reaches(E, order[j], x) {
        ClosedHolds(E, prior, order[j], x);
      }
    }
  }

  lemma EdgesInPass(E: set<Edge>, nodes: set<int>, order: seq<int>, i: nat, prior: set<int>, cur: set<int>, V: set<int>,
                    F0: set<Edge>, F: set<Edge>, pass: map<int, nat>, pass': map<int, nat>)
    requires i < |order| && Passed(E, order, i, prior, F0, pass) && pass' == Extended(pass, prior, V, i)
    requires PrimState(E, nodes, prior, cur, V, {}, F0, F, order[i])
    ensures forall f :: f in F ==> f.from in V && f.to in V && pass'[f.from] == pass'[f.to]
  {
    hide Reaches, Connected, Acyclic, Promising, Symmetrical, IsFirst;
    forall f | f in F ensures f.from in V && f.to in V && pass'[f.from] == pass'[f.to] {
      if f in F0 {
        assert f.from in prior && f.to in prior;
      } else {
        assert f.from in cur && f.to in cur;
      }
    }
  }

  lemma FirstIsOne(E: set<Edge>, order: seq<int>, x: int, j: int, k: int)
    requires IsFirst(E, order, x, j) && IsFirst(E, order, x, k)
    ensures j == k
  {
  }

  lemma {:induction false} WalkKeepsPass(F: set<Edge>, pass: map<int, nat>, u: int, p: seq<Edge>, v: int)
    requires Walk(F, u, p, v) && u in pass
    requires forall f :: f in F ==> f.from in pass && f.to in pass && pass[f.from] == pass[f.to]
    ensures v in pass && pass[v] == pass[u]
    decreases |p|
  {
    if p != [] {
      if p[0].from == u && Walk(F, p[0].to, p[1..], v) {
        WalkKeepsPass(F, pass, p[0].to, p[1..], v);
      } else {
        WalkKeepsPass(F, pass, p[0].from, p[1..], v);
      }
    }
  }

  lemma JoinedIffSamePass(E: set<Edge>, order: seq<int>, i: nat, V: set<int>, F: set<Edge>, pass: map<int, nat>,
                          u: int, v: int)
    requires Passed(E, order, i, V, F, pass) && u in V && v in V
    ensures Connected(F, u, v) <==> pass[u] == pass[v]
  {
    if Connected(F, u, v) {
      var p :| Walk(F, u, p, v);
      WalkKeepsPass(F, pass, u, p, v);
    }
    if pass[u] == pass[v] {
      Symmetric(F, order[pass[u]], u);
      Transitive(F, u, order[pass[u]], v);
    }
  }

  /** The forest spans the graph if and only if no edge has its ends in different passes. */
  lemma SpansIffSamePass(E: set<Edge>, order: seq<int>, i: nat, V: set<int>, F: set<Edge>, pass: map<int, nat>)
    requires Passed(E, order, i, V, F, pass) && F <= E && Acyclic(F)
    requires forall e :: e in E ==> e.from in V && e.to in V
    ensures SpanningForest(E, F) <==> SamePass(E, order)
  {
    if SpanningForest(E, F) {
      forall e, k | e in E ensures IsFirst(E, order, e.from, k) <==> IsFirst(E, order, e.to, k) {
        EdgeConnects(E, e);
        JoinedIffSamePass(E, order, i, V, F, pass, e.from, e.to);
        OnlyFirst(E, order, i, V, F, pass, e.from, k);
        OnlyFirst(E, order, i, V, F, pass, e.to, k);
      }
    }
    if SamePass(E, order) {
      forall e | e in E ensures Connected(F, e.from, e.to) {
        JoinedIffSamePass(E, order, i, V, F, pass, e.from, e.to);
        OnlyFirst(E, order, i, V, F, pass, e.to, pass[e.from]);
      }
      JoiningAllSpans(E, F);
    }
  }

  lemma OnlyFirst(E: set<Edge>, order: seq<int>, i: nat, V: set<int>, F: set<Edge>, pass: map<int, nat>, x: int, k: int)
    requires Passed(E, order, i, V, F, pass) && x in V
    ensures IsFirst(E, order, x, k) <==> k == pass[x]
  {
    hide Reaches, Connected;
    if IsFirst(E, order, x, k) {
      FirstIsOne(E, order, x, k, pass[x]);
    }
  }

  /** A twin leads back. */
  lemma SymmetricalIsMutual(E: set<Edge>)
    requires Symmetrical(E)
    ensures Mutual(E)
  {
    forall e | e in E ensures Reaches(E, e.to, e.from) {
      assert HasTwin(E, e);
      var d :| d in E && IsTwin(e, d);
      ReachesAlong(E, d);
    }
  }

  /**
   Starts over from every node, in the given order.  On any directed graph the result is a forest;
   it spans the graph if and only if the ends of every edge are first reached from the same start,
   and on a symmetric graph it is a minimum spanning forest.
  */
  method PrimMST(graph: Graph, order: seq<int>, ghost matrix: seq<Row>) returns (result: set<Edge>)
    requires graph.Describes(matrix, |matrix|) && Visits(order, graph.nodes.Keys)
    ensures result <= graph.edges && Acyclic(result)
    ensures SpanningForest(graph.edges, result) <==> SamePass(graph.edges, order)
    ensures Symmetrical(graph.edges) ==> MinimumSpanningForest(graph.edges, result)
  {
    ghost var E, nodes := graph.edges, graph.nodes.Keys;
    var unlocked: set<int> := {};
    ghost var pass: map<int, nat> := map[];
    result := {};
    EmptyIsPromising(E);
    assert Passed(E, order, 0, {}, {}, pass);
    hide PrimState, Acyclic, IsFirst, Connected, Reaches, Promising, Symmetrical, SamePass, SpanningForest;
    for i := 0 to |order|
      invariant unlocked <= nodes && result <= E && Inside(result, unlocked) && Acyclic(result)
      invariant Symmetrical(E) ==> Promising(E, result)
      invariant Closed(E, unlocked) && Passed(E, order, i, unlocked, result, pass)
    {
      ghost var prior, before, cur := unlocked, result, {};
      unlocked, result, cur := PrimFrom(graph, matrix, order[i], unlocked, result);
      ghost var longer := Extended(pass, prior, unlocked, i);
      PassAdds(E, nodes, order, i, prior, cur, unlocked, before, result, pass, longer);
      pass := longer;
      PassEnds(E, nodes, prior, cur, unlocked, before, result, order[i]);
    }
    AllVisited(E, nodes, order, unlocked, result, pass);
    forall e | e in E ensures e.from in unlocked && e.to in unlocked {
      EndsAreNodes(matrix, e);
    }
    SpansIffSamePass(E, order, |order|, unlocked, result, pass);
    if Symmetrical(E) {
      SymmetricalIsMutual(E);
      MutualIsSamePass(E, order);
      PromisingIsMinimum(E, result);
    }
  }

  lemma PassEnds(E: set<Edge>, nodes: set<int>, prior: set<int>, cur: set<int>, V: set<int>, F0: set<Edge>,
                 F: set<Edge>, root: int)
    requires PrimState(E, nodes, prior, cur, V, {}, F0, F, root)
    ensures V <= nodes && F <= E && Inside(F, V) && Acyclic(F) && (Symmetrical(E) ==> Promising(E, F)) && Closed(E, V)
  {
    hide Acyclic, Promising, Symmetrical, Rooted;
  }

  lemma AllVisited(E: set<Edge>, nodes: set<int>, order: seq<int>, V: set<int>, F: set<Edge>, pass: map<int, nat>)
    requires Passed(E, order, |order|, V, F, pass) && Visits(order, nodes)
    ensures nodes <= V
  {
    forall x | x in nodes ensures x in V {
      assert x in order;
      var k :| 0 <= k < |order| && order[k] == x;
    }
  }

  /** The smallest failure: one edge from 2 to 1, walked from node 1. */
  lemma OneWayEdge(matrix: seq<Row>, E: set<Edge>)
    requires |matrix| == 1 && matrix[0].from == 2 && matrix[0].to == 1 && E == AllEdges(matrix, 1)
    ensures Visits([1, 2], Ends(matrix, 1)) && !SamePass(E, [1, 2])
    ensures Visits([2, 1], Ends(matrix, 1)) && SamePass(E, [2, 1])
  {
    var e := EdgeAt(matrix, 0);
    assert e in E && forall d :: d in E ==> d == e;
    assert Closed(E, {1});
    if Reaches(E, 1, 2) {
      ClosedHolds(E, {1}, 1, 2);
    }
    ReachesSelf(E, 1);
    ReachesSelf(E, 2);
    ReachesAlong(E, e);
    hide Reaches;
    assert IsFirst(E, [1, 2], 1, 0) && !IsFirst(E, [1, 2], 2, 0);
    assert IsFirst(E, [2, 1], 1, 0) && IsFirst(E, [2, 1], 2, 0);
    forall k ensures IsFirst(E, [2, 1], 2, k) <==> IsFirst(E, [2, 1], 1, k) {
    }
  }

  /** On symmetric graphs the two algorithms agree on the total weight, whatever the ties and the order. */
  method KruskalAndPrimAgree(graph: Graph, order: seq<int>, ghost matrix: seq<Row>) returns (k: set<Edge>, p: set<Edge>)
    requires graph.Describes(matrix, |matrix|) && Visits(order, graph.nodes.Keys) && Symmetrical(graph.edges)
    ensures Weight(k) == Weight(p)
  {
    forall e | e in graph.edges {
      EndsAreNodes(matrix, e);
    }
    k := KruskalMST(graph);
    p := PrimMST(graph, order, matrix);
    MinimumIsUnique(graph.edges, k, p);
  }
}
