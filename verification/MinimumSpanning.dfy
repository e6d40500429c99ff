/** Lightest edges, and Kruskal's algorithm over union-find. */
module MinimumSpanning {
  import opened DisjointSets
  import opened SpanningForests
  import opened Components
  import opened Graphs

  /** A least element of the queue; ties are broken arbitrarily. */
  predicate Lightest(queue: set<Edge>, e: Edge) {
    e in queue && forall g :: g in queue ==> e.weight <= g.weight
  }

  lemma {:induction false} LightestExists(queue: set<Edge>) returns (e: Edge)
    requires queue != {}
    ensures Lightest(queue, e)
    decreases queue
  {
    e :| e in queue;
    if exists g :: g in queue && g.weight < e.weight {
      var g :| g in queue && g.weight < e.weight;
      assert g in queue - {e};
      var rest := LightestExists(queue - {e});
      assert forall h :: h in queue ==> h == e || h in queue - {e};
      e := rest;
    }
  }

  // ----- Kruskal

  /** Every edge already polled joins points the chosen edges connect. */
  ghost predicate PolledJoined(E: set<Edge>, queue: set<Edge>, F: set<Edge>) {
    forall d :: d in E && d !in queue ==> Connected(F, d.from, d.to)
  }

  lemma KruskalCut(E: set<Edge>, queue: set<Edge>, F: set<Edge>, e: Edge, T: set<Edge>)
    requires PolledJoined(E, queue, F) && Lightest(queue, e) && !Connected(F, e.from, e.to)
    requires SpanningForest(E, T) && F <= T
    ensures GoodCut(F, e, T, F)
  {
    forall g | g in T && g !in F ensures e.weight <= g.weight {
      if g !in queue {
        assert !Redundant(T, g);
        Monotone(F, T - {g}, g.from, g.to);
      }
    }
  }

  lemma KruskalChoice(E: set<Edge>, queue: set<Edge>, F: set<Edge>, e: Edge)
    requires F <= E && Acyclic(F) && Promising(E, F) && PolledJoined(E, queue, F)
    requires Lightest(queue, e) && e in E && !Connected(F, e.from, e.to)
    ensures Acyclic(F + {e}) && Promising(E, F + {e})
  {
    AddKeepsAcyclic(F, e);
    forall T | SpanningForest(E, T) ensures GrowsWithin(E, F + {e}, Weight(T)) {
      assert GrowsWithin(E, F, Weight(T));
      var T' :| SpanningForest(E, T') && F <= T' && Weight(T') <= Weight(T);
      KruskalCut(E, queue, F, e, T');
      GrowByCut(E, F, e, T', F);
      LooserBound(E, F + {e}, Weight(T'), Weight(T));
    }
  }

  lemma LooserBound(E: set<Edge>, F: set<Edge>, w: int, w': int)
    requires GrowsWithin(E, F, w) && w <= w'
    ensures GrowsWithin(E, F, w')
  {
    var T :| SpanningForest(E, T) && F <= T && Weight(T) <= w;
  }

  lemma StaysJoined(E: set<Edge>, queue: set<Edge>, F: set<Edge>, e: Edge, F': set<Edge>)
    requires PolledJoined(E, queue, F) && F <= F' && Connected(F', e.from, e.to)
    ensures PolledJoined(E, queue - {e}, F')
  {
    forall d | d in E && d !in queue - {e} ensures Connected(F', d.from, d.to) {
      if d != e {
        Monotone(F, F', d.from, d.to);
      }
    }
  }

  method KruskalMST(graph: Graph) returns (F: set<Edge>)
    requires forall e :: e in graph.edges ==> e.from in graph.nodes && e.to in graph.nodes
    ensures MinimumSpanningForest(graph.edges, F)
  {
    var unionSet := new UnionSet<int>();
    unionSet.MakeSets(graph.nodes.Keys);
    var queue := graph.edges;
    F := {};
    ghost var E := graph.edges;
    EmptyIsPromising(E);
    forall u, v | u in unionSet.root && v in unionSet.root
      ensures Same(unionSet.root, u, v) <==> Connected({}, u, v)
    {
      Reflexive({}, u);
    }
    while queue != {}
      invariant fresh(unionSet) && unionSet.Valid() && unionSet.root.Keys == graph.nodes.Keys
      invariant queue <= E && F <= E && Acyclic(F) && Promising(E, F)
      invariant PartitionIs(unionSet.root, F) && PolledJoined(E, queue, F)
      decreases queue
    {
      ghost var _ := LightestExists(queue);
      var poll :| poll in queue && Lightest(queue, poll);
      assert poll in E && ForestOk(unionSet.father, unionSet.root, unionSet.rank);
      var same := unionSet.IsSame(poll.from, poll.to);
      if !same {
        ghost var before := unionSet.root;
        ghost var drop, keep := unionSet.Union(poll.from, poll.to);
        UnionMatchesEdge(before, F, poll, drop, keep);
        KruskalChoice(E, queue, F, poll);
        EdgeConnects(F + {poll}, poll);
        StaysJoined(E, queue, F, poll, F + {poll});
        F := F + {poll};
      } else {
        StaysJoined(E, queue, F, poll, F);
      }
      queue := queue - {poll};
    }
    JoiningAllSpans(E, F);
    PromisingIsMinimum(E, F);
  }
}
