/**
 Undirected connectivity over sets of weighted edges, spanning forests, and the exchange
 argument behind every greedy minimum spanning forest.
*/
module SpanningForests {

  /** An edge object; id tells parallel edges of equal weight apart. */
  datatype Edge = Edge(id: nat, weight: int, from: int, to: int)

  // ----- connectivity

  ghost predicate Walk(E: set<Edge>, u: int, p: seq<Edge>, v: int)
    decreases |p|
  {
    if p == [] then u == v
    else p[0] in E && ((p[0].from == u && Walk(E, p[0].to, p[1..], v))
                       || (p[0].to == u && Walk(E, p[0].from, p[1..], v)))
  }

  ghost predicate Connected(E: set<Edge>, u: int, v: int) {
    exists p :: Walk(E, u, p, v)
  }

  lemma Reflexive(E: set<Edge>, u: int)
    ensures Connected(E, u, u)
  {
    assert Walk(E, u, [], u);
  }

  lemma EdgeConnects(E: set<Edge>, e: Edge)
    requires e in E
    ensures Connected(E, e.from, e.to) && Connected(E, e.to, e.from)
  {
    assert Walk(E, e.to, [e][1..], e.to) && Walk(E, e.from, [e][1..], e.from);
    assert Walk(E, e.from, [e], e.to) && Walk(E, e.to, [e], e.from);
  }

  lemma {:induction false} WalkConcat(E: set<Edge>, u: int, p: seq<Edge>, v: int, q: seq<Edge>, w: int)
    requires Walk(E, u, p, v) && Walk(E, v, q, w)
    ensures Walk(E, u, p + q, w)
    decreases |p|
  {
    if p == [] {
      assert p + q == q;
    } else {
      assert (p + q)[1..] == p[1..] + q;
      if p[0].from == u && Walk(E, p[0].to, p[1..], v) {
        WalkConcat(E, p[0].to, p[1..], v, q, w);
      } else {
        WalkConcat(E, p[0].from, p[1..], v, q, w);
      }
    }
  }

  lemma Transitive(E: set<Edge>, u: int, v: int, w: int)
    requires Connected(E, u, v) && Connected(E, v, w)
    ensures Connected(E, u, w)
  {
    var p :| Walk(E, u, p, v);
    var q :| Walk(E, v, q, w);
    WalkConcat(E, u, p, v, q, w);
  }

  lemma {:induction false} WalkSymmetric(E: set<Edge>, u: int, p: seq<Edge>, v: int)
    requires Walk(E, u, p, v)
    ensures Connected(E, v, u)
    decreases |p|
  {
    if p == [] {
      Reflexive(E, u);
    } else {
      EdgeConnects(E, p[0]);
      if p[0].from == u && Walk(E, p[0].to, p[1..], v) {
        WalkSymmetric(E, p[0].to, p[1..], v);
        Transitive(E, v, p[0].to, u);
      } else {
        WalkSymmetric(E, p[0].from, p[1..], v);
        Transitive(E, v, p[0].from, u);
      }
    }
  }

  lemma Symmetric(E: set<Edge>, u: int, v: int)
    requires Connected(E, u, v)
    ensures Connected(E, v, u)
  {
    var p :| Walk(E, u, p, v);
    WalkSymmetric(E, u, p, v);
  }

  /** If every edge of E joins two connected points of F, so does every walk of E. */
  lemma {:induction false} WalkSimulated(E: set<Edge>, F: set<Edge>, u: int, p: seq<Edge>, v: int)
    requires Walk(E, u, p, v) && forall e :: e in E ==> Connected(F, e.from, e.to)
    ensures Connected(F, u, v)
    decreases |p|
  {
    if p == [] {
      Reflexive(F, u);
    } else {
      if p[0].from == u && Walk(E, p[0].to, p[1..], v) {
        WalkSimulated(E, F, p[0].to, p[1..], v);
        Transitive(F, u, p[0].to, v);
      } else {
        Symmetric(F, p[0].from, p[0].to);
        WalkSimulated(E, F, p[0].from, p[1..], v);
        Transitive(F, u, p[0].from, v);
      }
    }
  }

  lemma Simulated(E: set<Edge>, F: set<Edge>, u: int, v: int)
    requires Connected(E, u, v) && forall e :: e in E ==> Connected(F, e.from, e.to)
    ensures Connected(F, u, v)
  {
    var p :| Walk(E, u, p, v);
    WalkSimulated(E, F, u, p, v);
  }

  lemma Monotone(E: set<Edge>, F: set<Edge>, u: int, v: int)
    requires Connected(E, u, v) && E <= F
    ensures Connected(F, u, v)
  {
    forall e | e in E ensures Connected(F, e.from, e.to) {
      EdgeConnects(F, e);
    }
    Simulated(E, F, u, v);
  }

  /** u and v are joined by going to one end of f and on from the other. */
  ghost predicate Through(E: set<Edge>, f: Edge, u: int, v: int) {
    (Connected(E, u, f.from) && Connected(E, f.to, v)) || (Connected(E, u, f.to) && Connected(E, f.from, v))
  }

  lemma ThroughStep(E: set<Edge>, f: Edge, u: int, w: int, v: int)
    requires Connected(E, u, w) && Through(E, f, w, v)
    ensures Through(E, f, u, v)
  {
    if Connected(E, w, f.from) && Connected(E, f.to, v) {
      Transitive(E, u, w, f.from);
    } else {
      Transitive(E, u, w, f.to);
    }
  }

  /** Adding one edge connects only what that edge joins. */
  lemma {:induction false} WalkSplit(E: set<Edge>, f: Edge, u: int, p: seq<Edge>, v: int)
    requires Walk(E + {f}, u, p, v)
    ensures Connected(E, u, v) || Through(E, f, u, v)
    decreases |p|
  {
    if p == [] {
      Reflexive(E, u);
    } else {
      var forward := p[0].from == u && Walk(E + {f}, p[0].to, p[1..], v);
      var w := if forward then p[0].to else p[0].from;
      WalkSplit(E, f, w, p[1..], v);
      if p[0] in E {
        EdgeConnects(E, p[0]);
        if Connected(E, w, v) {
          Transitive(E, u, w, v);
        } else {
          ThroughStep(E, f, u, w, v);
        }
      } else {
        FirstCrossing(E, f, u, w, v);
      }
    }
  }

  lemma FirstCrossing(E: set<Edge>, f: Edge, u: int, w: int, v: int)
    requires (u == f.from && w == f.to) || (u == f.to && w == f.from)
    requires Connected(E, w, v) || Through(E, f, w, v)
    ensures Connected(E, u, v) || Through(E, f, u, v)
  {
    Reflexive(E, u);
  }

  lemma Split(E: set<Edge>, f: Edge, u: int, v: int)
    ensures Connected(E + {f}, u, v) <==> Connected(E, u, v) || Through(E, f, u, v)
  {
    if Connected(E + {f}, u, v) {
      var p :| Walk(E + {f}, u, p, v);
      WalkSplit(E, f, u, p, v);
    } else if Connected(E, u, v) {
      Monotone(E, E + {f}, u, v);
    } else if Through(E, f, u, v) {
      EdgeConnects(E + {f}, f);
      var a, b := f.from, f.to;
      if !(Connected(E, u, f.from) && Connected(E, f.to, v)) {
        a, b := f.to, f.from;
      }
      Monotone(E, E + {f}, u, a);
      Monotone(E, E + {f}, b, v);
      Transitive(E + {f}, u, a, b);
      Transitive(E + {f}, u, b, v);
    }
  }

  // ----- forests and weights

  /** The other edges already connect e's ends. */
  ghost predicate Redundant(F: set<Edge>, e: Edge) {
    Connected(F - {e}, e.from, e.to)
  }

  ghost predicate Acyclic(F: set<Edge>) {
    forall e {:trigger Redundant(F, e)} :: e in F ==> !Redundant(F, e)
  }

  /** F is an acyclic part of E with the same connectivity. */
  ghost predicate SpanningForest(E: set<Edge>, F: set<Edge>) {
    && F <= E && Acyclic(F)
    && forall u, v :: Connected(E, u, v) <==> Connected(F, u, v)
  }

  ghost function Weight(F: set<Edge>): int {
    if F == {} then 0 else
      var e :| e in F;
      e.weight + Weight(F - {e})
  }

  lemma {:induction false} WeightWithout(F: set<Edge>, e: Edge)
    requires e in F
    ensures Weight(F) == e.weight + Weight(F - {e})
    decreases F
  {
    var d :| d in F && Weight(F) == d.weight + Weight(F - {d});
    if d != e {
      WeightWithout(F - {d}, e);
      WeightWithout(F - {e}, d);
      assert F - {d} - {e} == F - {e} - {d};
    }
  }

  ghost predicate MinimumSpanningForest(E: set<Edge>, F: set<Edge>) {
    && SpanningForest(E, F)
    && forall T :: SpanningForest(E, T) ==> Weight(F) <= Weight(T)
  }

  /** Some spanning forest around F weighs at most w. */
  ghost predicate GrowsWithin(E: set<Edge>, F: set<Edge>, w: int) {
    exists T :: SpanningForest(E, T) && F <= T && Weight(T) <= w
  }

  /** F can still grow into a spanning forest no heavier than any given one. */
  ghost predicate Promising(E: set<Edge>, F: set<Edge>) {
    forall T {:trigger GrowsWithin(E, F, Weight(T))} :: SpanningForest(E, T) ==> GrowsWithin(E, F, Weight(T))
  }

  // ----- the exchange argument

  /** Where a set of edges shrinks from T to G and u, v fall apart, one edge of T outside G did it. */
  lemma {:induction false} Separator(T: set<Edge>, G: set<Edge>, u: int, v: int) returns (H: set<Edge>, f: Edge)
    requires G <= T && Connected(T, u, v) && !Connected(G, u, v)
    ensures f in T && f !in G && f !in H && H + {f} <= T
    ensures Connected(H + {f}, u, v) && !Connected(H, u, v)
    decreases T
  {
    assert T <= G ==> T == G;
    f :| f in T && f !in G;
    H := T - {f};
    assert H + {f} == T;
    if Connected(H, u, v) {
      H, f := Separator(H, G, u, v);
    }
  }

  /** In a forest, cutting that edge really separates u from v. */
  lemma CutSeparates(T: set<Edge>, H: set<Edge>, f: Edge, u: int, v: int)
    requires Acyclic(T) && f in T && f !in H && H + {f} <= T
    requires Connected(H + {f}, u, v) && !Connected(H, u, v)
    ensures !Connected(T - {f}, u, v)
    ensures Through(T - {f}, f, u, v)
  {
    assert !Redundant(T, f);
    Split(H, f, u, v);
    var a, b := f.from, f.to;
    if !(Connected(H, u, f.from) && Connected(H, f.to, v)) {
      a, b := f.to, f.from;
    }
    Monotone(H, T - {f}, u, a);
    Monotone(H, T - {f}, b, v);
    if Connected(T - {f}, u, v) {
      Symmetric(T - {f}, u, a);
      Symmetric(T - {f}, b, v);
      Transitive(T - {f}, a, u, v);
      Transitive(T - {f}, a, v, b);
      Symmetric(T - {f}, a, b);
    }
  }

  /** Replacing that edge by one joining u and v keeps the connectivity. */
  lemma SwapKeepsConnectivity(T: set<Edge>, f: Edge, e: Edge, x: int, y: int)
    requires f in T && Connected(T, e.from, e.to) && Through(T - {f}, f, e.from, e.to)
    ensures Connected(T, x, y) <==> Connected(T - {f} + {e}, x, y)
  {
    var R := T - {f} + {e};
    forall g | g in T ensures Connected(R, g.from, g.to) {
      if g == f {
        CutEndsRejoined(T - {f}, f, e);
      } else {
        EdgeConnects(R, g);
      }
    }
    forall g | g in R ensures Connected(T, g.from, g.to) {
      if g != e {
        EdgeConnects(T, g);
      }
    }
    if Connected(T, x, y) {
      Simulated(T, R, x, y);
    }
    if Connected(R, x, y) {
      Simulated(R, T, x, y);
    }
  }

  lemma CutEndsRejoined(C: set<Edge>, f: Edge, e: Edge)
    requires Through(C, f, e.from, e.to)
    ensures Connected(C + {e}, f.from, f.to)
  {
    Split(C, e, f.from, f.to);
    if Connected(C, e.from, f.from) && Connected(C, f.to, e.to) {
      Symmetric(C, e.from, f.from);
      Symmetric(C, f.to, e.to);
    } else {
      Symmetric(C, e.from, f.to);
      Symmetric(C, f.from, e.to);
      assert Connected(C, f.from, e.to) && Connected(C, e.from, f.to);
    }
  }

  lemma PartIsAcyclic(T: set<Edge>, C: set<Edge>)
    requires Acyclic(T) && C <= T
    ensures Acyclic(C)
  {
    forall g | g in C ensures !Redundant(C, g) {
      assert !Redundant(T, g);
      if Redundant(C, g) {
        Monotone(C - {g}, T - {g}, g.from, g.to);
      }
    }
  }

  /** An edge between two separate points closes no cycle. */
  lemma AddKeepsAcyclic(C: set<Edge>, e: Edge)
    requires Acyclic(C) && !Connected(C, e.from, e.to)
    ensures e !in C && Acyclic(C + {e})
  {
    if e in C {
      EdgeConnects(C, e);
    }
    forall g | g in C + {e} ensures !Redundant(C + {e}, g) {
      if g == e {
        assert C + {e} - {e} == C;
      } else {
        assert !Redundant(C, g);
        assert C + {e} - {g} == (C - {g}) + {e};
        Split(C - {g}, e, g.from, g.to);
        if Through(C - {g}, e, g.from, g.to) {
          DetourConnects(C, g, e);
        }
      }
    }
  }

  lemma DetourConnects(C: set<Edge>, g: Edge, e: Edge)
    requires g in C && Through(C - {g}, e, g.from, g.to)
    ensures Connected(C, e.from, e.to)
  {
    EdgeConnects(C, g);
    if Connected(C - {g}, g.from, e.from) && Connected(C - {g}, e.to, g.to) {
      Monotone(C - {g}, C, g.from, e.from);
      Monotone(C - {g}, C, e.to, g.to);
      Symmetric(C, g.from, e.from);
      Symmetric(C, e.to, g.to);
      Transitive(C, e.from, g.from, g.to);
      Transitive(C, e.from, g.to, e.to);
    } else {
      Monotone(C - {g}, C, g.from, e.to);
      Monotone(C - {g}, C, e.from, g.to);
      Transitive(C, e.from, g.to, g.from);
      Transitive(C, e.from, g.from, e.to);
    }
  }

  /**
   The exchange: T spans, G is a part of it that leaves e's ends apart, and e is no heavier
   than any edge of T outside G.  Then e can replace one of those at no cost.
  */
  lemma Exchange(E: set<Edge>, T: set<Edge>, G: set<Edge>, e: Edge) returns (T': set<Edge>)
    requires SpanningForest(E, T) && e in E && e !in T && G <= T && !Connected(G, e.from, e.to)
    requires forall g :: g in T && g !in G ==> e.weight <= g.weight
    ensures SpanningForest(E, T') && Weight(T') <= Weight(T) && G + {e} <= T'
  {
    EdgeConnects(E, e);
    var H, f := Separator(T, G, e.from, e.to);
    CutSeparates(T, H, f, e.from, e.to);
    PartIsAcyclic(T, T - {f});
    AddKeepsAcyclic(T - {f}, e);
    T' := T - {f} + {e};
    forall x, y ensures Connected(E, x, y) <==> Connected(T', x, y) {
      SwapKeepsConnectivity(T, f, e, x, y);
    }
    WeightWithout(T, f);
    WeightWithout(T', e);
    assert T' - {e} == T - {f};
  }

  lemma NoForestAround(E: set<Edge>, F: set<Edge>, T: set<Edge>)
    requires SpanningForest(E, F) && SpanningForest(E, T) && F <= T
    ensures F == T
  {
    forall g | g in T ensures g in F {
      if g !in F {
        assert !Redundant(T, g);
        EdgeConnects(E, g);
        Monotone(F, T - {g}, g.from, g.to);
      }
    }
  }

  lemma PromisingBeats(E: set<Edge>, F: set<Edge>, T: set<Edge>)
    requires SpanningForest(E, F) && Promising(E, F) && SpanningForest(E, T)
    ensures Weight(F) <= Weight(T)
  {
    assert GrowsWithin(E, F, Weight(T));
    var T' :| SpanningForest(E, T') && F <= T' && Weight(T') <= Weight(T);
    NoForestAround(E, F, T');
  }

  /** A set that spans E and is promising and acyclic is a minimum spanning forest. */
  lemma PromisingIsMinimum(E: set<Edge>, F: set<Edge>)
    requires SpanningForest(E, F) && Promising(E, F)
    ensures MinimumSpanningForest(E, F)
  {
    forall T | SpanningForest(E, T) ensures Weight(F) <= Weight(T) {
      PromisingBeats(E, F, T);
    }
  }

  lemma EmptyIsPromising(E: set<Edge>)
    ensures Acyclic({}) && Promising(E, {})
    ensures forall u, v :: Connected({}, u, v) ==> u == v
  {
    forall T | SpanningForest(E, T) ensures GrowsWithin(E, {}, Weight(T)) {
      assert {} <= T;
    }
  }

  /** Once F joins the ends of every edge, it has all the connectivity there is. */
  lemma JoiningAllSpans(E: set<Edge>, F: set<Edge>)
    requires F <= E && Acyclic(F) && forall e :: e in E ==> Connected(F, e.from, e.to)
    ensures SpanningForest(E, F)
  {
    forall u, v ensures Connected(E, u, v) <==> Connected(F, u, v) {
      if Connected(E, u, v) {
        Simulated(E, F, u, v);
      }
      if Connected(F, u, v) {
        Monotone(F, E, u, v);
      }
    }
  }

  /**
   One greedy choice: G keeps e's ends apart in the forest F grows into, and e is no heavier
   than what that forest has outside G.
  */
  ghost predicate GoodCut(F: set<Edge>, e: Edge, T: set<Edge>, G: set<Edge>) {
    && F <= G <= T && !Connected(G, e.from, e.to)
    && forall g :: g in T && g !in G ==> e.weight <= g.weight
  }

  lemma GrowByCut(E: set<Edge>, F: set<Edge>, e: Edge, T: set<Edge>, G: set<Edge>)
    requires SpanningForest(E, T) && e in E && F <= T && (e !in T ==> GoodCut(F, e, T, G))
    ensures GrowsWithin(E, F + {e}, Weight(T))
  {
    if e in T {
      assert F + {e} <= T;
    } else {
      var T' := Exchange(E, T, G, e);
      assert F + {e} <= T';
    }
  }

  /** All minimum spanning forests weigh the same. */
  lemma MinimumIsUnique(E: set<Edge>, F: set<Edge>, G: set<Edge>)
    requires MinimumSpanningForest(E, F) && MinimumSpanningForest(E, G)
    ensures Weight(F) == Weight(G)
  {
  }
}
