/** Connected components: what it means to count them, and how union-find classes stand for them. */
module Components {
  import opened DisjointSets
  import opened SpanningForests

  /** R holds exactly one point of every component of (V, E). */
  ghost predicate Represents(V: set<int>, E: set<Edge>, R: set<int>) {
    && R <= V
    && (forall x :: x in V ==> Reaches(E, R, x))
    && (forall r, s {:trigger Connected(E, r, s)} :: r in R && s in R && Connected(E, r, s) ==> r == s)
  }

  ghost predicate Reaches(E: set<Edge>, R: set<int>, x: int) {
    exists r :: r in R && Connected(E, x, r)
  }

  /** The graph with points V and edges E has n components. */
  ghost predicate HasComponents(V: set<int>, E: set<Edge>, n: int) {
    exists R :: Represents(V, E, R) && |R| == n
  }

  ghost function Target(E: set<Edge>, S: set<int>, x: int): int {
    if Reaches(E, S, x) then var r :| r in S && Connected(E, x, r); r else x
  }

  lemma TargetIs(V: set<int>, E: set<Edge>, S: set<int>, x: int)
    requires Represents(V, E, S) && x in V
    ensures Target(E, S, x) in S && Connected(E, x, Target(E, S, x))
  {
    assert Reaches(E, S, x);
  }

  lemma SameTarget(V: set<int>, E: set<Edge>, R: set<int>, S: set<int>, a: int, b: int)
    requires Represents(V, E, R) && Represents(V, E, S) && a in R && b in R && Target(E, S, a) == Target(E, S, b)
    ensures a == b
  {
    hide Target, Connected;
    TargetIs(V, E, S, a);
    TargetIs(V, E, S, b);
    Symmetric(E, b, Target(E, S, b));
    Transitive(E, a, Target(E, S, a), b);
  }

  lemma {:induction false} Fewer(V: set<int>, E: set<Edge>, R: set<int>, S: set<int>, A: set<int>, B: set<int>)
    requires Represents(V, E, R) && Represents(V, E, S) && A <= R
    requires forall a {:trigger Target(E, S, a)} :: a in A ==> Target(E, S, a) in B
    ensures |A| <= |B|
    decreases A
  {
    hide Represents, Target;
    if A != {} {
      assert (forall x :: x !in A) ==> A == {};
      var a :| a in A;
      var rest := A - {a};
      forall b | b in rest ensures Target(E, S, b) in B - {Target(E, S, a)} {
        if Target(E, S, b) == Target(E, S, a) {
          SameTarget(V, E, R, S, a, b);
        }
      }
      Fewer(V, E, R, S, rest, B - {Target(E, S, a)});
    }
  }

  lemma NoMoreThan(V: set<int>, E: set<Edge>, R: set<int>, S: set<int>)
    requires Represents(V, E, R) && Represents(V, E, S)
    ensures |R| <= |S|
  {
    hide Target, Connected, Reaches;
    forall a | a in R ensures Target(E, S, a) in S {
      TargetIs(V, E, S, a);
    }
    Fewer(V, E, R, S, R, S);
  }

  lemma CountIsUnique(V: set<int>, E: set<Edge>, m: int, n: int)
    requires HasComponents(V, E, m) && HasComponents(V, E, n)
    ensures m == n
  {
    var R :| Represents(V, E, R) && |R| == m;
    var S :| Represents(V, E, S) && |S| == n;
    NoMoreThan(V, E, R, S);
    NoMoreThan(V, E, S, R);
  }

  // ----- union-find classes

  /** The classes of the union-find are the components of F. */
  ghost predicate PartitionIs(root: map<int, int>, F: set<Edge>) {
    forall u, v {:trigger Same(root, u, v)} {:trigger Connected(F, u, v)} ::
      u in root && v in root ==> (Same(root, u, v) <==> Connected(F, u, v))
  }

  lemma UnionMatchesEdge(root: map<int, int>, F: set<Edge>, e: Edge, drop: int, keep: int)
    requires PartitionIs(root, F) && e.from in root && e.to in root && {drop, keep} == {root[e.from], root[e.to]}
    ensures PartitionIs(Merge(root, drop, keep), F + {e})
  {
    forall u, v | u in root && v in root
      ensures Same(Merge(root, drop, keep), u, v) <==> Connected(F + {e}, u, v)
    {
      Split(F, e, u, v);
      MergeIsUnion(root, e.from, e.to, drop, keep, u, v);
    }
  }

  ghost function Roots(root: map<int, int>): set<int> {
    set x | x in root && root[x] == x
  }

  /** So the number of representatives is the number of components. */
  lemma RootsAreComponents(root: map<int, int>, F: set<Edge>)
    requires PartitionIs(root, F) && forall x :: x in root ==> root[x] in root && root[root[x]] == root[x]
    ensures HasComponents(root.Keys, F, |Roots(root)|)
  {
    forall x | x in root ensures Reaches(F, Roots(root), x) {
      assert Same(root, x, root[x]);
    }
    assert Represents(root.Keys, F, Roots(root));
  }

  ghost predicate SameConnections(E: set<Edge>, F: set<Edge>) {
    forall u, v {:trigger Connected(E, u, v)} {:trigger Connected(F, u, v)} ::
      Connected(E, u, v) <==> Connected(F, u, v)
  }

  /** Chosen edges that join the ends of all edges connect as much as all of them. */
  lemma EnoughEdges(E: set<Edge>, F: set<Edge>)
    requires F <= E && forall e :: e in E ==> Connected(F, e.from, e.to)
    ensures SameConnections(E, F)
  {
    forall u, v ensures Connected(E, u, v) <==> Connected(F, u, v) {
      if Connected(E, u, v) {
        Simulated(E, F, u, v);
      } else if Connected(F, u, v) {
        Monotone(F, E, u, v);
      }
    }
  }

  lemma SameCount(V: set<int>, E: set<Edge>, F: set<Edge>, n: int)
    requires SameConnections(E, F) && HasComponents(V, F, n)
    ensures HasComponents(V, E, n)
  {
    var R :| Represents(V, F, R) && |R| == n;
    forall x | x in V ensures Reaches(E, R, x) {
      assert Reaches(F, R, x);
    }
    assert Represents(V, E, R);
  }

  /** A point no edge touches is alone. */
  lemma {:induction false} Isolated(E: set<Edge>, x: int, p: seq<Edge>, y: int)
    requires Walk(E, x, p, y) && forall e :: e in E ==> e.from != x && e.to != x
    ensures x == y
  {
  }

  lemma NewPoint(root: map<int, int>, F: set<Edge>, x: int)
    requires PartitionIs(root, F) && x !in root && (forall y :: y in root ==> root[y] in root)
    requires forall e :: e in F ==> e.from in root && e.to in root
    ensures PartitionIs(root[x := x], F)
  {
    forall u, v | u in root[x := x] && v in root[x := x] ensures Same(root[x := x], u, v) <==> Connected(F, u, v) {
      if u == x || v == x {
        if Connected(F, u, v) {
          if u == x {
            var p :| Walk(F, u, p, v);
            Isolated(F, u, p, v);
          } else {
            Symmetric(F, u, v);
            var p :| Walk(F, v, p, u);
            Isolated(F, v, p, u);
          }
        } else if u == v {
          Reflexive(F, u);
        }
      }
    }
  }
}
