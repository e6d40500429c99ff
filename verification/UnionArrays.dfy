/**
 Union-find in arrays: a parent and a size per element, a help array in place of a stack, and
 a running number of sets.  Elements are absent until they are added; their size is then 0.
*/
module UnionArrays {
  import opened DisjointSets
  import opened SpanningForests
  import opened Components
  import opened Grids

  // ----- the arrays as maps

  ghost function Fathers(parent: seq<int>, root: map<int, int>): map<int, int> {
    map x | x in root && 0 <= x < |parent| :: parent[x]
  }

  /** The sizes that matter are the representatives'. */
  ghost function RootSizes(sizes: seq<int>, root: map<int, int>): map<int, int> {
    map r | r in root && root[r] == r && 0 <= r < |sizes| :: sizes[r]
  }

  ghost predicate Present(sizes: seq<int>, root: map<int, int>) {
    && (forall x {:trigger x in root} :: x in root ==> 0 <= x < |sizes|)
    && forall x :: 0 <= x < |sizes| ==> (sizes[x] != 0 <==> x in root)
  }

  ghost predicate Ok(parent: seq<int>, sizes: seq<int>, root: map<int, int>, rank: map<int, nat>) {
    && |parent| == |sizes| && Present(sizes, root)
    && ForestOk(Fathers(parent, root), root, rank) && SizesOk(RootSizes(sizes, root), root, rank)
  }

  lemma ParentIs(parent: seq<int>, sizes: seq<int>, root: map<int, int>, rank: map<int, nat>, x: int)
    requires Ok(parent, sizes, root, rank) && x in root
    ensures 0 <= x < |parent| && parent[x] in root && root[x] in root && root[parent[x]] == root[x]
    ensures root[root[x]] == root[x] && (parent[x] == x <==> root[x] == x)
    ensures x in rank && parent[x] in rank && (parent[x] != x ==> rank[x] < rank[parent[x]])
  {
    assert NodeOk(Fathers(parent, root), root, rank, x);
  }

  /** Ranks are below the number of elements: the help array is long enough. */
  lemma RankFits(parent: seq<int>, sizes: seq<int>, root: map<int, int>, rank: map<int, nat>, x: int)
    requires Ok(parent, sizes, root, rank) && x in root
    ensures x in rank && rank[x] < |parent|
  {
    var r := root[x];
    assert NodeOk(Fathers(parent, root), root, rank, x);
    assert SizeOk(RootSizes(sizes, root), root, rank, r);
    Pow2Exceeds(rank[r]);
    hide ForestOk, SizesOk, Pow2, NodeOk, SizeOk;
    InRange(Class(root, r), |parent|);
  }

  lemma {:induction false} InRange(s: set<int>, n: nat)
    requires forall x :: x in s ==> 0 <= x < n
    ensures |s| <= n
  {
    if n == 0 {
      assert forall x :: x !in s;
      assert s == {};
    } else {
      InRange(s - {n - 1}, n - 1);
      assert n - 1 !in s ==> s - {n - 1} == s;
    }
  }

  lemma CompressOk(parent: seq<int>, sizes: seq<int>, root: map<int, int>, rank: map<int, nat>, x: int)
    requires Ok(parent, sizes, root, rank) && x in root && 0 <= x < |parent|
    ensures Ok(parent[x := root[x]], sizes, root, rank)
  {
    ParentIs(parent, sizes, root, rank, x);
    var fathers := Fathers(parent, root);
    if parent[x] == x {
      assert parent[x := root[x]] == parent;
    } else {
      CompressKeepsForest(fathers, root, rank, x);
      assert Fathers(parent[x := root[x]], root) == fathers[x := root[x]];
    }
  }

  lemma RootIsMerged(root: map<int, int>, drop: int, keep: int)
    requires drop in root && keep in root && drop != keep && root[drop] == drop && root[keep] == keep
    ensures Merge(root, drop, keep).Keys == root.Keys
    ensures forall x :: x in root ==> (Merge(root, drop, keep)[x] == x <==> root[x] == x && x != drop)
    ensures Roots(Merge(root, drop, keep)) == Roots(root) - {drop}
    ensures |Roots(Merge(root, drop, keep))| == |Roots(root)| - 1
  {
    assert Roots(Merge(root, drop, keep)) == Roots(root) - {drop};
  }

  lemma LinkPresent(sizes: seq<int>, root: map<int, int>, drop: int, keep: int, total: int)
    requires Present(sizes, root) && keep in root && total > 0
    ensures 0 <= keep < |sizes| && Present(sizes[keep := total], Merge(root, drop, keep))
  {
  }

  lemma LinkOk(parent: seq<int>, sizes: seq<int>, root: map<int, int>, rank: map<int, nat>, drop: int, keep: int)
    requires Ok(parent, sizes, root, rank) && drop in root && keep in root && drop != keep
    requires root[drop] == drop && root[keep] == keep && drop in rank && keep in rank
    requires 0 <= drop < |parent| && 0 <= keep < |sizes| && drop < |sizes| && sizes[drop] <= sizes[keep]
    ensures Ok(parent[drop := keep], sizes[keep := sizes[keep] + sizes[drop]],
               Merge(root, drop, keep), Higher(rank, drop, keep))
  {
    var fathers, roots := Fathers(parent, root), RootSizes(sizes, root);
    var root', total := Merge(root, drop, keep), sizes[keep] + sizes[drop];
    assert SizeOk(roots, root, rank, keep) && SizeOk(roots, root, rank, drop);
    assert drop in roots && keep in roots;
    RootIsMerged(root, drop, keep);
    assert sizes[keep] >= Pow2(rank[keep]) && sizes[drop] >= Pow2(rank[drop]);
    Pow2Exceeds(rank[keep]);
    Pow2Exceeds(rank[drop]);
    LinkKeepsForest(fathers, root, rank, drop, keep, root', Higher(rank, drop, keep));
    LinkKeepsSizes(roots, root, rank, drop, keep);
    LinkPresent(sizes, root, drop, keep, total);
    hide ForestOk, SizesOk, SizeOk, Pow2, Merge, Present, Fathers, RootSizes;
    LinkMaps(parent, sizes, root, drop, keep, root', total);
  }

  lemma LinkMaps(parent: seq<int>, sizes: seq<int>, root: map<int, int>, drop: int, keep: int, root': map<int, int>,
                 total: int)
    requires drop in root && keep in root && drop != keep && root[keep] == keep && root'.Keys == root.Keys
    requires forall x :: x in root ==> (root'[x] == x <==> root[x] == x && x != drop)
    requires 0 <= drop < |parent| && 0 <= keep < |sizes|
    ensures Fathers(parent[drop := keep], root') == Fathers(parent, root)[drop := keep]
    ensures RootSizes(sizes[keep := total], root') == RootSizes(sizes, root)[keep := total] - {drop}
  {
  }

  lemma AddOk(parent: seq<int>, sizes: seq<int>, root: map<int, int>, rank: map<int, nat>, x: int)
    requires Ok(parent, sizes, root, rank) && x !in root && 0 <= x < |parent|
    ensures Ok(parent[x := x], sizes[x := 1], root[x := x], rank[x := 0])
    ensures |Roots(root[x := x])| == |Roots(root)| + 1
  {
    var fathers, roots, root', rank' := Fathers(parent, root), RootSizes(sizes, root), root[x := x], rank[x := 0];
    RootsInside(fathers, root, rank);
    hide ForestOk, SizesOk;
    AddForest(fathers, root, rank, x, fathers[x := x], root', rank');
    AddSizes(roots, root, rank, x, fathers, roots[x := 1], root', rank');
    AddPresent(sizes, root, x);
    assert Fathers(parent[x := x], root') == fathers[x := x];
    assert RootSizes(sizes[x := 1], root') == roots[x := 1];
    AddRoot(root, x);
  }

  lemma AddRoot(root: map<int, int>, x: int)
    requires x !in root
    ensures |Roots(root[x := x])| == |Roots(root)| + 1
  {
    assert Roots(root[x := x]) == Roots(root) + {x};
  }

  lemma RootsInside(father: map<int, int>, root: map<int, int>, rank: map<int, nat>)
    requires ForestOk(father, root, rank)
    ensures forall y :: y in root ==> root[y] in root && root[root[y]] == root[y]
  {
    forall y | y in root ensures root[y] in root && root[root[y]] == root[y] {
      assert NodeOk(father, root, rank, y);
    }
  }

  lemma AddPresent(sizes: seq<int>, root: map<int, int>, x: int)
    requires Present(sizes, root) && 0 <= x < |sizes|
    ensures Present(sizes[x := 1], root[x := x])
  {
  }

  lemma AddForest(father: map<int, int>, root: map<int, int>, rank: map<int, nat>, x: int,
                  father': map<int, int>, root': map<int, int>, rank': map<int, nat>)
    requires ForestOk(father, root, rank) && x !in root
    requires father' == father[x := x] && root' == root[x := x] && rank' == rank[x := 0]
    ensures ForestOk(father', root', rank')
  {
    forall y | y in father' ensures NodeOk(father', root', rank', y) {
      if y != x {
        assert NodeOk(father, root, rank, y);
      }
    }
  }

  lemma AddSizes(sizes: map<int, int>, root: map<int, int>, rank: map<int, nat>, x: int, father: map<int, int>,
                 sizes': map<int, int>, root': map<int, int>, rank': map<int, nat>)
    requires SizesOk(sizes, root, rank) && ForestOk(father, root, rank) && x !in root
    requires sizes' == sizes[x := 1] && root' == root[x := x] && rank' == rank[x := 0]
    ensures SizesOk(sizes', root', rank')
  {
    RootsInside(father, root, rank);
    hide ForestOk;
    assert forall y :: y in root ==> root[y] != x;
    assert Class(root', x) == {x};
    forall r ensures SizeOk(sizes', root', rank', r) {
      assert SizeOk(sizes, root, rank, r);
      if r != x {
        assert Class(root', r) == Class(root, r);
      }
    }
  }

  /** The classes stand for the components of the links made. */
  ghost predicate Stands(root: map<int, int>, links: set<Edge>) {
    && PartitionIs(root, links)
    && (forall e :: e in links ==> e.from in root && e.to in root)
    && forall x :: x in root ==> root[x] in root && root[root[x]] == root[x]
  }

  lemma StandsAdd(root: map<int, int>, links: set<Edge>, x: int)
    requires Stands(root, links) && x !in root
    ensures Stands(root[x := x], links)
  {
    NewPoint(root, links, x);
  }

  lemma StandsUnion(root: map<int, int>, links: set<Edge>, a: int, b: int, drop: int, keep: int)
    requires Stands(root, links) && a in root && b in root && {drop, keep} == {root[a], root[b]}
    ensures Stands(Merge(root, drop, keep), links + {Link(a, b)})
  {
    UnionMatchesEdge(root, links, Link(a, b), drop, keep);
    assert drop in {root[a], root[b]} && keep in {root[a], root[b]};
  }

  lemma StandsSame(root: map<int, int>, links: set<Edge>, a: int, b: int)
    requires Stands(root, links) && a in root && b in root && root[a] == root[b]
    ensures Stands(root, links + {Link(a, b)})
  {
    StandsUnion(root, links, a, b, root[a], root[a]);
    assert Merge(root, root[a], root[a]) == root;
  }

  // ----- climbing

  /** path leads from start up to cur, one parent after another. */
  ghost predicate IsClimb(parent: seq<int>, start: int, path: seq<int>, cur: int) {
    if path == [] then start == cur
    else
      var last := path[|path| - 1];
      0 <= last < |parent| && parent[last] == cur != last && IsClimb(parent, start, path[..|path| - 1], last)
  }

  lemma ClimbOn(parent: seq<int>, start: int, path: seq<int>, cur: int)
    requires IsClimb(parent, start, path, cur) && 0 <= cur < |parent| && parent[cur] != cur
    ensures IsClimb(parent, start, path + [cur], parent[cur])
  {
    assert (path + [cur])[..|path|] == path;
  }

  /** Just the given elements have val as their new parent. */
  ghost predicate Repointed(before: seq<int>, nodes: seq<int>, val: int, after: seq<int>) {
    |after| == |before| && forall x :: 0 <= x < |before| ==> after[x] == if x in nodes then val else before[x]
  }

  /** The nodes from i on are repointed. */
  ghost predicate RepointedFrom(before: seq<int>, nodes: seq<int>, i: int, val: int, after: seq<int>) {
    0 <= i <= |nodes| && Repointed(before, nodes[i..], val, after)
  }

  lemma RepointNone(before: seq<int>, nodes: seq<int>, val: int)
    ensures RepointedFrom(before, nodes, |nodes|, val, before)
  {
  }

  lemma RepointOne(before: seq<int>, nodes: seq<int>, i: nat, val: int, after: seq<int>)
    requires RepointedFrom(before, nodes, i + 1, val, after) && 0 <= nodes[i] < |after|
    ensures RepointedFrom(before, nodes, i, val, after[nodes[i] := val])
  {
    assert nodes[i..] == [nodes[i]] + nodes[i + 1..];
  }

  lemma RepointAll(before: seq<int>, nodes: seq<int>, val: int, after: seq<int>)
    requires RepointedFrom(before, nodes, 0, val, after)
    ensures Repointed(before, nodes, val, after)
  {
    assert nodes[0..] == nodes;
  }

  /** Only a larger class keeps its representative when a's and b's are merged. */
  ghost function Linked(root: map<int, int>, sizes: seq<int>, a: int, b: int): map<int, int> {
    if a !in root || b !in root || root[a] == root[b] then root
    else if Larger(sizes, root[a], root[b]) then Merge(root, root[b], root[a])
    else Merge(root, root[a], root[b])
  }

  ghost predicate Larger(sizes: seq<int>, r: int, q: int) {
    0 <= r < |sizes| && 0 <= q < |sizes| && sizes[r] > sizes[q]
  }

  // ----- the class

  class UnionArray {
    const parent: array<int>
    const sizes: array<int>
    const help: array<int>
    var size: int
    ghost var root: map<int, int>
    ghost var rank: map<int, nat>
    ghost var links: set<Edge>

    ghost predicate Apart()
      reads this
    {
      parent.Length == sizes.Length == help.Length && parent != sizes && parent != help && sizes != help
    }

    ghost predicate Finds()
      reads this, parent, sizes
    {
      Apart() && Ok(parent[..], sizes[..], root, rank)
    }

    ghost predicate Valid()
      reads this, parent, sizes
    {
      Finds() && Stands(root, links) && size == |Roots(root)|
    }

    /** Room for length elements, none present. */
    constructor (length: nat)
      ensures Valid() && root == map[] && links == {} && parent.Length == length
      ensures fresh(parent) && fresh(sizes) && fresh(help)
    {
      parent := new int[length](_ => 0);
      sizes := new int[length](_ => 0);
      help := new int[length](_ => 0);
      size := 0;
      root, rank, links := map[], map[], {};
      new;
      EmptyOk(parent[..], sizes[..]);
    }

    /** So size is the number of components of the links made among the elements present. */
    lemma SizeCounts()
      requires Valid()
      ensures HasComponents(root.Keys, links, size)
    {
      RootsAreComponents(root, links);
    }

    method Add(x: int)
      requires Valid() && 0 <= x < parent.Length && x !in root
      modifies this, parent, sizes
      ensures Valid() && root == old(root)[x := x] && links == old(links) && size == old(size) + 1
    {
      AddOk(parent[..], sizes[..], root, rank, x);
      StandsAdd(root, links, x);
      hide Ok, Stands, Roots;
      parent[x] := x;
      sizes[x] := 1;
      size := size + 1;
      root, rank := root[x := x], rank[x := 0];
    }

    /** Climbs to the representative, then points every element it came through at it, and no other. */
    method FindAncestor(start: int) returns (val: int, ghost path: seq<int>)
      requires Finds() && start in root
      modifies parent, help
      ensures Finds() && val == root[start] && val in root && root[val] == val
      ensures IsClimb(old(parent[..]), start, path, val) && Repointed(old(parent[..]), path, val, parent[..])
    {
      hide Ok;
      var i := 0;
      val := start;
      path := [];
      ghost var p, s := parent[..], sizes[..];
      ParentIs(p, s, root, rank, val);
      while val != parent[val]
        invariant parent[..] == p && sizes[..] == s && 0 <= i <= help.Length
        invariant val in root && 0 <= val < parent.Length && root[val] == root[start] && val in rank && i <= rank[val]
        invariant IsClimb(p, start, path, val) && help[..i] == path
        invariant forall k :: 0 <= k < i ==> OnPath(path[k], root[start])
        decreases parent.Length - rank[val]
      {
        Climb(p, s, root, rank, val);
        help[i] := val;
        i := i + 1;
        ClimbOn(p, start, path, val);
        path := path + [val];
        val := parent[val];
      }
      ParentIs(p, s, root, rank, val);
      i := i - 1;
      Compress(val, i, path);
    }

    ghost predicate OnPath(x: int, r: int)
      reads this
    {
      x in root && root[x] == r
    }

    /** parent[x] = val */
    method Repoint(x: int, val: int)
      requires Finds() && OnPath(x, val)
      modifies parent
      ensures Finds() && 0 <= x < parent.Length && parent[..] == old(parent[..])[x := val]
    {
      hide Ok;
      ParentIs(parent[..], sizes[..], root, rank, x);
      CompressOk(parent[..], sizes[..], root, rank, x);
      parent[x] := val;
    }

    method Compress(val: int, last: int, ghost nodes: seq<int>)
      requires Finds() && -1 <= last < help.Length && nodes == help[..last + 1]
      requires forall k :: 0 <= k <= last ==> OnPath(nodes[k], val)
      modifies parent
      ensures Finds() && Repointed(old(parent[..]), nodes, val, parent[..])
    {
      hide Ok, Repointed, RepointedFrom;
      var i := last;
      ghost var p := parent[..];
      RepointNone(p, nodes, val);
      while i >= 0
        invariant -1 <= i <= last && Finds() && RepointedFrom(p, nodes, i + 1, val, parent[..])
      {
        ghost var before := parent[..];
        Repoint(help[i], val);
        RepointOne(p, nodes, i, val, before);
        i := i - 1;
      }
      RepointAll(p, nodes, val, parent[..]);
    }

    static lemma TailGrows(path: seq<int>, x: int, y: int)
      ensures (path + [x] + [y])[1..] == (path + [x])[1..] + [y]
    {
    }

    /**
     The variant that remembers the parents it climbed to instead of the elements it came from: the
     start itself keeps its parent.
    */
    method Find(start: int) returns (val: int, ghost path: seq<int>)
      requires Finds() && start in root
      modifies parent, help
      ensures Finds() && val == root[start] && val in root && root[val] == val
      ensures IsClimb(old(parent[..]), start, path, val)
      ensures Repointed(old(parent[..]), (path + [val])[1..], val, parent[..])
    {
      hide Ok;
      var i := 0;
      val := start;
      path := [];
      ghost var p, s := parent[..], sizes[..];
      ParentIs(p, s, root, rank, val);
      while val != parent[val]
        invariant parent[..] == p && sizes[..] == s && 0 <= i <= help.Length
        invariant val in root && 0 <= val < parent.Length && root[val] == root[start] && val in rank && i <= rank[val]
        invariant IsClimb(p, start, path, val) && help[..i] == (path + [val])[1..]
        invariant forall k :: 0 <= k < i ==> OnPath(help[..i][k], root[start])
        decreases parent.Length - rank[val]
      {
        Climb(p, s, root, rank, val);
        ghost var seen := help[..i];
        help[i] := parent[val];
        i := i + 1;
        ClimbOn(p, start, path, val);
        assert help[..i] == seen + [p[val]];
        TailGrows(path, val, p[val]);
        path := path + [val];
        val := parent[val];
      }
      ParentIs(p, s, root, rank, val);
      i := i - 1;
      Compress(val, i, (path + [val])[1..]);
    }

    /** Hangs the representative with the smaller size under the other. */
    method LinkRoots(af: int, bf: int, ghost a: int, ghost b: int)
      requires Valid() && a in root && b in root && root[a] == af && root[b] == bf
      requires af in root && root[af] == af && bf in root && root[bf] == bf
      modifies this, parent, sizes
      ensures Valid() && root.Keys == old(root.Keys) && links == old(links) + {Link(a, b)}
      ensures size == old(size) - if old(root[a] == root[b]) then 0 else 1
      ensures root == Linked(old(root), old(sizes[..]), a, b)
    {
      hide Ok, Stands;
      if af != bf {
        ghost var p, s := parent[..], sizes[..];
        ParentIs(p, s, root, rank, af);
        ParentIs(p, s, root, rank, bf);
        if sizes[af] > sizes[bf] {
          LinkOk(p, s, root, rank, bf, af);
          StandsUnion(root, links, a, b, bf, af);
          RootIsMerged(root, bf, af);
          parent[bf] := af;
          sizes[af] := sizes[af] + sizes[bf];
          root, rank := Merge(root, bf, af), Higher(rank, bf, af);
        } else {
          LinkOk(p, s, root, rank, af, bf);
          StandsUnion(root, links, a, b, af, bf);
          RootIsMerged(root, af, bf);
          parent[af] := bf;
          sizes[bf] := sizes[bf] + sizes[af];
          root, rank := Merge(root, af, bf), Higher(rank, af, bf);
        }
        size := size - 1;
      } else {
        StandsSame(root, links, a, b);
      }
      links := links + {Link(a, b)};
    }

    method Union(a: int, b: int)
      requires Valid() && a in root && b in root
      modifies this, parent, sizes, help
      ensures Valid() && root.Keys == old(root.Keys) && links == old(links) + {Link(a, b)}
      ensures size == old(size) - if old(root[a] == root[b]) then 0 else 1
      ensures root == Linked(old(root), old(sizes[..]), a, b)
    {
      hide Ok, Stands, Roots;
      var af, _ := FindAncestor(a);
      var bf, _ := FindAncestor(b);
      LinkRoots(af, bf, a, b);
    }

    method UnionByFind(i: int, j: int)
      requires Valid() && i in root && j in root
      modifies this, parent, sizes, help
      ensures Valid() && root.Keys == old(root.Keys) && links == old(links) + {Link(i, j)}
      ensures size == old(size) - if old(root[i] == root[j]) then 0 else 1
      ensures root == Linked(old(root), old(sizes[..]), i, j)
    {
      hide Ok, Stands, Roots;
      var i1, _ := Find(i);
      var i2, _ := Find(j);
      LinkRoots(i1, i2, i, j);
    }
  }

  lemma EmptyOk(parent: seq<int>, sizes: seq<int>)
    requires |parent| == |sizes| && forall x :: 0 <= x < |sizes| ==> sizes[x] == 0
    ensures Ok(parent, sizes, map[], map[]) && Stands(map[], {}) && Roots(map[]) == {}
  {
    forall r ensures SizeOk(RootSizes(sizes, map[]), map[], map[], r) {
    }
  }

  lemma Climb(parent: seq<int>, sizes: seq<int>, root: map<int, int>, rank: map<int, nat>, x: int)
    requires Ok(parent, sizes, root, rank) && x in root && 0 <= x < |parent| && parent[x] != x
    ensures parent[x] in root && 0 <= parent[x] < |parent| && root[parent[x]] == root[x] && root[x] in rank
    ensures x in rank && parent[x] in rank && rank[x] < rank[parent[x]] <= rank[root[x]] < |parent|
  {
    ParentIs(parent, sizes, root, rank, x);
    ParentIs(parent, sizes, root, rank, parent[x]);
    RankFits(parent, sizes, root, rank, root[x]);
    assert NodeOk(Fathers(parent, root), root, rank, parent[x]);
  }
}
