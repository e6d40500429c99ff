/**
 Union-find over maps, with path compression on a stack and union by size.  The partition is
 the ghost map from every element to its representative; find never changes it.
*/
module DisjointSets {

  /** The elements represented by r. */
  ghost function Class<T>(root: map<T, T>, r: T): set<T> {
    set x | x in root && root[x] == r
  }

  /** Everything represented by drop becomes represented by keep. */
  ghost function Merge<T>(root: map<T, T>, drop: T, keep: T): map<T, T> {
    map x | x in root :: if root[x] == drop then keep else root[x]
  }

  ghost predicate Same<T>(root: map<T, T>, x: T, y: T) {
    x in root && y in root && root[x] == root[y]
  }

  ghost function Pow2(n: nat): nat {
    if n == 0 then 1 else 2 * Pow2(n - 1)
  }

  lemma MergeSizes<T>(root: map<T, T>, drop: T, keep: T)
    requires drop != keep
    ensures |Class(Merge(root, drop, keep), keep)| == |Class(root, keep)| + |Class(root, drop)|
    ensures forall r :: r != drop && r != keep ==> Class(Merge(root, drop, keep), r) == Class(root, r)
  {
    assert Class(Merge(root, drop, keep), keep) == Class(root, keep) + Class(root, drop);
    assert Class(root, keep) !! Class(root, drop);
  }

  lemma {:induction false} Pow2Monotone(m: nat, n: nat)
    requires m <= n
    ensures Pow2(m) <= Pow2(n)
  {
    if m < n {
      Pow2Monotone(m, n - 1);
    }
  }

  lemma {:induction false} Pow2Exceeds(n: nat)
    ensures n < Pow2(n)
  {
    if n > 0 {
      Pow2Exceeds(n - 1);
    }
  }

  /** x is a fathers' chain of d steps below y. */
  ghost predicate Chain<T>(father: map<T, T>, x: T, d: nat, y: T) {
    if d == 0 then x == y
    else x in father && father[x] != x && Chain(father, father[x], d - 1, y)
  }

  /** x is met when climbing from start. */
  ghost predicate OnClimb<T>(father: map<T, T>, start: T, x: T) {
    exists d: nat :: Chain(father, start, d, x)
  }

  lemma ClimbStep<T(!new)>(father: map<T, T>, node: T)
    requires node in father
    ensures forall x {:trigger OnClimb(father, node, x)} ::
              OnClimb(father, node, x) <==> x == node || (father[node] != node && OnClimb(father, father[node], x))
  {
    forall x ensures OnClimb(father, node, x) <==>
                     x == node || (father[node] != node && OnClimb(father, father[node], x))
    {
      if OnClimb(father, node, x) {
        var d: nat :| Chain(father, node, d, x);
        assert d > 0 ==> Chain(father, father[node], d - 1, x);
      }
      if x == node {
        assert Chain(father, node, 0, x);
      } else if father[node] != node && OnClimb(father, father[node], x) {
        var d: nat :| Chain(father, father[node], d, x);
        assert Chain(father, node, d + 1, x);
      }
    }
  }

  // ----- the forest behind a partition

  /** x's father is in its class and of higher rank, unless x is its class's representative. */
  ghost predicate NodeOk<T>(father: map<T, T>, root: map<T, T>, rank: map<T, nat>, x: T) {
    && x in father && x in root && x in rank
    && father[x] in father && father[x] in root && father[x] in rank
    && root[x] in father && root[x] in root && root[x] in rank
    && root[father[x]] == root[x] && father[root[x]] == root[x] && root[root[x]] == root[x]
    && (father[x] == x ==> root[x] == x)
    && (father[x] != x ==> rank[x] < rank[father[x]])
    && rank[x] <= rank[root[x]]
  }

  ghost predicate ForestOk<T(!new)>(father: map<T, T>, root: map<T, T>, rank: map<T, nat>) {
    && father.Keys == root.Keys == rank.Keys
    && forall x {:trigger NodeOk(father, root, rank, x)} :: x in father ==> NodeOk(father, root, rank, x)
  }

  /** sizes is kept for representatives only; ranks stay logarithmic in them. */
  ghost predicate SizeOk<T>(sizes: map<T, int>, root: map<T, T>, rank: map<T, nat>, r: T) {
    && (r in sizes <==> r in root && root[r] == r)
    && (r in sizes ==> r in rank && sizes[r] == |Class(root, r)| && Pow2(rank[r]) <= sizes[r])
  }

  ghost predicate SizesOk<T(!new)>(sizes: map<T, int>, root: map<T, T>, rank: map<T, nat>) {
    forall r {:trigger SizeOk(sizes, root, rank, r)} :: SizeOk(sizes, root, rank, r)
  }

  /** Pointing x straight at its representative is path compression. */
  lemma CompressKeepsForest<T(!new)>(father: map<T, T>, root: map<T, T>, rank: map<T, nat>, x: T)
    requires ForestOk(father, root, rank) && x in father && father[x] != x
    ensures ForestOk(father[x := root[x]], root, rank)
  {
    assert NodeOk(father, root, rank, x) && NodeOk(father, root, rank, father[x]);
    forall y | y in father ensures NodeOk(father[x := root[x]], root, rank, y) {
      assert NodeOk(father, root, rank, y);
    }
  }

  ghost function Higher<T>(rank: map<T, nat>, drop: T, keep: T): map<T, nat>
    requires drop in rank && keep in rank
  {
    if rank[keep] <= rank[drop] then rank[keep := rank[drop] + 1] else rank
  }

  lemma LinkKeepsNode<T(!new)>(father: map<T, T>, root: map<T, T>, rank: map<T, nat>, drop: T, keep: T, y: T,
                               root': map<T, T>, rank': map<T, nat>)
    requires NodeOk(father, root, rank, y) && NodeOk(father, root, rank, father[y])
    requires NodeOk(father, root, rank, keep) && NodeOk(father, root, rank, drop)
    requires drop != keep && root[drop] == drop && root[keep] == keep
    requires root' == Merge(root, drop, keep) && rank' == Higher(rank, drop, keep)
    ensures NodeOk(father[drop := keep], root', rank', y)
  {
    if y != keep {
      assert rank'[y] == rank[y];
    }
  }

  lemma LinkKeepsForest<T(!new)>(father: map<T, T>, root: map<T, T>, rank: map<T, nat>, drop: T, keep: T,
                                 root': map<T, T>, rank': map<T, nat>)
    requires ForestOk(father, root, rank)
    requires drop in father && keep in father && drop != keep && root[drop] == drop && root[keep] == keep
    requires root' == Merge(root, drop, keep) && rank' == Higher(rank, drop, keep)
    ensures ForestOk(father[drop := keep], root', rank')
  {
    assert NodeOk(father, root, rank, keep) && NodeOk(father, root, rank, drop);
    assert root'.Keys == root.Keys && rank'.Keys == rank.Keys;
    forall y | y in father ensures NodeOk(father[drop := keep], root', rank', y) {
      assert NodeOk(father, root, rank, y);
      assert NodeOk(father, root, rank, father[y]);
      hide NodeOk, Merge, Higher;
      LinkKeepsNode(father, root, rank, drop, keep, y, root', rank');
    }
  }

  lemma LinkKeepsSizes<T(!new)>(sizes: map<T, int>, root: map<T, T>, rank: map<T, nat>, drop: T, keep: T)
    requires SizesOk(sizes, root, rank) && drop in sizes && keep in sizes && drop != keep
    requires sizes[drop] <= sizes[keep] && drop in rank && keep in rank
    ensures SizesOk(sizes[keep := sizes[keep] + sizes[drop]] - {drop},
                    Merge(root, drop, keep), Higher(rank, drop, keep))
  {
    var sizes' := sizes[keep := sizes[keep] + sizes[drop]] - {drop};
    var root', rank' := Merge(root, drop, keep), Higher(rank, drop, keep);
    MergeSizes(root, drop, keep);
    assert SizeOk(sizes, root, rank, keep) && SizeOk(sizes, root, rank, drop);
    forall r ensures SizeOk(sizes', root', rank', r) {
      assert SizeOk(sizes, root, rank, r);
    }
  }

  lemma SingletonsOk<T(!new)>(nodes: set<T>, id: map<T, T>, ones: map<T, int>, zeros: map<T, nat>)
    requires id == (map x | x in nodes :: x) && ones == (map x | x in nodes :: 1) && zeros == (map x | x in nodes :: 0)
    ensures ForestOk(id, id, zeros) && SizesOk(ones, id, zeros)
  {
    forall x | x in id ensures NodeOk(id, id, zeros, x) {
    }
    forall r ensures SizeOk(ones, id, zeros, r) {
      if r in nodes {
        assert Class(id, r) == {r};
      }
    }
  }

  /** A chain of fathers is logarithmic in the size of its class, so finds stay short. */
  lemma {:induction false} ChainIsShort<T(!new)>(father: map<T, T>, sizes: map<T, int>,
                                                 root: map<T, T>, rank: map<T, nat>, x: T, d: nat, y: T)
    requires ForestOk(father, root, rank) && SizesOk(sizes, root, rank)
    requires x in father && Chain(father, x, d, y)
    ensures y in father && root[y] == root[x] && rank[x] + d <= rank[y]
    ensures Pow2(d) <= |Class(root, root[x])|
    decreases d
  {
    assert NodeOk(father, root, rank, x);
    if d > 0 {
      ChainIsShort(father, sizes, root, rank, father[x], d - 1, y);
      assert NodeOk(father, root, rank, y);
      assert SizeOk(sizes, root, rank, root[x]);
      Pow2Monotone(d, rank[root[x]]);
    } else {
      assert x in Class(root, root[x]);
    }
  }

  class UnionSet<T(==, !new)> {
    var father: map<T, T>
    var sizes: map<T, int>
    ghost var root: map<T, T>
    ghost var rank: map<T, nat>

    ghost predicate Valid()
      reads this
    {
      ForestOk(father, root, rank) && SizesOk(sizes, root, rank)
    }

    constructor ()
      ensures Valid() && root == map[]
    {
      father, sizes, root, rank := map[], map[], map[], map[];
      new;
      forall r ensures SizeOk(sizes, root, rank, r) {
      }
    }

    method MakeSets(nodes: set<T>)
      modifies this
      ensures Valid() && root == (map x | x in nodes :: x) && sizes.Keys == nodes
    {
      father := map x | x in nodes :: x;
      sizes := map x | x in nodes :: 1;
      root := father;
      rank := map x | x in nodes :: 0;
      SingletonsOk(nodes, root, sizes, rank);
    }

    /** Climbs to the representative, then points the whole path at it, and nothing else. */
    method FindFather(start: T) returns (node: T)
      requires Valid() && start in father
      modifies this`father
      ensures Valid() && node == root[start] && node in sizes
      ensures forall x {:trigger x in father} :: x in father ==>
                father[x] == if OnClimb(old(father), start, x) then node else old(father)[x]
      ensures father.Keys == old(father.Keys) && father[start] == node
    {
      hide OnClimb;
      var stack: seq<T> := [];
      node := start;
      assert NodeOk(father, root, rank, start);
      while node != father[node]
        invariant ForestOk(father, root, rank) && father == old(father)
        invariant node in father && root[node] == root[start]
        invariant start == node || start in stack
        invariant forall x :: x in stack ==> x in father && father[x] != x && root[x] == root[start]
        invariant forall x :: OnClimb(father, start, x) <==> x in stack || OnClimb(father, node, x)
        decreases rank[root[start]] as int - rank[node]
      {
        assert NodeOk(father, root, rank, node);
        ClimbStep(father, node);
        stack := stack + [node];
        node := father[node];
        assert NodeOk(father, root, rank, node);
      }
      assert NodeOk(father, root, rank, node);
      assert SizeOk(sizes, root, rank, node);
      ClimbStep(father, node);
      while stack != []
        invariant ForestOk(father, root, rank) && root[start] == node
        invariant start in stack || (start in father && father[start] == node)
        invariant forall x :: x in stack ==>
            x in father && (father[x] != x || father[x] == node) && x != node && root[x] == node
        invariant forall x :: x in stack ==> OnClimb(old(father), start, x)
        invariant forall x {:trigger x in father} :: x in father && x !in stack ==>
                    father[x] == if OnClimb(old(father), start, x) then node else old(father)[x]
        decreases |stack|
      {
        var last := stack[|stack| - 1];
        stack := stack[..|stack| - 1];
        if father[last] != last {
          CompressKeepsForest(father, root, rank, last);
        }
        father := father[last := node];
      }
    }

    method IsSame(a: T, b: T) returns (same: bool)
      requires Valid() && a in father && b in father
      modifies this`father
      ensures Valid() && same == Same(root, a, b)
    {
      var aNode := FindFather(a);
      var bNode := FindFather(b);
      same := aNode == bNode;
    }

    method Union(a: T, b: T) returns (ghost drop: T, ghost keep: T)
      requires Valid() && a in father && b in father
      modifies this
      ensures Valid()
      ensures {drop, keep} == {old(root)[a], old(root)[b]}
      ensures root == Merge(old(root), drop, keep)
      ensures sizes.Keys == old(sizes.Keys) - (if old(Same(root, a, b)) then {} else {drop})
      ensures !old(Same(root, a, b)) ==> drop in old(sizes) && keep in sizes
      ensures !old(Same(root, a, b)) ==>
                (keep == old(root)[a] <==> old(sizes[root[a]]) > old(sizes[root[b]]))
    {
      var aNode := FindFather(a);
      var bNode := FindFather(b);
      drop, keep := bNode, aNode;
      if aNode != bNode {
        var aLength := sizes[aNode];
        var bLength := sizes[bNode];
        assert SizeOk(sizes, root, rank, aNode) && SizeOk(sizes, root, rank, bNode);
        if aLength > bLength {
          LinkKeepsForest(father, root, rank, bNode, aNode, Merge(root, bNode, aNode), Higher(rank, bNode, aNode));
          LinkKeepsSizes(sizes, root, rank, bNode, aNode);
          father := father[bNode := aNode];
          sizes := sizes[aNode := aLength + bLength] - {bNode};
        } else {
          drop, keep := aNode, bNode;
          LinkKeepsForest(father, root, rank, aNode, bNode, Merge(root, aNode, bNode), Higher(rank, aNode, bNode));
          LinkKeepsSizes(sizes, root, rank, aNode, bNode);
          father := father[aNode := bNode];
          sizes := sizes[bNode := aLength + bLength] - {aNode};
        }
        root, rank := Merge(root, drop, keep), Higher(rank, drop, keep);
      } else {
        assert Merge(root, drop, keep) == root;
      }
    }
  }

  /** What merging the classes of a and b means for the relation "same class". */
  lemma MergeIsUnion<T>(root: map<T, T>, a: T, b: T, drop: T, keep: T, x: T, y: T)
    requires a in root && b in root && {drop, keep} == {root[a], root[b]}
    ensures Same(Merge(root, drop, keep), x, y) <==>
            Same(root, x, y) || (Same(root, x, a) && Same(root, b, y)) || (Same(root, x, b) && Same(root, a, y))
  {
    assert drop in {root[a], root[b]} && keep in {root[a], root[b]};
    assert root[a] in {drop, keep} && root[b] in {drop, keep};
  }
}
