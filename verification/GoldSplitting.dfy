/**
 Joining pieces of gold two at a time, each join costing the sum of the two: always joining
 the two smallest pieces costs the least of all orders.
*/
module GoldSplitting {
  import opened Wrappers

  // ----- the reference: all orders of joining

  ghost function Is(z: nat, x: nat): nat {
    if z == x then 1 else 0
  }

  /** a and b are two different pieces of m, perhaps of equal weight. */
  ghost predicate HasPair(m: multiset<nat>, a: nat, b: nat) {
    m[a] >= 1 && m[b] >= Is(b, a) + 1
  }

  function Joined(m: multiset<nat>, a: nat, b: nat): multiset<nat> {
    m - multiset{a} - multiset{b} + multiset{a + b}
  }

  lemma JoinedCount(m: multiset<nat>, a: nat, b: nat)
    requires HasPair(m, a, b)
    ensures forall z: nat :: Joined(m, a, b)[z] == m[z] - Is(z, a) - Is(z, b) + Is(z, a + b)
    ensures |Joined(m, a, b)| == |m| - 1 && |m| >= 2
  {
    assert b in m - multiset{a};
  }

  ghost predicate IsOrder(m: multiset<nat>, order: seq<(nat, nat)>)
    decreases |order|
  {
    if |m| <= 1 then order == []
    else order != [] && var (a, b) := order[0];
         HasPair(m, a, b) && IsOrder(Joined(m, a, b), order[1..])
  }

  ghost function OrderCost(order: seq<(nat, nat)>): nat {
    if order == [] then 0 else order[0].0 + order[0].1 + OrderCost(order[1..])
  }

  ghost predicate IsLeastCost(m: multiset<nat>, c: int) {
    && (exists order :: IsOrder(m, order) && OrderCost(order) == c)
    && forall order :: IsOrder(m, order) ==> c <= OrderCost(order)
  }

  // ----- trees of joins

  datatype Tree = Leaf(w: nat) | Node(left: Tree, right: Tree)

  ghost function Weight(t: Tree): nat {
    match t
    case Leaf(w) => w
    case Node(l, r) => Weight(l) + Weight(r)
  }

  /** How many leaves weigh z. */
  ghost function Count(t: Tree, z: nat): nat {
    match t
    case Leaf(w) => Is(z, w)
    case Node(l, r) => Count(l, z) + Count(r, z)
  }

  ghost function Leaves(t: Tree): multiset<nat> {
    match t
    case Leaf(w) => multiset{w}
    case Node(l, r) => Leaves(l) + Leaves(r)
  }

  /** The sum of all joins' results. */
  ghost function Cost(t: Tree): nat {
    match t
    case Leaf(_) => 0
    case Node(l, r) => Cost(l) + Cost(r) + Weight(l) + Weight(r)
  }

  ghost function Height(t: Tree): nat {
    match t
    case Leaf(_) => 0
    case Node(l, r) => 1 + if Height(l) >= Height(r) then Height(l) else Height(r)
  }

  lemma {:induction false} LeavesFacts(t: Tree)
    ensures forall z: nat :: Leaves(t)[z] == Count(t, z)
    ensures |Leaves(t)| >= 1 && (|Leaves(t)| == 1 <==> t.Leaf?)
  {
    if t.Node? {
      LeavesFacts(t.left);
      LeavesFacts(t.right);
    }
  }

  /** Two sibling leaves at the greatest depth. */
  ghost function Deepest(t: Tree): (nat, nat)
    requires t.Node?
  {
    if t.left.Leaf? && t.right.Leaf? then (t.left.w, t.right.w)
    else if Height(t.left) >= Height(t.right) then Deepest(t.left)
    else Deepest(t.right)
  }

  /** The tree with those two leaves and their join replaced by one leaf s. */
  ghost function Cut(t: Tree, s: nat): Tree
    requires t.Node?
  {
    if t.left.Leaf? && t.right.Leaf? then Leaf(s)
    else if Height(t.left) >= Height(t.right) then Node(Cut(t.left, s), t.right)
    else Node(t.left, Cut(t.right, s))
  }

  lemma NodeFacts(t: Tree, l: Tree, r: Tree)
    requires t == Node(l, r)
    ensures Weight(t) == Weight(l) + Weight(r) && Cost(t) == Cost(l) + Cost(r) + Weight(l) + Weight(r)
    ensures Height(t) == 1 + if Height(l) >= Height(r) then Height(l) else Height(r)
    ensures forall z {:trigger Count(t, z)} :: Count(t, z) == Count(l, z) + Count(r, z)
  {
  }

  /** x once per level. */
  ghost function Per(x: int, d: int): int {
    x * d
  }

  lemma OneLevel(x: int, d: int)
    ensures Per(x, d) == Per(x, d - 1) + x
  {
  }

  lemma PerMonotone(x: nat, d: nat, e: nat)
    requires d <= e
    ensures Per(x, d) <= Per(x, e)
  {
  }

  lemma {:induction false} CutCounts(t: Tree, s: nat, c: Tree, u: nat, v: nat)
    requires t.Node? && c == Cut(t, s) && (u, v) == Deepest(t)
    ensures forall z {:trigger Count(c, z)} :: Count(c, z) == Count(t, z) - Is(z, u) - Is(z, v) + Is(z, s)
    ensures forall z {:trigger Count(t, z)} :: Count(t, z) >= Is(z, u) + Is(z, v)
  {
    var l, r := t.left, t.right;
    if !(l.Leaf? && r.Leaf?) {
      NodeFacts(t, l, r);
      NodeFacts(c, c.left, c.right);
      hide Count, Weight, Cost, Height, Is;
      if Height(l) >= Height(r) {
        CutCounts(l, s, c.left, u, v);
      } else {
        CutCounts(r, s, c.right, u, v);
      }
    }
  }

  lemma {:induction false} CutCost(t: Tree, s: nat, c: Tree, u: nat, v: nat)
    requires t.Node? && c == Cut(t, s) && (u, v) == Deepest(t)
    ensures Weight(c) + u + v == Weight(t) + s && Height(c) <= Height(t)
    ensures Cost(c) + Per(u + v, Height(t)) == Cost(t) + Per(s, Height(t) - 1)
  {
    hide Count, Weight, Cost, Per, Height, Cut, Deepest;
    var l, r := t.left, t.right;
    CutShape(t, s, u, v);
    if l.Leaf? && r.Leaf? {
      CutTwoLeaves(l.w, r.w, s);
    } else {
      NodeFacts(t, l, r);
      NodeFacts(c, c.left, c.right);
      OneLevel(u + v, Height(t));
      OneLevel(s, Height(t) - 1);
      if Height(l) >= Height(r) {
        CutCost(l, s, c.left, u, v);
      } else {
        CutCost(r, s, c.right, u, v);
      }
    }
  }

  lemma CutShape(t: Tree, s: nat, u: nat, v: nat)
    requires t.Node? && (u, v) == Deepest(t)
    ensures var (l, r) := (t.left, t.right);
            if l.Leaf? && r.Leaf? then Cut(t, s) == Leaf(s) && u == l.w && v == r.w
            else if Height(l) >= Height(r) then l.Node? && Cut(t, s) == Node(Cut(l, s), r) && Deepest(l) == (u, v)
            else r.Node? && Cut(t, s) == Node(l, Cut(r, s)) && Deepest(r) == (u, v)
  {
  }

  lemma CutTwoLeaves(u: nat, v: nat, s: nat)
    ensures var t := Node(Leaf(u), Leaf(v));
            && Height(t) == 1 && Height(Leaf(s)) == 0 && Weight(t) == u + v && Weight(Leaf(s)) == s
            && Cost(Leaf(s)) + Per(u + v, 1) == Cost(t) + Per(s, 0)
  {
  }

  /** The tree with one leaf x replaced by u. */
  ghost function Put(t: Tree, x: nat, u: nat): Tree {
    match t
    case Leaf(_) => Leaf(u)
    case Node(l, r) => if Count(l, x) > 0 then Node(Put(l, x, u), r) else Node(l, Put(r, x, u))
  }

  lemma {:induction false} PutCounts(t: Tree, x: nat, u: nat, t': Tree)
    requires Count(t, x) > 0 && t' == Put(t, x, u)
    ensures forall z {:trigger Count(t', z)} :: Count(t', z) == Count(t, z) - Is(z, x) + Is(z, u)
  {
    if t.Node? {
      NodeFacts(t, t.left, t.right);
      NodeFacts(t', t'.left, t'.right);
      hide Count, Is;
      if Count(t.left, x) > 0 {
        PutCounts(t.left, x, u, t'.left);
      } else {
        PutCounts(t.right, x, u, t'.right);
      }
    }
  }

  /** Replacing one leaf by a heavier one costs at most the difference once per level. */
  lemma {:induction false} PutCost(t: Tree, x: nat, u: nat, t': Tree)
    requires Count(t, x) > 0 && x <= u && t' == Put(t, x, u)
    ensures Height(t') == Height(t) && Weight(t') + x == Weight(t) + u
    ensures Cost(t') <= Cost(t) + Per(u - x, Height(t))
  {
    if t.Leaf? {
      assert Height(t) == 0 && Per(u - x, 0) == 0;
    } else {
      var l, r, h := t.left, t.right, Height(t);
      NodeFacts(t, l, r);
      NodeFacts(t', t'.left, t'.right);
      assert t' == if Count(l, x) > 0 then Node(Put(l, x, u), r) else Node(l, Put(r, x, u));
      hide Count, Weight, Cost, Height, Per, Put;
      OneLevel(u - x, h);
      if Count(l, x) > 0 {
        PutCost(l, x, u, t'.left);
        PerMonotone(u - x, Height(l), h - 1);
      } else {
        PutCost(r, x, u, t'.right);
        PerMonotone(u - x, Height(r), h - 1);
      }
    }
  }

  lemma HeavierWithin(t: Tree, x: nat, u: nat, h: nat) returns (t': Tree)
    requires Count(t, x) > 0 && x <= u && Height(t) <= h
    ensures forall z {:trigger Count(t', z)} :: Count(t', z) == Count(t, z) - Is(z, x) + Is(z, u)
    ensures Height(t') <= h && Cost(t') <= Cost(t) + Per(u - x, h)
  {
    t' := Put(t, x, u);
    PutCounts(t, x, u, t');
    PutCost(t, x, u, t');
    PerMonotone(u - x, Height(t), h);
  }

  /** x and y are two smallest leaves of t. */
  ghost predicate TwoSmallestLeaves(t: Tree, x: nat, y: nat) {
    && Count(t, x) >= 1 && Count(t, y) >= Is(y, x) + 1
    && (forall z {:trigger Count(t, z)} :: Count(t, z) > 0 ==> x <= z)
    && forall z {:trigger Count(t, z)} :: Count(t, z) > Is(z, x) ==> y <= z
  }

  lemma Distribute(p: int, q: int, h: int)
    ensures Per(p, h) + Per(q, h) == Per(p + q, h)
  {
    assert p * h + q * h == (p + q) * h;
  }

  /** Putting a cut pair u <= v back where the two smallest pieces are. */
  lemma PutBack(t: Tree, c: Tree, u: nat, v: nat, x: nat, y: nat, h: nat) returns (t': Tree)
    requires TwoSmallestLeaves(t, x, y) && u <= v && Height(c) <= h
    requires forall z {:trigger Count(t, z)} :: Count(t, z) >= Is(z, u) + Is(z, v)
    requires forall z {:trigger Count(c, z)} :: Count(c, z) == Count(t, z) - Is(z, u) - Is(z, v) + Is(z, x + y)
    ensures forall z {:trigger Count(t', z)} :: Count(t', z) == Count(t, z) - Is(z, x) - Is(z, y) + Is(z, x + y)
    ensures x + y <= u + v && Cost(t') <= Cost(c) + Per(u + v - (x + y), h)
  {
    hide Count, Cost, Height, Per;
    assert Count(t, u) > 0 && Count(t, v) > 0 && x <= u;
    assert Count(t, v) > Is(v, x);
    Distribute(0, 0, h);
    if u == x && v == y {
      t' := c;
    } else if u == x {
      t' := HeavierWithin(c, y, v, h);
    } else if u == y {
      t' := HeavierWithin(c, x, v, h);
    } else {
      assert Count(t, u) > Is(u, x);
      var d := HeavierWithin(c, x, u, h);
      assert Count(d, y) > 0;
      t' := HeavierWithin(d, y, v, h);
      Distribute(u - x, v - y, h);
    }
  }

  /**
   Any tree of joins can be turned into one that joins two smallest pieces first, at no
   extra cost: cut the deepest pair, put the smallest pieces' join there, and move the cut
   pair to where the smallest pieces were.
  */
  lemma Contract(t: Tree, x: nat, y: nat) returns (t': Tree)
    requires t.Node? && TwoSmallestLeaves(t, x, y)
    ensures forall z {:trigger Count(t', z)} :: Count(t', z) == Count(t, z) - Is(z, x) - Is(z, y) + Is(z, x + y)
    ensures Cost(t') + x + y <= Cost(t)
  {
    var (u, v) := Deepest(t);
    var c := Cut(t, x + y);
    var h := Height(t);
    assert h >= 1;
    CutCounts(t, x + y, c, u, v);
    CutCost(t, x + y, c, u, v);
    hide Count, Cost, Height, TwoSmallestLeaves, Per;
    if u <= v {
      t' := PutBack(t, c, u, v, x, y, h);
    } else {
      t' := PutBack(t, c, v, u, x, y, h);
    }
    Levels(u + v, x + y, h);
  }

  lemma Levels(big: nat, small: nat, h: nat)
    requires h >= 1
    ensures Per(small, h - 1) + Per(big - small, h) == Per(big, h) - small
  {
    OneLevel(small, h);
    Distribute(big - small, small, h);
  }

  /** Splitting one leaf into a join. */
  lemma {:induction false} Expand(t: Tree, a: nat, b: nat) returns (t': Tree)
    requires Count(t, a + b) > 0
    ensures forall z {:trigger Count(t', z)} :: Count(t', z) == Count(t, z) - Is(z, a + b) + Is(z, a) + Is(z, b)
    ensures Cost(t') == Cost(t) + a + b && Weight(t') == Weight(t)
  {
    if t.Leaf? {
      t' := Node(Leaf(a), Leaf(b));
    } else {
      var l, r := t.left, t.right;
      NodeFacts(t, l, r);
      hide Count, Weight, Cost;
      if Count(l, a + b) > 0 {
        var l' := Expand(l, a, b);
        t' := Node(l', r);
        NodeFacts(t', l', r);
      } else {
        var r' := Expand(r, a, b);
        t' := Node(l, r');
        NodeFacts(t', l, r');
      }
    }
  }

  // ----- greedy joining

  predicate Smallest(m: multiset<nat>, x: nat) {
    x in m && forall y :: y in m ==> x <= y
  }

  ghost predicate TwoSmallest(m: multiset<nat>, x: nat, y: nat) {
    Smallest(m, x) && Smallest(m - multiset{x}, y)
  }

  lemma {:induction false} SmallestExists(m: multiset<nat>) returns (x: nat)
    requires |m| > 0
    ensures Smallest(m, x)
    decreases |m|
  {
    x := NonEmpty(m);
    var rest := m - multiset{x};
    assert forall z :: z in m ==> z == x || z in rest;
    if |rest| > 0 {
      var y := SmallestExists(rest);
      x := if x <= y then x else y;
    }
  }

  lemma NonEmpty(m: multiset<nat>) returns (x: nat)
    requires |m| > 0
    ensures x in m
  {
    assert (forall y :: y !in m) ==> m == multiset{};
    x :| x in m;
  }

  ghost function MinOf(m: multiset<nat>): (x: nat)
    requires |m| > 0
    ensures Smallest(m, x)
  {
    SomeSmallest(m);
    var x :| Smallest(m, x);
    x
  }

  lemma SomeSmallest(m: multiset<nat>)
    requires |m| > 0
    ensures exists x :: Smallest(m, x)
  {
    var x := SmallestExists(m);
  }

  lemma SecondExists(m: multiset<nat>) returns (x: nat, y: nat)
    requires |m| > 1
    ensures TwoSmallest(m, x, y) && HasPair(m, x, y)
  {
    x := SmallestExists(m);
    y := SmallestExists(m - multiset{x});
    assert y in m - multiset{x};
  }

  /** What always joining two smallest pieces costs. */
  ghost function Greedy(m: multiset<nat>): nat
    decreases |m|
  {
    if |m| <= 1 then 0 else
      var x := MinOf(m);
      var y := MinOf(m - multiset{x});
      assert y in m - multiset{x};
      JoinedCount(m, x, y);
      x + y + Greedy(Joined(m, x, y))
  }

  lemma GreedyStep(m: multiset<nat>, x: nat, y: nat)
    requires |m| > 1 && TwoSmallest(m, x, y)
    ensures Greedy(m) == x + y + Greedy(Joined(m, x, y))
  {
    var x', y' := MinOf(m), MinOf(m - multiset{MinOf(m)});
    assert x == x' && y == y';
  }

  lemma SmallestAreLeaves(m: multiset<nat>, t: Tree, x: nat, y: nat)
    requires m == Leaves(t) && TwoSmallest(m, x, y)
    ensures TwoSmallestLeaves(t, x, y)
  {
    LeavesFacts(t);
    hide Leaves, Count;
    var rest := m - multiset{x};
    assert y in rest && rest[y] == m[y] - Is(y, x);
    forall z | Count(t, z) > 0 ensures x <= z {
      assert m[z] > 0;
    }
    forall z | Count(t, z) > Is(z, x) ensures y <= z {
      assert rest[z] == m[z] - Is(z, x);
    }
  }

  lemma SameLeaves(m: multiset<nat>, t: Tree)
    requires forall z: nat :: m[z] == Count(t, z)
    ensures m == Leaves(t)
  {
    LeavesFacts(t);
    hide Leaves, Count;
    assert forall z: nat :: m[z] == Leaves(t)[z];
  }

  lemma {:induction false} GreedyBeatsTrees(t: Tree, m: multiset<nat>)
    requires m == Leaves(t)
    ensures Greedy(m) <= Cost(t)
    decreases |m|
  {
    LeavesFacts(t);
    hide Leaves, Cost;
    if t.Node? {
      var x, y := SecondExists(m);
      SmallestAreLeaves(m, t, x, y);
      var t' := Contract(t, x, y);
      JoinedCount(m, x, y);
      SameLeaves(Joined(m, x, y), t');
      GreedyStep(m, x, y);
      GreedyBeatsTrees(t', Joined(m, x, y));
    }
  }

  lemma ExpandJoined(m: multiset<nat>, a: nat, b: nat, t: Tree) returns (t': Tree)
    requires HasPair(m, a, b) && Leaves(t) == Joined(m, a, b)
    ensures m == Leaves(t') && Cost(t') == Cost(t) + a + b
  {
    LeavesFacts(t);
    JoinedCount(m, a, b);
    hide Leaves, Cost, Count;
    assert Joined(m, a, b)[a + b] > 0;
    t' := Expand(t, a, b);
    SameLeaves(m, t');
  }

  lemma {:induction false} GreedyTree(m: multiset<nat>) returns (t: Tree)
    requires |m| > 0
    ensures Leaves(t) == m && Cost(t) == Greedy(m)
    decreases |m|
  {
    if |m| == 1 {
      var x := NonEmpty(m);
      SingletonIs(m, x);
      t := Leaf(x);
    } else {
      hide Leaves, Cost;
      var x, y := SecondExists(m);
      JoinedCount(m, x, y);
      GreedyStep(m, x, y);
      var t' := GreedyTree(Joined(m, x, y));
      t := ExpandJoined(m, x, y, t');
    }
  }

  lemma SingletonIs(m: multiset<nat>, x: nat)
    requires |m| == 1 && x in m
    ensures m == multiset{x}
  {
    assert |m - multiset{x}| == 0;
  }

  /** Whatever two pieces are joined first, greedy joining of the whole costs no more. */
  lemma AnyFirstJoin(m: multiset<nat>, a: nat, b: nat)
    requires HasPair(m, a, b)
    ensures Greedy(m) <= a + b + Greedy(Joined(m, a, b))
  {
    JoinedCount(m, a, b);
    var t := GreedyTree(Joined(m, a, b));
    var t' := ExpandJoined(m, a, b, t);
    GreedyBeatsTrees(t', m);
  }

  lemma {:induction false} NoOrderIsCheaper(m: multiset<nat>, order: seq<(nat, nat)>)
    requires IsOrder(m, order)
    ensures Greedy(m) <= OrderCost(order)
    decreases |order|
  {
    if |m| > 1 {
      AnyFirstJoin(m, order[0].0, order[0].1);
      NoOrderIsCheaper(Joined(m, order[0].0, order[0].1), order[1..]);
    }
  }

  lemma {:induction false} GreedyOrder(m: multiset<nat>) returns (order: seq<(nat, nat)>)
    ensures IsOrder(m, order) && OrderCost(order) == Greedy(m)
    decreases |m|
  {
    if |m| <= 1 {
      order := [];
    } else {
      var x, y := SecondExists(m);
      JoinedCount(m, x, y);
      GreedyStep(m, x, y);
      var rest := GreedyOrder(Joined(m, x, y));
      order := [(x, y)] + rest;
      assert order[1..] == rest;
    }
  }

  /** Greedy joining is the least over all orders. */
  lemma GreedyIsLeast(m: multiset<nat>)
    ensures IsLeastCost(m, Greedy(m))
  {
    var order := GreedyOrder(m);
    forall other | IsOrder(m, other) ensures Greedy(m) <= OrderCost(other) {
      NoOrderIsCheaper(m, other);
    }
  }

  // ----- the programs

  lemma PolledPair(m: multiset<nat>, x: nat, y: nat)
    requires |m| > 1 && Smallest(m, x) && Smallest(m - multiset{x}, y)
    ensures Greedy(m) == x + y + Greedy(Joined(m, x, y)) && |Joined(m, x, y)| == |m| - 1
  {
    GreedyStep(m, x, y);
    assert y in m - multiset{x};
    JoinedCount(m, x, y);
  }

  /** The queue loop. */
  method GetLessMoneySplitGold(arr: seq<nat>) returns (sum: nat)
    ensures IsLeastCost(multiset(arr), sum)
  {
    var queue: multiset<nat> := multiset(arr);
    GreedyIsLeast(queue);
    EndsAtZero();
    hide IsLeastCost, Greedy;
    sum := 0;
    while |queue| > 1
      invariant sum + Greedy(queue) == Greedy(multiset(arr))
      decreases |queue|
    {
      ghost var _ := SmallestExists(queue);
      var x :| x in queue && Smallest(queue, x);
      ghost var _ := SmallestExists(queue - multiset{x});
      var y :| y in queue - multiset{x} && Smallest(queue - multiset{x}, y);
      PolledPair(queue, x, y);
      queue := Joined(queue, x, y);
      sum := sum + x + y;
    }
  }

  lemma EndsAtZero()
    ensures forall m: multiset<nat> :: |m| <= 1 ==> Greedy(m) == 0
  {
  }

  /** The first k pieces but those at i and j. */
  ghost function Others(arr: seq<nat>, i: nat, j: nat, k: nat): seq<nat>
    requires i < j < |arr| && k <= |arr|
  {
    if k <= i then arr[..k]
    else if k <= j then arr[..i] + arr[i + 1..k]
    else arr[..i] + arr[i + 1..j] + arr[j + 1..k]
  }

  lemma TakeTwo(a: multiset<nat>, b: multiset<nat>, c: multiset<nat>, x: nat, y: nat, m: multiset<nat>)
    requires m == a + multiset{x} + b + multiset{y} + c
    ensures HasPair(m, x, y) && Joined(m, x, y) == a + b + c + multiset{x + y}
  {
    assert m - multiset{x} == a + b + c + multiset{y};
    assert m - multiset{x} - multiset{y} == a + b + c;
  }

  lemma SplitAt(s: seq<nat>, k: nat)
    requires k < |s|
    ensures multiset(s) == multiset(s[..k]) + multiset{s[k]} + multiset(s[k + 1..])
  {
    assert s == s[..k] + [s[k]] + s[k + 1..];
  }

  lemma SplitAtTwo(arr: seq<nat>, i: nat, j: nat)
    requires i < j < |arr|
    ensures multiset(arr)
         == multiset(arr[..i]) + multiset{arr[i]} + multiset(arr[i + 1..j]) + multiset{arr[j]} + multiset(arr[j + 1..])
  {
    SplitAt(arr, j);
    SplitAt(arr[..j], i);
    assert arr[..j][..i] == arr[..i] && arr[..j][i + 1..] == arr[i + 1..j];
  }

  lemma OthersElements(arr: seq<nat>, i: nat, j: nat, ans: seq<nat>, x: nat)
    requires i < j < |arr| && ans == Others(arr, i, j, |arr|) + [x]
    ensures multiset(ans) == multiset(arr[..i]) + multiset(arr[i + 1..j]) + multiset(arr[j + 1..]) + multiset{x}
  {
    assert ans == arr[..i] + arr[i + 1..j] + arr[j + 1..] + [x];
  }

  lemma MergedTwo(arr: seq<nat>, i: nat, j: nat, ans: seq<nat>)
    requires i < j < |arr| && ans == Others(arr, i, j, |arr|) + [arr[i] + arr[j]]
    ensures HasPair(multiset(arr), arr[i], arr[j]) && multiset(ans) == Joined(multiset(arr), arr[i], arr[j])
  {
    hide Joined, HasPair, Others;
    SplitAtTwo(arr, i, j);
    OthersElements(arr, i, j, ans, arr[i] + arr[j]);
    TakeTwo(multiset(arr[..i]), multiset(arr[i + 1..j]), multiset(arr[j + 1..]), arr[i], arr[j], multiset(arr));
  }

  method CopyAndMergeTwo(arr: seq<nat>, i: nat, j: nat) returns (ans: seq<nat>)
    requires i < j < |arr|
    ensures |ans| == |arr| - 1 && HasPair(multiset(arr), arr[i], arr[j])
    ensures multiset(ans) == Joined(multiset(arr), arr[i], arr[j])
    ensures ans == arr[..i] + arr[i + 1..j] + arr[j + 1..] + [arr[i] + arr[j]]
  {
    ans := [];
    for k := 0 to |arr|
      invariant ans == Others(arr, i, j, k)
    {
      if k != i && k != j {
        ans := ans + [arr[k]];
      }
    }
    ans := ans + [arr[i] + arr[j]];
    MergedTwo(arr, i, j, ans);
  }

  lemma {:induction false} Occurrence(arr: seq<nat>, x: nat, n: nat) returns (p: nat)
    requires n <= |arr| && multiset(arr[..n])[x] > 0
    ensures p < n && arr[p] == x && multiset(arr[..p])[x] == multiset(arr[..n])[x] - 1
  {
    assert arr[..n] == arr[..n - 1] + [arr[n - 1]];
    if arr[n - 1] == x {
      p := n - 1;
    } else {
      p := Occurrence(arr, x, n - 1);
    }
  }

  lemma IndicesOf(arr: seq<nat>, x: nat, y: nat) returns (p: nat, q: nat)
    requires HasPair(multiset(arr), x, y)
    ensures p < q < |arr| && ((arr[p] == x && arr[q] == y) || (arr[p] == y && arr[q] == x))
  {
    assert arr[..|arr|] == arr;
    q := Occurrence(arr, x, |arr|);
    if x == y {
      p := Occurrence(arr, x, q);
    } else {
      p := Occurrence(arr, y, |arr|);
      p, q := if p < q then p else q, if p < q then q else p;
    }
  }

  lemma SmallestPairAt(arr: seq<nat>, p: nat, q: nat, x: nat, y: nat)
    requires p < q < |arr| && ((arr[p] == x && arr[q] == y) || (arr[p] == y && arr[q] == x))
    requires TwoSmallest(multiset(arr), x, y) && |arr| > 1
    ensures arr[p] + arr[q] + Greedy(Joined(multiset(arr), arr[p], arr[q])) == Greedy(multiset(arr))
  {
    var m := multiset(arr);
    GreedyStep(m, x, y);
    hide Greedy;
    JoinedCommutes(m, x, y);
  }

  lemma JoinedCommutes(m: multiset<nat>, x: nat, y: nat)
    ensures Joined(m, x, y) == Joined(m, y, x)
  {
    assert m - multiset{x} - multiset{y} == m - multiset{y} - multiset{x};
  }

  /** The cost of the best order that joins pieces i and j first. */
  method TryPair(arr: seq<nat>, pre: nat, i: nat, j: nat, ghost p: nat, ghost q: nat) returns (cost: nat)
    requires i < j < |arr| && p < q < |arr|
    requires arr[p] + arr[q] + Greedy(Joined(multiset(arr), arr[p], arr[q])) == Greedy(multiset(arr))
    ensures cost >= pre + Greedy(multiset(arr))
    ensures i == p && j == q ==> cost == pre + Greedy(multiset(arr))
    decreases |arr|, 0
  {
    var merged := CopyAndMergeTwo(arr, i, j);
    hide Greedy, IsLeastCost, Joined;
    AnyFirstJoin(multiset(arr), arr[i], arr[j]);
    cost := Process(merged, pre + arr[i] + arr[j]);
  }

  /** Tries every second piece j for the first piece i. */
  method TryFirst(arr: seq<nat>, pre: nat, i: nat, best0: Option<nat>, ghost p: nat, ghost q: nat)
      returns (best: Option<nat>)
    requires i < |arr| && p < q < |arr|
    requires arr[p] + arr[q] + Greedy(Joined(multiset(arr), arr[p], arr[q])) == Greedy(multiset(arr))
    requires best0.Some? ==> best0.value >= pre + Greedy(multiset(arr))
    ensures best.Some? ==> best.value >= pre + Greedy(multiset(arr))
    ensures i == p || best0 == Some(pre + Greedy(multiset(arr))) ==> best == Some(pre + Greedy(multiset(arr)))
    decreases |arr|, 1
  {
    hide Greedy, Joined;
    ghost var least := pre + Greedy(multiset(arr));
    best := best0;
    for j := i + 1 to |arr|
      invariant best.Some? ==> best.value >= least
      invariant best0 == Some(least) || (i == p && j > q) ==> best == Some(least)
    {
      var cost := TryPair(arr, pre, i, j, p, q);
      best := Least(best, Some(cost));
    }
  }

  /** The exhaustive recursion over which two pieces to join next. */
  method Process(arr: seq<nat>, pre: nat) returns (ans: nat)
    requires |arr| > 0
    ensures ans == pre + Greedy(multiset(arr)) && IsLeastCost(multiset(arr), ans - pre)
    decreases |arr|, 3
  {
    ghost var m: multiset<nat> := multiset(arr);
    GreedyIsLeast(m);
    EndsAtZero();
    hide IsLeastCost, Greedy;
    if |arr| == 1 {
      return pre;
    }
    ghost var p, q := SmallestPair(arr);
    ans := TryAll(arr, pre, p, q);
  }

  method TryAll(arr: seq<nat>, pre: nat, ghost p: nat, ghost q: nat) returns (ans: nat)
    requires p < q < |arr|
    requires arr[p] + arr[q] + Greedy(Joined(multiset(arr), arr[p], arr[q])) == Greedy(multiset(arr))
    ensures ans == pre + Greedy(multiset(arr))
    decreases |arr|, 2
  {
    hide Greedy, Joined;
    var best: Option<nat> := None;
    for i := 0 to |arr|
      invariant best.Some? ==> best.value >= pre + Greedy(multiset(arr))
      invariant i > p ==> best == Some(pre + Greedy(multiset(arr)))
    {
      best := TryFirst(arr, pre, i, best, p, q);
    }
    ans := best.value;
  }

  lemma SmallestPair(arr: seq<nat>) returns (p: nat, q: nat)
    requires |arr| > 1
    ensures p < q < |arr|
    ensures arr[p] + arr[q] + Greedy(Joined(multiset(arr), arr[p], arr[q])) == Greedy(multiset(arr))
  {
    var x, y := SecondExists(multiset(arr));
    p, q := IndicesOf(arr, x, y);
    SmallestPairAt(arr, p, q, x, y);
  }

  method LessMoney1(arr: seq<nat>) returns (ans: nat)
    ensures IsLeastCost(multiset(arr), ans)
  {
    if |arr| == 0 {
      GreedyIsLeast(multiset(arr));
      return 0;
    }
    ans := Process(arr, 0);
  }
}
