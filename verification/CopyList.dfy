/**
 Copying a linked list whose nodes also point anywhere in the list: by weaving the copies
 into the original and splitting them off again, and through a map from nodes to copies.
*/
module CopyList {

  class Node {
    var val: int
    var next: Node?
    var random: Node?

    constructor (val: int)
      ensures this.val == val && next == null && random == null
    {
      this.val := val;
      next, random := null, null;
    }
  }

  ghost function At(s: seq<Node>, k: int): Node? {
    if 0 <= k < |s| then s[k] else null
  }

  ghost predicate Distinct(s: seq<Node>) {
    forall i, j :: 0 <= i < j < |s| ==> s[i] != s[j]
  }

  ghost predicate Apart(s: seq<Node>, t: seq<Node>) {
    forall i, j :: 0 <= i < |s| && 0 <= j < |t| ==> s[i] != t[j]
  }

  ghost predicate Linked(s: seq<Node>)
    reads s`next
  {
    forall i {:trigger s[i].next} :: 0 <= i < |s| ==> s[i].next == At(s, i + 1)
  }

  /** Node i's random link leads to node rnd[i], or nowhere when rnd[i] is -1. */
  ghost predicate Randoms(s: seq<Node>, rnd: seq<int>)
    reads s`random
  {
    && |rnd| == |s| && (forall i :: 0 <= i < |s| ==> -1 <= rnd[i] < |s|)
    && forall i {:trigger s[i].random} :: 0 <= i < |s| ==> s[i].random == At(s, rnd[i])
  }

  ghost predicate Vals(s: seq<Node>, vals: seq<int>)
    reads s`val
  {
    |vals| == |s| && forall i :: 0 <= i < |s| ==> s[i].val == vals[i]
  }

  /** The whole shape of a list: its nodes in order, their values and where the random links lead. */
  ghost predicate IsList(head: Node?, s: seq<Node>, vals: seq<int>, rnd: seq<int>)
    reads s
  {
    head == At(s, 0) && Distinct(s) && Linked(s) && Randoms(s, rnd) && Vals(s, vals)
  }

  lemma {:induction false} NodesAreDetermined(head: Node?, s: seq<Node>, t: seq<Node>, i: int)
    requires head == At(s, 0) == At(t, 0) && Linked(s) && Linked(t) && 0 <= i <= |s|
    ensures At(s, i) == At(t, i)
    decreases i
  {
    if i > 0 {
      NodesAreDetermined(head, s, t, i - 1);
      assert s[i - 1].next == At(s, i) && t[i - 1].next == At(t, i);
    }
  }

  lemma SameNodes(head: Node?, s: seq<Node>, t: seq<Node>)
    requires head == At(s, 0) == At(t, 0) && Linked(s) && Linked(t) && |s| <= |t|
    ensures s == t
  {
    hide Linked;
    forall i | 0 <= i <= |s| ensures At(s, i) == At(t, i) {
      NodesAreDetermined(head, s, t, i);
    }
    assert At(s, |s|) == At(t, |s|);
    forall i | 0 <= i < |s| ensures s[i] == t[i] {
      assert At(s, i) == At(t, i);
    }
  }

  /** A head node has one shape only, so describing two lists alike makes them isomorphic. */
  lemma ShapeIsDetermined(head: Node?, s: seq<Node>, vals: seq<int>, rnd: seq<int>,
                          s': seq<Node>, vals': seq<int>, rnd': seq<int>)
    requires IsList(head, s, vals, rnd) && IsList(head, s', vals', rnd')
    ensures s == s' && vals == vals' && rnd == rnd'
  {
    if |s| <= |s'| {
      SameNodes(head, s, s');
    } else {
      SameNodes(head, s', s);
    }
    forall i | 0 <= i < |s| ensures rnd[i] == rnd'[i] {
      assert s[i].random == At(s, rnd[i]) == At(s, rnd'[i]);
      assert forall j, k :: 0 <= j < k < |s| ==> s[j] != s[k];
    }
  }

  /** The first i originals each followed by its copy. */
  ghost predicate Woven(s: seq<Node>, t: seq<Node>, i: int)
    reads s`next, t`next
  {
    && 0 <= i <= |t| <= |s|
    && (forall j {:trigger s[j].next} {:trigger t[j].next} :: 0 <= j < i ==>
        s[j].next == t[j] && t[j].next == At(s, j + 1))
    && (forall j {:trigger s[j].next} :: i <= j < |s| ==> s[j].next == At(s, j + 1))
  }

  method CopyRandomNode(head: Node?, ghost s: seq<Node>, ghost vals: seq<int>, ghost rnd: seq<int>)
      returns (res: Node?, ghost t: seq<Node>)
    requires IsList(head, s, vals, rnd)
    modifies s
    ensures IsList(head, s, vals, rnd)
    ensures fresh(t) && |t| == |s| && IsList(res, t, vals, rnd)
  {
    t := [];
    if head == null {
      return null, [];
    }
    t := Weave(head, s, vals, rnd);
    CopyRandoms(head, s, t, vals, rnd);
    res := Split(head, s, t, vals, rnd);
  }

  ghost predicate Base(s: seq<Node>, t: seq<Node>, vals: seq<int>, rnd: seq<int>)
    reads s`random, s`val, t`val
  {
    Distinct(s) && Distinct(t) && Apart(s, t) && Randoms(s, rnd) && Vals(s, vals) && |t| <= |s| && Vals(t, vals[..|t|])
  }

  lemma OneMoreApart(s: seq<Node>, t: seq<Node>, node: Node)
    requires Distinct(t) && Apart(s, t) && node !in s && node !in t
    ensures Distinct(t + [node]) && Apart(s, t + [node])
  {
  }

  lemma OneMoreVal(t: seq<Node>, vals: seq<int>, node: Node)
    requires |t| < |vals| && Vals(t, vals[..|t|]) && node.val == vals[|t|]
    ensures Vals(t + [node], vals[..|t| + 1])
  {
  }

  lemma BaseGrows(s: seq<Node>, t: seq<Node>, vals: seq<int>, rnd: seq<int>, node: Node)
    requires Base(s, t, vals, rnd) && |t| < |s| && node.val == s[|t|].val
    requires node !in s && node !in t
    ensures Base(s, t + [node], vals, rnd)
  {
    assert node.val == vals[|t|];
    hide Distinct, Apart, Randoms, Vals;
    OneMoreApart(s, t, node);
    BaseSizes(s, t, vals, rnd);
    OneMoreVal(t, vals, node);
  }

  lemma BaseSizes(s: seq<Node>, t: seq<Node>, vals: seq<int>, rnd: seq<int>)
    requires Base(s, t, vals, rnd)
    ensures |vals| == |s| == |rnd|
  {
  }

  /** One turn of the first loop, the copy being made. */
  method WeaveOne(current: Node, node: Node, ghost s: seq<Node>, ghost t: seq<Node>) returns (next: Node?)
    requires Woven(s, t, |t|) && Distinct(s) && Apart(s, t) && |t| < |s| && current == s[|t|]
    requires node !in s && node !in t
    modifies current`next, node`next
    ensures Woven(s, t + [node], |t| + 1) && next == At(s, |t| + 1)
  {
    next := current.next;
    node.next := next;
    current.next := node;
  }

  method WeaveStep(current: Node, node: Node, ghost s: seq<Node>, ghost t: seq<Node>, ghost vals: seq<int>,
                   ghost rnd: seq<int>)
      returns (next: Node?)
    requires Base(s, t, vals, rnd) && Woven(s, t, |t|) && |t| < |s| && current == s[|t|]
    requires node !in s && node !in t && node.val == current.val
    modifies current`next, node`next
    ensures Base(s, t + [node], vals, rnd)
    ensures Woven(s, t + [node], |t| + 1) && next == At(s, |t| + 1)
  {
    BaseIs(s, t, vals, rnd);
    hide Base, Woven;
    next := WeaveOne(current, node, s, t);
    BaseGrows(s, t, vals, rnd, node);
  }

  method Weave(head: Node, ghost s: seq<Node>, ghost vals: seq<int>, ghost rnd: seq<int>) returns (ghost t: seq<Node>)
    requires IsList(head, s, vals, rnd)
    modifies s
    ensures fresh(t) && |t| == |s| && Base(s, t, vals, rnd) && Woven(s, t, |t|)
  {
    t := [];
    var current: Node? := head;
    assert Base(s, t, vals, rnd) && Woven(s, t, 0);
    hide Base, Woven;
    while current != null
      invariant fresh(t) && |t| <= |s| && current == At(s, |t|)
      invariant Base(s, t, vals, rnd) && Woven(s, t, |t|)
      decreases |s| - |t|
    {
      var node := new Node(current.val);
      current := WeaveStep(current, node, s, t, vals, rnd);
      t := t + [node];
    }
  }

  lemma BaseIs(s: seq<Node>, t: seq<Node>, vals: seq<int>, rnd: seq<int>)
    requires Base(s, t, vals, rnd)
    ensures Distinct(s) && Distinct(t) && Apart(s, t) && Randoms(s, rnd) && Vals(s, vals)
    ensures |t| <= |s| && Vals(t, vals[..|t|])
  {
  }

  ghost predicate RandomsUpTo(t: seq<Node>, rnd: seq<int>, i: int)
    reads t`random
  {
    && 0 <= i <= |t| == |rnd| && (forall j :: 0 <= j < i ==> -1 <= rnd[j] < |t|)
    && forall j {:trigger t[j].random} :: 0 <= j < i ==> t[j].random == At(t, rnd[j])
  }

  lemma WovenAt(s: seq<Node>, t: seq<Node>, i: int)
    requires Woven(s, t, |t|) && 0 <= i < |t|
    ensures s[i].next == t[i] && t[i].next == At(s, i + 1)
  {
  }

  lemma RandomAt(s: seq<Node>, rnd: seq<int>, i: int)
    requires Randoms(s, rnd) && 0 <= i < |s|
    ensures |rnd| == |s| && -1 <= rnd[i] < |s| && s[i].random == At(s, rnd[i])
  {
  }

  lemma AtBoth(s: seq<Node>, t: seq<Node>, k: int)
    requires |s| == |t|
    ensures (At(s, k) == null) == (At(t, k) == null)
    ensures At(s, k) != null ==> 0 <= k < |s| && At(s, k) == s[k] && At(t, k) == t[k]
  {
  }

  /** One turn of the second loop. */
  method CopyRandomOne(current: Node, ghost s: seq<Node>, ghost t: seq<Node>, ghost rnd: seq<int>, ghost i: int,
                       ghost twin: Node) returns (next: Node?)
    requires |t| == |s| && Woven(s, t, |t|) && Randoms(s, rnd) && RandomsUpTo(t, rnd, i)
    requires Distinct(t) && i < |s| && current == s[i] && twin == t[i]
    modifies twin`random
    ensures RandomsUpTo(t, rnd, i + 1) && next == At(s, i + 1)
  {
    hide Woven, Randoms, At;
    WovenAt(s, t, i);
    RandomAt(s, rnd, i);
    AtBoth(s, t, rnd[i]);
    if current.random != null {
      WovenAt(s, t, rnd[i]);
    }
    var copy := current.next;
    copy.random := if current.random == null then null else current.random.next;
    next := current.next.next;
  }

  method CopyRandoms(head: Node, ghost s: seq<Node>, ghost t: seq<Node>, ghost vals: seq<int>, ghost rnd: seq<int>)
    requires |t| == |s| && Base(s, t, vals, rnd) && Woven(s, t, |t|) && head == At(s, 0)
    modifies t`random
    ensures Base(s, t, vals, rnd) && Woven(s, t, |t|) && Randoms(t, rnd)
  {
    var current: Node? := head;
    ghost var i := 0;
    BaseIs(s, t, vals, rnd);
    assert RandomsUpTo(t, rnd, 0);
    hide Base, Woven, Randoms, RandomsUpTo, Distinct, Vals;
    while current != null
      invariant 0 <= i <= |s| && current == At(s, i)
      invariant Randoms(s, rnd) && Base(s, t, vals, rnd) && Woven(s, t, |t|) && RandomsUpTo(t, rnd, i)
      decreases |s| - i
    {
      current := CopyRandomOne(current, s, t, rnd, i, t[i]);
      i := i + 1;
    }
    RandomsDone(t, rnd);
  }

  lemma RandomsDone(t: seq<Node>, rnd: seq<int>)
    requires RandomsUpTo(t, rnd, |t|)
    ensures Randoms(t, rnd)
  {
  }

  ghost predicate Unwoven(s: seq<Node>, t: seq<Node>, i: int)
    reads s`next, t`next
  {
    && 0 <= i <= |t| == |s|
    && (forall j {:trigger s[j].next} {:trigger t[j].next} :: 0 <= j < i ==>
        s[j].next == At(s, j + 1) && t[j].next == At(t, j + 1))
    && (forall j {:trigger s[j].next} {:trigger t[j].next} :: i <= j < |s| ==>
        s[j].next == t[j] && t[j].next == At(s, j + 1))
  }

  /** One turn of the last loop. */
  method SplitOne(current: Node, ghost s: seq<Node>, ghost t: seq<Node>, ghost i: int, ghost twin: Node)
      returns (next: Node?)
    requires Unwoven(s, t, i) && Distinct(s) && Distinct(t) && Apart(s, t) && i < |s| && current == s[i] && twin == t[i]
    modifies current`next, twin`next
    ensures Unwoven(s, t, i + 1) && next == At(s, i + 1)
  {
    next := current.next.next;
    var copy := current.next;
    copy.next := if next == null then null else next.next;
    current.next := next;
  }

  method SplitStep(current: Node, ghost s: seq<Node>, ghost t: seq<Node>, ghost i: int, ghost vals: seq<int>,
                   ghost rnd: seq<int>, ghost twin: Node) returns (next: Node?)
    requires Base(s, t, vals, rnd) && Unwoven(s, t, i) && Randoms(t, rnd)
    requires 0 <= i < |s| == |t| && current == s[i] && twin == t[i]
    modifies current`next, twin`next
    ensures Base(s, t, vals, rnd) && Unwoven(s, t, i + 1) && Randoms(t, rnd) && next == At(s, i + 1)
  {
    BaseIs(s, t, vals, rnd);
    hide Base, Unwoven, Randoms;
    next := SplitOne(current, s, t, i, twin);
  }

  method Split(head: Node, ghost s: seq<Node>, ghost t: seq<Node>, ghost vals: seq<int>, ghost rnd: seq<int>)
      returns (res: Node?)
    requires |t| == |s| && Base(s, t, vals, rnd) && Woven(s, t, |t|) && Randoms(t, rnd) && head == At(s, 0)
    modifies s, t
    ensures IsList(head, s, vals, rnd) && IsList(res, t, vals, rnd)
  {
    res := head.next;
    var current: Node? := head;
    ghost var i := 0;
    assert Unwoven(s, t, 0);
    hide Base, Unwoven, Randoms, Woven;
    while current != null
      invariant 0 <= i <= |s| && current == At(s, i)
      invariant Base(s, t, vals, rnd) && Unwoven(s, t, i) && Randoms(t, rnd)
      decreases |s| - i
    {
      current := SplitStep(current, s, t, i, vals, rnd, t[i]);
      i := i + 1;
    }
    BaseIs(s, t, vals, rnd);
    SplitDone(s, t);
    assert vals[..|t|] == vals;
  }

  lemma SplitDone(s: seq<Node>, t: seq<Node>)
    requires Unwoven(s, t, |s|)
    ensures Linked(s) && Linked(t)
  {
  }

  // ----- the copy through a map

  /** The map so far sends node j to copy j, and the absent node nowhere. */
  ghost predicate Mapped(m: map<Node, Node>, s: seq<Node>, t: seq<Node>) {
    && |t| <= |s| && m.Keys == (set j | 0 <= j < |t| :: s[j])
    && forall j :: 0 <= j < |t| ==> s[j] in m && m[s[j]] == t[j]
  }

  function Get(m: map<Node, Node>, n: Node?): Node? {
    if n != null && n in m then m[n] else null
  }

  lemma GetIs(m: map<Node, Node>, s: seq<Node>, t: seq<Node>, k: int)
    requires Mapped(m, s, t) && |s| == |t|
    ensures Get(m, At(s, k)) == At(t, k)
  {
  }

  lemma PutNext(m: map<Node, Node>, s: seq<Node>, t: seq<Node>, node: Node)
    requires Mapped(m, s, t) && |t| < |s| && Distinct(s)
    ensures Mapped(m[s[|t|] := node], s, t + [node])
  {
  }

  /** One turn of the first loop, the copy being made. */
  lemma MapOne(m: map<Node, Node>, s: seq<Node>, t: seq<Node>, vals: seq<int>, rnd: seq<int>, index: Node, node: Node)
    requires Base(s, t, vals, rnd) && Mapped(m, s, t) && |t| < |s| && index == s[|t|]
    requires node !in s && node !in t && node.val == index.val
    ensures Base(s, t + [node], vals, rnd) && Mapped(m[index := node], s, t + [node])
  {
    BaseGrows(s, t, vals, rnd, node);
    PutNext(m, s, t, node);
  }

  method MakeCopies(head: Node?, ghost s: seq<Node>, ghost vals: seq<int>, ghost rnd: seq<int>)
      returns (m: map<Node, Node>, ghost t: seq<Node>)
    requires IsList(head, s, vals, rnd)
    ensures fresh(t) && |t| == |s| && Mapped(m, s, t) && Base(s, t, vals, rnd)
  {
    m, t := map[], [];
    var index := head;
    assert Base(s, t, vals, rnd);
    NothingMapped(s);
    hide Base, Mapped, Randoms, Vals, Distinct, Linked;
    while index != null
      invariant fresh(t) && |t| <= |s| && index == At(s, |t|) && Linked(s)
      invariant Base(s, t, vals, rnd) && Mapped(m, s, t)
      decreases |s| - |t|
    {
      var node := new Node(index.val);
      NextIs(s, |t|);
      MapOne(m, s, t, vals, rnd, index, node);
      m := m[index := node];
      t := t + [node];
      index := index.next;
    }
  }

  lemma NothingMapped(s: seq<Node>)
    ensures Mapped(map[], s, [])
  {
  }

  ghost predicate LinkedUpTo(t: seq<Node>, i: int)
    reads t`next
  {
    0 <= i <= |t| && forall j {:trigger t[j].next} :: 0 <= j < i ==> t[j].next == At(t, j + 1)
  }

  lemma LinkFacts(m: map<Node, Node>, s: seq<Node>, t: seq<Node>, vals: seq<int>, rnd: seq<int>, i: int)
    requires |t| == |s| && Base(s, t, vals, rnd) && Linked(s) && Mapped(m, s, t) && 0 <= i < |s|
    ensures |rnd| == |s| && -1 <= rnd[i] < |s| && Distinct(t) && t[i] !in s
    ensures Get(m, s[i]) == t[i] && s[i].next == At(s, i + 1)
    ensures Get(m, s[i].next) == At(t, i + 1) && Get(m, s[i].random) == At(t, rnd[i])
  {
    BaseIs(s, t, vals, rnd);
    hide Base, Randoms, Linked, Get, Mapped, Vals;
    NextIs(s, i);
    RandomAt(s, rnd, i);
    GetIs(m, s, t, i);
    GetIs(m, s, t, i + 1);
    GetIs(m, s, t, rnd[i]);
  }

  /** One turn of the second loop. */
  method LinkOne(m: map<Node, Node>, index: Node, ghost s: seq<Node>, ghost t: seq<Node>, ghost vals: seq<int>,
                 ghost rnd: seq<int>, ghost i: int, ghost twin: Node) returns (next: Node?)
    requires |t| == |s| && Base(s, t, vals, rnd) && Linked(s) && Mapped(m, s, t)
    requires LinkedUpTo(t, i) && RandomsUpTo(t, rnd, i) && i < |s| && index == s[i] && twin == t[i]
    modifies twin`next, twin`random
    ensures LinkedUpTo(t, i + 1) && RandomsUpTo(t, rnd, i + 1)
    ensures Base(s, t, vals, rnd) && Linked(s) && next == At(s, i + 1)
  {
    hide Base, Mapped, Get, Linked, At;
    LinkFacts(m, s, t, vals, rnd, i);
    var copy := Get(m, index);
    next := index.next;
    var random := Get(m, index.random);
    copy.next := Get(m, next);
    copy.random := random;
  }

  method CopyWithHashMap(head: Node?, ghost s: seq<Node>, ghost vals: seq<int>, ghost rnd: seq<int>)
      returns (res: Node?, ghost t: seq<Node>)
    requires IsList(head, s, vals, rnd)
    ensures IsList(head, s, vals, rnd)
    ensures fresh(t) && |t| == |s| && IsList(res, t, vals, rnd)
  {
    var m;
    m, t := MakeCopies(head, s, vals, rnd);
    LinkCopies(m, head, s, t, vals, rnd);
    BaseIs(s, t, vals, rnd);
    GetIs(m, s, t, 0);
    res := Get(m, head);
    assert vals[..|t|] == vals;
  }

  method LinkCopies(m: map<Node, Node>, head: Node?, ghost s: seq<Node>, ghost t: seq<Node>, ghost vals: seq<int>,
                    ghost rnd: seq<int>)
    requires |t| == |s| && Base(s, t, vals, rnd) && Linked(s) && Mapped(m, s, t) && head == At(s, 0)
    modifies t
    ensures Base(s, t, vals, rnd) && Linked(s) && Linked(t) && Randoms(t, rnd)
  {
    var index := head;
    ghost var i := 0;
    BaseSizes(s, t, vals, rnd);
    BaseIs(s, t, vals, rnd);
    assert LinkedUpTo(t, 0) && RandomsUpTo(t, rnd, 0);
    hide Base, Mapped, Linked, LinkedUpTo, RandomsUpTo, Randoms, Vals, Distinct, Apart;
    while index != null
      invariant 0 <= i <= |s| && index == At(s, i) && Base(s, t, vals, rnd) && Linked(s)
      invariant LinkedUpTo(t, i) && RandomsUpTo(t, rnd, i)
      decreases |s| - i
    {
      index := LinkOne(m, index, s, t, vals, rnd, i, t[i]);
      i := i + 1;
    }
    LinkedDone(t);
    RandomsDone(t, rnd);
  }

  lemma NextIs(s: seq<Node>, i: int)
    requires Linked(s) && 0 <= i < |s|
    ensures s[i].next == At(s, i + 1)
  {
  }

  lemma LinkedDone(t: seq<Node>)
    requires LinkedUpTo(t, |t|)
    ensures Linked(t)
  {
  }
}
