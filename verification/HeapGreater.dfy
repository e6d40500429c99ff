/** A binary heap with a reverse index from elements to positions, so any element can be removed. */
module HeapGreater {

  // ----- orders and positions

  /** What a comparator promises; different elements may compare as equal. */
  ghost predicate IsOrder<T(!new)>(cmp: (T, T) -> int) {
    && (forall x, y {:trigger cmp(x, y)} :: cmp(x, y) < 0 <==> cmp(y, x) > 0)
    && forall x, y, z {:trigger cmp(x, y), cmp(y, z)} :: cmp(x, y) <= 0 && cmp(y, z) <= 0 ==> cmp(x, z) <= 0
  }

  /** (index - 1) / 2, rounding toward zero: the root is its own parent. */
  function Parent(i: int): (p: int)
    requires i >= 0
    ensures 0 <= p <= i && (i > 0 ==> p < i)
    ensures i > 0 ==> i == 2 * p + 1 || i == 2 * p + 2
  {
    if i == 0 then 0 else (i - 1) / 2
  }

  /** Position k is in order with its parent. */
  ghost predicate OkAt<T>(cmp: (T, T) -> int, h: seq<T>, k: int) {
    1 <= k < |h| ==> cmp(h[Parent(k)], h[k]) <= 0
  }

  ghost predicate IsHeap<T>(cmp: (T, T) -> int, h: seq<T>) {
    forall k {:trigger OkAt(cmp, h, k)} :: OkAt(cmp, h, k)
  }

  /** i's children are in order with i's parent. */
  ghost predicate Bridged<T>(cmp: (T, T) -> int, h: seq<T>, i: int) {
    forall c {:trigger Parent(c)} :: 1 <= c < |h| && Parent(c) == i && 1 <= i ==> cmp(h[Parent(i)], h[c]) <= 0
  }

  /** A heap but for the element at i, which may be out of order both ways. */
  ghost predicate HeapBut<T>(cmp: (T, T) -> int, h: seq<T>, i: int) {
    && 0 <= i < |h| && Bridged(cmp, h, i)
    && forall k {:trigger OkAt(cmp, h, k)} :: k != i && (k < 1 || Parent(k) != i) ==> OkAt(cmp, h, k)
  }

  /** A heap but for the element at i, which may be too small for its place. */
  ghost predicate Rising<T>(cmp: (T, T) -> int, h: seq<T>, i: int) {
    && 0 <= i < |h| && Bridged(cmp, h, i)
    && forall k {:trigger OkAt(cmp, h, k)} :: k != i ==> OkAt(cmp, h, k)
  }

  /** A heap but for the element at i, which may be too great for its place. */
  ghost predicate Sinking<T>(cmp: (T, T) -> int, h: seq<T>, i: int) {
    && 0 <= i < |h| && Bridged(cmp, h, i)
    && forall k {:trigger OkAt(cmp, h, k)} :: k < 1 || Parent(k) != i ==> OkAt(cmp, h, k)
  }

  ghost function Swapped<T>(h: seq<T>, i: int, j: int): (r: seq<T>)
    requires 0 <= i < |h| && 0 <= j < |h|
  {
    h[i := h[j]][j := h[i]]
  }

  lemma RiseOnce<T(!new)>(cmp: (T, T) -> int, h: seq<T>, i: int)
    requires IsOrder(cmp) && HeapBut(cmp, h, i) && cmp(h[i], h[Parent(i)]) < 0
    ensures Rising(cmp, Swapped(h, i, Parent(i)), Parent(i))
  {
    var p, t := Parent(i), Swapped(h, i, Parent(i));
    assert i >= 1;
    assert OkAt(cmp, h, p);
    forall k | k != p ensures OkAt(cmp, t, k) {
      if 1 <= k < |t| && k != i && Parent(k) != i {
        assert OkAt(cmp, h, k);
      }
    }
    forall c | 1 <= c < |t| && Parent(c) == p && 1 <= p ensures cmp(t[Parent(p)], t[c]) <= 0 {
      if c != i {
        assert OkAt(cmp, h, c);
      }
    }
  }

  lemma RisenIsHeapBut<T>(cmp: (T, T) -> int, h: seq<T>, i: int)
    requires Rising(cmp, h, i)
    ensures HeapBut(cmp, h, i)
  {
  }

  lemma RisenEnough<T(!new)>(cmp: (T, T) -> int, h: seq<T>, i: int)
    requires IsOrder(cmp) && 0 <= i < |h| && cmp(h[i], h[Parent(i)]) >= 0
    ensures OkAt(cmp, h, i)
  {
  }

  /** The position sink moves to: the smaller child if it is smaller than i's element, else i. */
  ghost predicate IsTarget<T>(cmp: (T, T) -> int, h: seq<T>, i: int, max: int) {
    && 0 <= i < |h| && 0 <= max < |h|
    && (max == i ==> forall c {:trigger Parent(c)} :: 1 <= c < |h| && Parent(c) == i ==> cmp(h[c], h[i]) >= 0)
    && (max != i ==> max >= 1 && Parent(max) == i && cmp(h[max], h[i]) < 0
                     && forall c {:trigger Parent(c)} :: 1 <= c < |h| && Parent(c) == i ==> cmp(h[max], h[c]) <= 0)
  }

  lemma SinkOnce<T(!new)>(cmp: (T, T) -> int, h: seq<T>, i: int, max: int)
    requires IsOrder(cmp) && Sinking(cmp, h, i) && IsTarget(cmp, h, i, max) && max != i
    ensures Sinking(cmp, Swapped(h, i, max), max)
  {
    var t := Swapped(h, i, max);
    forall k | k < 1 || Parent(k) != max ensures OkAt(cmp, t, k) {
      if 1 <= k < |t| && Parent(k) != i {
        assert OkAt(cmp, h, k);
      }
    }
    forall c | 1 <= c < |t| && Parent(c) == max ensures cmp(t[Parent(max)], t[c]) <= 0 {
      assert OkAt(cmp, h, c);
    }
  }

  lemma SunkEnough<T(!new)>(cmp: (T, T) -> int, h: seq<T>, i: int)
    requires IsOrder(cmp) && Sinking(cmp, h, i) && IsTarget(cmp, h, i, i)
    ensures IsHeap(cmp, h)
  {
    forall k ensures OkAt(cmp, h, k) {
      if 1 <= k < |h| && Parent(k) == i {
        assert cmp(h[k], h[i]) >= 0;
      }
    }
  }

  /** The root precedes everything. */
  lemma {:induction false} RootIsFirst<T(!new)>(cmp: (T, T) -> int, h: seq<T>, k: int)
    requires IsOrder(cmp) && IsHeap(cmp, h) && 0 <= k < |h|
    ensures cmp(h[0], h[k]) <= 0
    decreases k
  {
    if k > 0 {
      RootIsFirst(cmp, h, Parent(k));
      assert OkAt(cmp, h, k);
    }
  }

  // ----- the reverse index

  /** Every element of h is where m says, and m knows nothing else. */
  ghost predicate Indexed<T>(h: seq<T>, m: map<T, int>) {
    && (forall i :: 0 <= i < |h| ==> h[i] in m && m[h[i]] == i)
    && forall x :: x in m ==> 0 <= m[x] < |h| && h[m[x]] == x
  }

  lemma SwapIndexed<T>(h: seq<T>, m: map<T, int>, i: int, j: int)
    requires Indexed(h, m) && 0 <= i < |h| && 0 <= j < |h| && i != j
    ensures Indexed(Swapped(h, i, j), m[h[i] := j][h[j] := i]) && m[h[i] := j][h[j] := i].Keys == m.Keys
  {
  }

  lemma SwapPrefix<T>(h: seq<T>, n: int, i: int, j: int)
    requires 0 <= i < n <= |h| && 0 <= j < n
    ensures Swapped(h, i, j)[..n] == Swapped(h[..n], i, j) && Swapped(h, i, j)[n..] == h[n..]
  {
  }

  lemma PushIndexed<T>(h: seq<T>, m: map<T, int>, x: T)
    requires Indexed(h, m) && x !in m
    ensures Indexed(h + [x], m[x := |h|])
  {
  }

  lemma PopIndexed<T>(h: seq<T>, m: map<T, int>)
    requires Indexed(h, m) && h != []
    ensures Indexed(h[..|h| - 1], m - {h[|h| - 1]})
  {
  }

  /** An element held twice has two positions, and the index can name only one. */
  lemma TwiceIsNotIndexed<T>(h: seq<T>, m: map<T, int>, x: T)
    requires multiset(h)[x] >= 2
    ensures !Indexed(h, m)
  {
    assert x in h;
    var i :| 0 <= i < |h| && h[i] == x;
    var rest := h[..i] + h[i + 1..];
    assert h == h[..i] + [x] + h[i + 1..];
    assert multiset(h) == multiset(rest) + multiset{x};
    assert x in rest;
    var k :| 0 <= k < |rest| && rest[k] == x;
    var j := if k < i then k else k + 1;
    assert h[j] == x && i != j;
  }

  lemma SwapKeepsElements<T>(h: seq<T>, i: int, j: int)
    requires 0 <= i < |h| && 0 <= j < |h|
    ensures multiset(Swapped(h, i, j)) == multiset(h)
  {
  }

  /** The last element takes another's place. */
  lemma ReplaceIndexed<T>(h: seq<T>, m: map<T, int>, i: int)
    requires Indexed(h, m) && 0 <= i < |h| - 1
    ensures var last := h[|h| - 1]; Indexed(h[..|h| - 1][i := last], (m - {h[i]})[last := i])
  {
  }

  lemma PushRises<T(!new)>(cmp: (T, T) -> int, h: seq<T>, x: T)
    requires IsHeap(cmp, h)
    ensures Rising(cmp, h + [x], |h|)
  {
    var t := h + [x];
    forall k | k != |h| ensures OkAt(cmp, t, k) {
      assert OkAt(cmp, h, k);
    }
  }

  /** A heap whose element at i is replaced, or whose end is cut, is a heap but for i. */
  lemma ReplaceHeapBut<T(!new)>(cmp: (T, T) -> int, h: seq<T>, i: int, x: T, n: int)
    requires IsOrder(cmp) && IsHeap(cmp, h) && 0 <= i < n <= |h|
    ensures HeapBut(cmp, h[..n][i := x], i)
  {
    var t := h[..n][i := x];
    forall k | k != i && (k < 1 || Parent(k) != i) ensures OkAt(cmp, t, k) {
      assert OkAt(cmp, h, k);
    }
    forall c | 1 <= c < |t| && Parent(c) == i && 1 <= i ensures cmp(t[Parent(i)], t[c]) <= 0 {
      assert OkAt(cmp, h, c) && OkAt(cmp, h, i);
    }
  }

  lemma CutHeap<T>(cmp: (T, T) -> int, h: seq<T>, n: int)
    requires IsHeap(cmp, h) && 0 <= n <= |h|
    ensures IsHeap(cmp, h[..n])
  {
    forall k ensures OkAt(cmp, h[..n], k) {
      assert OkAt(cmp, h, k);
    }
  }

  lemma FixedAbove<T>(cmp: (T, T) -> int, h: seq<T>, i: int)
    requires HeapBut(cmp, h, i) && OkAt(cmp, h, i)
    ensures Sinking(cmp, h, i)
  {
  }

  lemma FixedRising<T>(cmp: (T, T) -> int, h: seq<T>, i: int)
    requires Rising(cmp, h, i) && OkAt(cmp, h, i)
    ensures IsHeap(cmp, h)
  {
  }

  lemma TopBut<T>(cmp: (T, T) -> int, h: seq<T>)
    requires HeapBut(cmp, h, 0)
    ensures Sinking(cmp, h, 0)
  {
  }

  lemma Targets<T(!new)>(cmp: (T, T) -> int, h: seq<T>, i: int, left: int, child: int, max: int)
    requires IsOrder(cmp) && 0 <= i && left == 2 * i + 1 < |h|
    requires child == if left + 1 < |h| && cmp(h[left], h[left + 1]) > 0 then left + 1 else left
    requires max == if cmp(h[child], h[i]) < 0 then child else i
    ensures IsTarget(cmp, h, i, max) && (max != i ==> i < max < |h|)
  {
  }

  lemma NoChildren<T>(cmp: (T, T) -> int, h: seq<T>, i: int)
    requires 0 <= i < |h| <= 2 * i + 1
    ensures IsTarget(cmp, h, i, i)
  {
  }

  class HeapGreater<T(==, !new)> {
    var heap: seq<T>
    var hashMap: map<T, int>
    var headSize: int
    const comparator: (T, T) -> int

    ghost predicate Sized()
      reads this
    {
      IsOrder(comparator) && 0 <= headSize <= |heap|
    }

    /** The heap itself, whatever the index says. */
    ghost predicate Ordered()
      reads this
    {
      Sized() && headSize == |heap| && IsHeap(comparator, heap)
    }

    ghost predicate Valid()
      reads this
    {
      Ordered() && Indexed(heap, hashMap)
    }

    constructor (comparator: (T, T) -> int)
      requires IsOrder(comparator)
      ensures Valid() && heap == [] && this.comparator == comparator
    {
      this.comparator := comparator;
      heap, hashMap, headSize := [], map[], 0;
    }

    method Swap(i: int, j: int)
      requires Sized() && 0 <= i < headSize && 0 <= j < headSize
      modifies this`heap, this`hashMap
      ensures Sized() && heap == Swapped(old(heap), i, j) && multiset(heap) == multiset(old(heap))
      ensures old(Indexed(heap, hashMap)) ==> Indexed(heap, hashMap)
      ensures heap[..headSize] == Swapped(old(heap[..headSize]), i, j) && heap[headSize..] == old(heap[headSize..])
    {
      SwapPrefix(heap, headSize, i, j);
      SwapKeepsElements(heap, i, j);
      if i == j {
        return;
      }
      if Indexed(heap, hashMap) {
        SwapIndexed(heap, hashMap, i, j);
      }
      var tmp, jTmp := heap[i], heap[j];
      heap := heap[i := jTmp];
      heap := heap[j := tmp];
      hashMap := hashMap[tmp := j];
      hashMap := hashMap[jTmp := i];
    }

    /** Moves an element up while it precedes its parent. */
    method Ascend(index: int) returns (ghost at: int)
      requires Sized() && HeapBut(comparator, heap[..headSize], index)
      modifies this`heap, this`hashMap
      ensures Sized() && multiset(heap) == multiset(old(heap)) && heap[headSize..] == old(heap[headSize..])
      ensures |heap| == old(|heap|) && (old(Indexed(heap, hashMap)) ==> Indexed(heap, hashMap))
      ensures 0 <= index < headSize && 0 <= at < headSize && heap[at] == old(heap[index])
      ensures Sinking(comparator, heap[..headSize], at)
      ensures old(Rising(comparator, heap[..headSize], index)) ==> IsHeap(comparator, heap[..headSize])
    {
      var i := index;
      ghost var x := heap[index];
      hide HeapBut, Rising, Sinking, IsHeap, Swapped, Indexed, IsOrder, OkAt;
      while comparator(heap[i], heap[Parent(i)]) < 0
        invariant Sized() && multiset(heap) == multiset(old(heap)) && heap[headSize..] == old(heap[headSize..])
        invariant |heap| == old(|heap|) && (old(Indexed(heap, hashMap)) ==> Indexed(heap, hashMap))
        invariant 0 <= i < headSize && heap[i] == x && HeapBut(comparator, heap[..headSize], i)
        invariant i == index ==> heap == old(heap)
        invariant i != index ==> Rising(comparator, heap[..headSize], i)
        decreases i
      {
        RiseOnce(comparator, heap[..headSize], i);
        Swap(i, Parent(i));
        i := Parent(i);
        RisenIsHeapBut(comparator, heap[..headSize], i);
      }
      RisenEnough(comparator, heap[..headSize], i);
      FixedAbove(comparator, heap[..headSize], i);
      if i != index || old(Rising(comparator, heap[..headSize], index)) {
        FixedRising(comparator, heap[..headSize], i);
      }
      at := i;
    }

    /** Moves an element down while a child precedes it, always past the first of its children. */
    method Sink(index: int)
      requires Sized() && Sinking(comparator, heap[..headSize], index)
      modifies this`heap, this`hashMap
      ensures Sized() && multiset(heap) == multiset(old(heap)) && heap[headSize..] == old(heap[headSize..])
      ensures |heap| == old(|heap|) && (old(Indexed(heap, hashMap)) ==> Indexed(heap, hashMap))
      ensures IsHeap(comparator, heap[..headSize])
    {
      var i := index;
      var left := i * 2 + 1;
      assert 0 <= index < headSize;
      hide Sinking, IsHeap, Swapped, Indexed, IsOrder, OkAt, IsTarget;
      while left < headSize
        invariant Sized() && multiset(heap) == multiset(old(heap)) && heap[headSize..] == old(heap[headSize..])
        invariant |heap| == old(|heap|) && (old(Indexed(heap, hashMap)) ==> Indexed(heap, hashMap))
        invariant 0 <= i < headSize && left == i * 2 + 1 && Sinking(comparator, heap[..headSize], i)
        decreases headSize - i
      {
        var child := if left + 1 < headSize && comparator(heap[left], heap[left + 1]) > 0 then left + 1 else left;
        var max := if comparator(heap[child], heap[i]) < 0 then child else i;
        Targets(comparator, heap[..headSize], i, left, child, max);
        if i == max {
          break;
        }
        SinkOnce(comparator, heap[..headSize], i, max);
        Swap(i, max);
        i := max;
        left := max * 2 + 1;
      }
      if left >= headSize {
        NoChildren(comparator, heap[..headSize], i);
      }
      SunkEnough(comparator, heap[..headSize], i);
    }

    /** One more element; the index stays right if and only if the element is not held already. */
    method Push(obj: T)
      requires Ordered()
      modifies this
      ensures Ordered() && multiset(heap) == multiset(old(heap)) + multiset{obj}
      ensures old(Valid()) ==> (Valid() <==> obj !in old(heap))
    {
      PushRises(comparator, heap, obj);
      RisenIsHeapBut(comparator, heap + [obj], |heap|);
      PushTracked(heap, hashMap, obj);
      hide Indexed, IsHeap, Rising, HeapBut, IsOrder;
      ghost var before := heap;
      heap := heap + [obj];
      hashMap := hashMap[obj := headSize];
      headSize := headSize + 1;
      assert heap[..headSize] == heap;
      ghost var _ := Ascend(headSize - 1);
      assert heap[..headSize] == heap;
      if obj in before {
        TwiceIsNotIndexed(heap, hashMap, obj);
      }
    }

    /** Takes out an element that precedes all others. */
    method Pop() returns (t: T)
      requires Ordered() && heap != []
      modifies this
      ensures Ordered() && t == old(heap[0]) && multiset(heap) == multiset(old(heap)) - multiset{t}
      ensures forall x :: x in old(heap) ==> comparator(t, x) <= 0
      ensures old(Valid()) ==> Valid()
    {
      hide IsHeap, Indexed, Sinking, Swapped, IsOrder;
      t := heap[0];
      FirstOfAll(comparator, heap);
      TopToEnd();
      if headSize > 0 {
        Sink(0);
      }
      DropEnd(t);
    }

    /** Exchanges the root with the last element, which then no longer counts. */
    method TopToEnd()
      requires Ordered() && heap != []
      modifies this
      ensures Sized() && headSize == |heap| - 1 && |heap| == old(|heap|) && heap[headSize..] == [old(heap[0])]
      ensures multiset(heap) == multiset(old(heap)) && (old(Indexed(heap, hashMap)) ==> Indexed(heap, hashMap))
      ensures if headSize > 0 then Sinking(comparator, heap[..headSize], 0) else IsHeap(comparator, heap[..headSize])
    {
      PoppedTop(comparator, heap, headSize - 1);
      hide IsHeap, Indexed, Sinking, Swapped, IsOrder;
      Swap(0, headSize - 1);
      headSize := headSize - 1;
    }

    method DropEnd(t: T)
      requires Sized() && headSize == |heap| - 1 && heap[headSize..] == [t] && IsHeap(comparator, heap[..headSize])
      modifies this
      ensures Ordered() && multiset(heap) == multiset(old(heap)) - multiset{t}
      ensures old(Indexed(heap, hashMap)) ==> Indexed(heap, hashMap)
    {
      assert heap[headSize] == heap[headSize..][0] == t;
      if Indexed(heap, hashMap) {
        PopIndexed(heap, hashMap);
      }
      hide IsHeap, Indexed, IsOrder;
      WithoutLast(heap);
      hashMap := hashMap - {t};
      heap := heap[..headSize];
      assert heap[..headSize] == heap;
    }

    method Contains(val: T) returns (b: bool)
      requires Valid()
      ensures b <==> val in heap
    {
      b := val in hashMap;
    }

    method Size() returns (n: int)
      requires Ordered()
      ensures n == |heap|
      ensures Valid() ==> n == |set x | x in heap|
    {
      if Valid() {
        DistinctCount(heap, set x | x in heap);
      }
      n := headSize;
    }

    /**
     Takes any element out of the middle: the last one fills its place and finds its own.  That
     goes right if and only if the last element is the one to go, or does not compare as equal
     to it; otherwise the last element is lost in its stead.
    */
    method Remove(obj: T)
      requires Valid() && obj in heap
      modifies this
      ensures Ordered() && (Valid() <==> old(heap[|heap| - 1]) == obj || comparator(old(heap[|heap| - 1]), obj) != 0)
      ensures Valid() ==> multiset(heap) == multiset(old(heap)) - multiset{obj}
      ensures !Valid() ==> multiset(heap) == multiset(old(heap)) - multiset{old(heap[|heap| - 1])}
    {
      var val := heap[headSize - 1];
      IndexOf(heap, hashMap, obj);
      var index := hashMap[obj];
      Removal(comparator, heap, hashMap, index);
      hide *;
      heap := heap[..headSize - 1];
      headSize := headSize - 1;
      hashMap := hashMap - {obj};
      if comparator(val, obj) != 0 {
        heap := heap[index := val];
        hashMap := hashMap[val := index];
        Adjust(val);
      } else {
        assert heap[..headSize] == heap;
      }
    }

    /** Puts one element right that may be out of order with its parent or its children. */
    method Adjust(obj: T)
      requires Sized() && headSize == |heap| && Indexed(heap, hashMap)
      requires obj in heap && HeapBut(comparator, heap, hashMap[obj])
      modifies this`heap, this`hashMap
      ensures Valid() && multiset(heap) == multiset(old(heap))
    {
      assert heap[..headSize] == heap && heap[hashMap[obj]] == obj;
      ghost var at := Ascend(hashMap[obj]);
      assert hashMap[heap[at]] == at;
      hide IsHeap, Indexed, HeapBut, Sinking, Rising, IsOrder;
      Sink(hashMap[obj]);
      assert heap[..headSize] == heap;
    }
  }

  /** Of two different elements that compare as equal, removing the one in front loses the other. */
  method RemoveBeforeTie<T(==, !new)>(cmp: (T, T) -> int, x: T, y: T) returns (asked: T, kept: seq<T>)
    requires IsOrder(cmp) && x != y && cmp(x, y) == 0 && cmp(y, x) == 0
    ensures asked in {x, y} && kept == [asked]
  {
    var h := new HeapGreater<T>(cmp);
    h.Push(x);
    h.Push(y);
    hide *;
    assert multiset(h.heap) == multiset{x, y} && |multiset(h.heap)| == 2;
    asked := h.heap[0];
    TwoElements(h.heap, x, y);
    h.Remove(asked);
    kept := h.heap;
    assert multiset(kept) == multiset{asked};
    OneElement(kept, asked);
  }

  lemma TwoElements<T>(h: seq<T>, x: T, y: T)
    requires multiset(h) == multiset{x, y} && x != y
    ensures |h| == 2 && (h == [x, y] || h == [y, x])
  {
    assert |h| == |multiset(h)| == 2;
    assert h == [h[0], h[1]];
    assert h[0] in multiset(h) && h[1] in multiset(h);
    assert multiset(h) == multiset{h[0], h[1]};
  }

  lemma OneElement<T>(h: seq<T>, x: T)
    requires multiset(h) == multiset{x}
    ensures h == [x]
  {
    assert |h| == |multiset(h)| == 1;
    assert h[0] in multiset(h);
  }

  lemma PushTracked<T>(h: seq<T>, m: map<T, int>, x: T)
    ensures Indexed(h, m) && x !in h ==> Indexed(h + [x], m[x := |h|])
  {
    if Indexed(h, m) && x !in h {
      PushIndexed(h, m, x);
    }
  }

  lemma WithoutLast<T>(h: seq<T>)
    requires h != []
    ensures multiset(h[..|h| - 1]) == multiset(h) - multiset{h[|h| - 1]}
  {
    assert h == h[..|h| - 1] + [h[|h| - 1]];
  }

  lemma ReplacedElements<T>(h: seq<T>, i: int)
    requires 0 <= i < |h| - 1
    ensures multiset(h[..|h| - 1][i := h[|h| - 1]]) == multiset(h) - multiset{h[i]}
  {
    WithoutLast(h);
  }

  lemma IndexOf<T>(h: seq<T>, m: map<T, int>, x: T)
    requires Indexed(h, m) && x in h
    ensures x in m && 0 <= m[x] < |h| && h[m[x]] == x
  {
  }

  /** Both branches of remove. */
  lemma Removal<T(!new)>(cmp: (T, T) -> int, h: seq<T>, m: map<T, int>, i: int)
    requires IsOrder(cmp) && IsHeap(cmp, h) && Indexed(h, m) && 0 <= i < |h|
    ensures var last, x, cut := h[|h| - 1], h[i], h[..|h| - 1];
            && (cmp(last, x) != 0 ==>
                 && i < |cut| && HeapBut(cmp, cut[i := last], i) && Indexed(cut[i := last], (m - {x})[last := i])
                 && last in cut[i := last] && ((m - {x})[last := i])[last] == i
                 && multiset(cut[i := last]) == multiset(h) - multiset{x})
            && IsHeap(cmp, cut) && (Indexed(cut, m - {x}) <==> last == x)
            && multiset(cut) == multiset(h) - multiset{last}
  {
    var last, x, cut := h[|h| - 1], h[i], h[..|h| - 1];
    WithoutLast(h);
    CutHeap(cmp, h, |h| - 1);
    LastRemoved(h, m, x);
    if cmp(last, x) != 0 {
      ReflexiveOrder(cmp, x);
      ReplaceIndexed(h, m, i);
      ReplaceHeapBut(cmp, h, i, last, |h| - 1);
      ReplacedElements(h, i);
      assert cut[i := last][i] == last;
    }
  }

  lemma ReflexiveOrder<T(!new)>(cmp: (T, T) -> int, x: T)
    requires IsOrder(cmp)
    ensures cmp(x, x) == 0
  {
  }

  /** Cutting the last element while forgetting another one breaks the index, unless they are the same. */
  lemma LastRemoved<T>(h: seq<T>, m: map<T, int>, x: T)
    requires Indexed(h, m) && x in h
    ensures Indexed(h[..|h| - 1], m - {x}) <==> h[|h| - 1] == x
  {
    if h[|h| - 1] == x {
      PopIndexed(h, m);
    } else {
      var i :| 0 <= i < |h| && h[i] == x;
      assert h[..|h| - 1][i] == x;
    }
  }

  lemma FirstOfAll<T(!new)>(cmp: (T, T) -> int, h: seq<T>)
    requires IsOrder(cmp) && IsHeap(cmp, h) && h != []
    ensures forall x :: x in h ==> cmp(h[0], x) <= 0
  {
    forall x | x in h ensures cmp(h[0], x) <= 0 {
      var k :| 0 <= k < |h| && h[k] == x;
      RootIsFirst(cmp, h, k);
    }
  }

  lemma PoppedTop<T(!new)>(cmp: (T, T) -> int, h: seq<T>, n: int)
    requires IsOrder(cmp) && IsHeap(cmp, h) && n == |h| - 1
    ensures n > 0 ==> Sinking(cmp, Swapped(h, 0, n)[..n], 0)
    ensures n == 0 ==> IsHeap(cmp, Swapped(h, 0, n)[..n])
    ensures n >= 0 ==> Swapped(h, 0, n)[n..] == [h[0]]
  {
    if n > 0 {
      ReplaceHeapBut(cmp, h, 0, h[n], n);
      assert Swapped(h, 0, n)[..n] == h[..n][0 := h[n]];
      TopBut(cmp, h[..n][0 := h[n]]);
    }
  }

  lemma {:induction false} DistinctCount<T>(h: seq<T>, s: set<T>)
    requires (forall i, j :: 0 <= i < j < |h| ==> h[i] != h[j]) && forall x :: x in s <==> x in h
    ensures |s| == |h|
  {
    if h == [] {
      assert s == {};
    } else {
      var last := h[|h| - 1];
      assert forall x :: x in h <==> x == last || x in h[..|h| - 1];
      DistinctCount(h[..|h| - 1], s - {last});
    }
  }
}
