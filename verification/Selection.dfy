/**
 Selecting the k-th smallest element in place: three-way partition, medians of groups of
 five, and the recursion whose left call widens the range back to the start of the array.
*/
module Selection {
  import opened Sorting
  import opened Numbers

  // ----- the specification

  /** v is the k-th smallest (from 0): at most k elements are smaller, more than k are not greater. */
  ghost predicate IsKth(s: seq<int>, k: int, v: int) {
    CountBelow(s, v) <= k < CountBelow(s, v + 1)
  }

  /** Everything before position k is at most everything from k on. */
  ghost predicate Splits(s: seq<int>, k: int) {
    0 <= k <= |s| && forall i, j :: 0 <= i < k <= j < |s| ==> s[i] <= s[j]
  }

  /** t is s with only positions l to h (exclusive) rearranged. */
  ghost predicate Rearranged(s: seq<int>, t: seq<int>, l: int, h: int) {
    && 0 <= l <= h <= |s| == |t|
    && s[..l] == t[..l] && s[h..] == t[h..] && multiset(s[l..h]) == multiset(t[l..h])
  }

  /** A placed element is the one of its rank. */
  lemma PlacedIsKth(s: seq<int>, t: seq<int>, k: int)
    requires multiset(s) == multiset(t) && 0 <= k < |t| && Splits(t, k) && Splits(t, k + 1)
    ensures IsKth(s, k, t[k])
  {
    CountPermutes(s, t, t[k]);
    CountPermutes(s, t, t[k] + 1);
    CountAtMost(t, k, t[k]);
    CountAtLeast(t, k + 1, t[k] + 1);
  }

  lemma {:induction false} CountMonotone(s: seq<int>, v: int, w: int)
    requires v <= w
    ensures CountBelow(s, v) <= CountBelow(s, w)
  {
    if s != [] {
      CountMonotone(s[1..], v, w);
    }
  }

  lemma KthIsUnique(s: seq<int>, k: int, v: int, w: int)
    requires IsKth(s, k, v) && IsKth(s, k, w)
    ensures v == w
  {
    if v < w {
      CountMonotone(s, v + 1, w);
    } else if w < v {
      CountMonotone(s, w + 1, v);
    }
  }

  // ----- rearrangements

  lemma RearrangedTransitive(s: seq<int>, t: seq<int>, u: seq<int>, l: int, h: int)
    requires Rearranged(s, t, l, h) && Rearranged(t, u, l, h)
    ensures Rearranged(s, u, l, h)
  {
  }

  lemma RearrangedWhole(s: seq<int>, t: seq<int>, l: int, h: int)
    requires Rearranged(s, t, l, h)
    ensures multiset(s) == multiset(t)
  {
    assert s == s[..l] + s[l..h] + s[h..];
    assert t == t[..l] + t[l..h] + t[h..];
  }

  lemma RearrangedWider(s: seq<int>, t: seq<int>, l: int, h: int, l': int, h': int)
    requires Rearranged(s, t, l, h) && 0 <= l' <= l && h <= h' <= |s|
    ensures Rearranged(s, t, l', h')
  {
    assert s[l'..h'] == s[..l][l'..] + s[l..h] + s[h..][..h' - h];
    assert t[l'..h'] == t[..l][l'..] + t[l..h] + t[h..][..h' - h];
    assert s[..l'] == s[..l][..l'] && t[..l'] == t[..l][..l'];
    assert s[h'..] == s[h..][h' - h..] && t[h'..] == t[h..][h' - h..];
  }

  /** Where an element of the rearranged stretch came from. */
  lemma Origin(s: seq<int>, t: seq<int>, l: int, h: int, i: int) returns (k: int)
    requires Rearranged(s, t, l, h) && 0 <= i < |t|
    ensures 0 <= k < |s| && s[k] == t[i] && (if l <= i < h then l <= k < h else k == i)
  {
    if l <= i < h {
      assert t[l..h][i - l] in multiset(t[l..h]);
      assert t[i] in s[l..h];
      var d :| 0 <= d < h - l && s[l..h][d] == t[i];
      k := l + d;
    } else if i < l {
      assert s[..l][i] == t[..l][i];
      k := i;
    } else {
      assert s[h..][i - h] == t[h..][i - h];
      k := i;
    }
  }

  /** Rearranging one side of a split keeps it. */
  lemma SplitsKept(s: seq<int>, t: seq<int>, l: int, h: int, k: int)
    requires Rearranged(s, t, l, h) && Splits(s, k) && (k <= l || h <= k)
    ensures Splits(t, k)
  {
    forall i, j | 0 <= i < k <= j < |t| ensures t[i] <= t[j] {
      var i' := Origin(s, t, l, h, i);
      var j' := Origin(s, t, l, h, j);
      assert s[i'] <= s[j'];
    }
  }

  ghost function Swapped(s: seq<int>, i: int, j: int): seq<int>
    requires 0 <= i < |s| && 0 <= j < |s|
  {
    s[i := s[j]][j := s[i]]
  }

  lemma SwapRearranges(s: seq<int>, i: int, j: int, l: int, h: int)
    requires 0 <= l <= i < h <= |s| && l <= j < h
    ensures Rearranged(s, Swapped(s, i, j), l, h)
  {
    var t := Swapped(s, i, j);
    assert t[l..h] == s[l..h][i - l := s[l..h][j - l]][j - l := s[l..h][i - l]];
  }

  /** The array's contents, as one value. */
  ghost function Elems(arr: array<int>): (s: seq<int>)
    reads arr
    ensures |s| == arr.Length
  {
    arr[..]
  }

  method Swap(arr: array<int>, i: int, j: int)
    requires 0 <= i < arr.Length && 0 <= j < arr.Length
    modifies arr
    ensures Elems(arr) == Swapped(old(Elems(arr)), i, j)
  {
    var tmp := arr[i];
    arr[i] := arr[j];
    arr[j] := tmp;
  }

  lemma SwapWithin(s: seq<int>, t: seq<int>, i: int, j: int, l: int, h: int)
    requires 0 <= l <= i < h <= |t| && l <= j < h && Rearranged(s, t, l, h)
    ensures Rearranged(s, Swapped(t, i, j), l, h)
  {
    SwapRearranges(t, i, j, l, h);
    hide Swapped;
    RearrangedTransitive(s, t, Swapped(t, i, j), l, h);
  }

  // ----- three-way partition

  /** Smaller elements up to less, equal ones up to cur, greater ones from more, unread between. */
  ghost predicate Sections(s: seq<int>, l: int, r: int, m: int, less: int, cur: int, more: int) {
    && 0 <= l && l - 1 <= less < cur <= more <= r + 1 <= |s|
    && (forall i :: l <= i <= less ==> s[i] < m)
    && (forall i :: less < i < cur ==> s[i] == m)
    && (forall i :: more <= i <= r ==> s[i] > m)
  }

  /** The partition's loop so far: t is s with l to r rearranged into sections. */
  ghost predicate Parting(s: seq<int>, t: seq<int>, l: int, r: int, m: int, less: int, cur: int, more: int) {
    Sections(t, l, r, m, less, cur, more) && Rearranged(s, t, l, r + 1)
  }

  lemma PartingStarts(s: seq<int>, l: int, r: int, m: int)
    requires 0 <= l <= r + 1 <= |s|
    ensures Parting(s, s, l, r, m, l - 1, l, r + 1)
  {
  }

  lemma SmallerSection(s: seq<int>, l: int, r: int, m: int, less: int, cur: int, more: int)
    requires Sections(s, l, r, m, less, cur, more) && cur < more && s[cur] < m
    ensures Sections(Swapped(s, cur, less + 1), l, r, m, less + 1, cur + 1, more)
  {
  }

  lemma GreaterSection(s: seq<int>, l: int, r: int, m: int, less: int, cur: int, more: int)
    requires Sections(s, l, r, m, less, cur, more) && cur < more && s[cur] > m
    ensures Sections(Swapped(s, cur, more - 1), l, r, m, less, cur, more - 1)
  {
  }

  lemma TakeSmaller(s: seq<int>, t: seq<int>, l: int, r: int, m: int, less: int, cur: int, more: int)
    requires Parting(s, t, l, r, m, less, cur, more) && 0 <= cur < more <= |t| && t[cur] < m && 0 <= less + 1 < |t|
    ensures Parting(s, Swapped(t, cur, less + 1), l, r, m, less + 1, cur + 1, more) && less + 1 < cur + 1
  {
    SmallerSection(t, l, r, m, less, cur, more);
    SwapWithin(s, t, cur, less + 1, l, r + 1);
  }

  lemma TakeGreater(s: seq<int>, t: seq<int>, l: int, r: int, m: int, less: int, cur: int, more: int)
    requires Parting(s, t, l, r, m, less, cur, more) && 0 <= cur < more <= |t| && t[cur] > m
    ensures Parting(s, Swapped(t, cur, more - 1), l, r, m, less, cur, more - 1) && cur <= more - 1
  {
    GreaterSection(t, l, r, m, less, cur, more);
    SwapWithin(s, t, cur, more - 1, l, r + 1);
  }

  /** The three stretches a partition leaves between l and r. */
  ghost predicate Parted(s: seq<int>, l: int, r: int, m: int, lo: int, hi: int) {
    && 0 <= l <= lo <= hi + 1 <= r + 1 <= |s|
    && (forall i :: l <= i < lo ==> s[i] < m)
    && (forall i :: lo <= i <= hi ==> s[i] == m)
    && (forall i :: hi < i <= r ==> s[i] > m)
  }

  ghost predicate PartingIn(s: seq<int>, arr: array<int>, l: int, r: int, m: int, less: int, cur: int, more: int)
    reads arr
  {
    |s| == arr.Length && Parting(s, Elems(arr), l, r, m, less, cur, more)
  }

  method Partition(arr: array<int>, l: int, r: int, m: int) returns (lo: int, hi: int)
    requires 0 <= l && r < arr.Length && l <= r + 1
    modifies arr
    ensures Rearranged(old(Elems(arr)), Elems(arr), l, r + 1) && Parted(Elems(arr), l, r, m, lo, hi)
  {
    ghost var s := Elems(arr);
    var less, more, cur := l - 1, r + 1, l;
    PartingStarts(s, l, r, m);
    hide *;
    while cur < more
      invariant l - 1 <= less < cur <= more <= r + 1
      invariant PartingIn(s, arr, l, r, m, less, cur, more)
      decreases more - cur
    {
      if arr[cur] < m {
        MoveDown(s, arr, l, r, m, less, cur, more);
        less, cur := less + 1, cur + 1;
      } else if arr[cur] > m {
        MoveUp(s, arr, l, r, m, less, cur, more);
        more := more - 1;
      } else {
        TakeEqual(s, arr, l, r, m, less, cur, more);
        cur := cur + 1;
      }
    }
    PartingDone(s, arr, l, r, m, less, cur, more);
    lo, hi := less + 1, more - 1;
  }

  lemma TakeEqual(s: seq<int>, arr: array<int>, l: int, r: int, m: int, less: int, cur: int, more: int)
    requires PartingIn(s, arr, l, r, m, less, cur, more) && 0 <= cur < more <= arr.Length && arr[cur] == m
    ensures PartingIn(s, arr, l, r, m, less, cur + 1, more)
  {
  }

  lemma PartingDone(s: seq<int>, arr: array<int>, l: int, r: int, m: int, less: int, cur: int, more: int)
    requires PartingIn(s, arr, l, r, m, less, cur, more) && cur == more
    ensures Rearranged(s, Elems(arr), l, r + 1) && Parted(Elems(arr), l, r, m, less + 1, more - 1)
  {
  }

  lemma PartingHolds(s: seq<int>, arr: array<int>, l: int, r: int, m: int, less: int, cur: int, more: int)
    requires |s| == arr.Length && Parting(s, Elems(arr), l, r, m, less, cur, more)
    ensures PartingIn(s, arr, l, r, m, less, cur, more)
  {
  }

  lemma DownIsParting(s: seq<int>, arr: array<int>, l: int, r: int, m: int, less: int, cur: int, more: int)
    requires 0 <= l && l - 1 <= less < cur < more <= r + 1 <= arr.Length
    requires PartingIn(s, arr, l, r, m, less, cur, more) && arr[cur] < m
    ensures |s| == arr.Length
    ensures Parting(s, Swapped(Elems(arr), cur, less + 1), l, r, m, less + 1, cur + 1, more)
  {
    hide Parting, Swapped;
    TakeSmaller(s, Elems(arr), l, r, m, less, cur, more);
  }

  lemma UpIsParting(s: seq<int>, arr: array<int>, l: int, r: int, m: int, less: int, cur: int, more: int)
    requires 0 <= l && l - 1 <= less < cur < more <= r + 1 <= arr.Length
    requires PartingIn(s, arr, l, r, m, less, cur, more) && arr[cur] > m
    ensures |s| == arr.Length
    ensures Parting(s, Swapped(Elems(arr), cur, more - 1), l, r, m, less, cur, more - 1)
  {
    hide Parting, Swapped;
    TakeGreater(s, Elems(arr), l, r, m, less, cur, more);
  }

  method MoveDown(ghost s: seq<int>, arr: array<int>, l: int, r: int, m: int, less: int, cur: int, more: int)
    requires 0 <= l && l - 1 <= less < cur < more <= r + 1 <= arr.Length
    requires PartingIn(s, arr, l, r, m, less, cur, more) && arr[cur] < m
    modifies arr
    ensures PartingIn(s, arr, l, r, m, less + 1, cur + 1, more)
  {
    hide *;
    DownIsParting(s, arr, l, r, m, less, cur, more);
    Swap(arr, cur, less + 1);
    PartingHolds(s, arr, l, r, m, less + 1, cur + 1, more);
  }

  method MoveUp(ghost s: seq<int>, arr: array<int>, l: int, r: int, m: int, less: int, cur: int, more: int)
    requires 0 <= l && l - 1 <= less < cur < more <= r + 1 <= arr.Length
    requires PartingIn(s, arr, l, r, m, less, cur, more) && arr[cur] > m
    modifies arr
    ensures PartingIn(s, arr, l, r, m, less, cur, more - 1)
  {
    hide *;
    UpIsParting(s, arr, l, r, m, less, cur, more);
    Swap(arr, cur, more - 1);
    PartingHolds(s, arr, l, r, m, less, cur, more - 1);
  }

  lemma RearrangedSelf(s: seq<int>, l: int, h: int)
    requires 0 <= l <= h <= |s|
    ensures Rearranged(s, s, l, h)
  {
  }

  lemma PartitionSplits(s: seq<int>, l: int, r: int, m: int, lo: int, hi: int, k: int)
    requires Splits(s, l) && Splits(s, r + 1) && Parted(s, l, r, m, lo, hi)
    requires lo <= k <= hi + 1
    ensures Splits(s, k)
  {
  }

  // ----- groups of five

  ghost function CountAbove(s: seq<int>, v: int): int {
    |s| - CountBelow(s, v + 1)
  }

  /** m splits a group of at most five: what it says about the others, for any bound v. */
  ghost predicate IsMedian(g: seq<int>, m: int) {
    && m in g
    && forall v :: CountBelow(g, v) <= (|g| - 1) / 2 + (if m < v then 3 else 0)
                && CountAbove(g, v) <= |g| / 2 + (if m > v then 3 else 0)
  }

  ghost predicate Ordered(s: seq<int>, l: int, h: int) {
    0 <= l <= h <= |s| && forall a, b :: l <= a < b < h ==> s[a] <= s[b]
  }

  lemma SortedMedian(g: seq<int>)
    requires 1 <= |g| <= 5 && Ordered(g, 0, |g|)
    ensures IsMedian(g, g[(|g| - 1) / 2])
  {
    var k := (|g| - 1) / 2;
    var m := g[k];
    forall v ensures CountBelow(g, v) <= k + (if m < v then 3 else 0)
                  && CountAbove(g, v) <= |g| / 2 + (if m > v then 3 else 0)
    {
      CountAtLeast(g, 0, v);
      if m >= v {
        CountAtMost(g, k, v);
      }
      if m <= v {
        CountAtLeast(g, k + 1, v + 1);
      }
    }
  }

  /** Ordered up to i but for the element sinking through j + 1. */
  ghost predicate Sinking(s: seq<int>, l: int, i: int, j: int) {
    0 <= l <= i < |s| && l - 1 <= j < i && forall a, b :: l <= a < b <= i && b != j + 1 ==> s[a] <= s[b]
  }

  /** Sorts arr[l..r] by adjacent swaps and returns its middle element. */
  method GetMedian(arr: array<int>, l: int, r: int) returns (m: int)
    requires 0 <= l <= r < arr.Length && r - l < 5
    modifies arr
    ensures Rearranged(old(arr[..]), arr[..], l, r + 1) && IsMedian(arr[l..r + 1], m)
    ensures Ordered(arr[..], l, r + 1) && m == arr[(l + r) / 2]
  {
    ghost var s := arr[..];
    RearrangedSelf(s, l, r + 1);
    hide Rearranged, IsMedian;
    for i := l + 1 to r + 1
      invariant Rearranged(s, arr[..], l, r + 1) && Ordered(arr[..], l, i)
    {
      Sink(arr, l, r, i, s);
    }
    OrderedSlice(arr[..], l, r + 1);
    SortedMedian(arr[l..r + 1]);
    m := arr[(l + r) / 2];
    assert m == arr[l..r + 1][(r - l) / 2];
  }

  lemma OrderedSlice(s: seq<int>, l: int, h: int)
    requires Ordered(s, l, h)
    ensures Ordered(s[l..h], 0, h - l)
  {
  }

  lemma StartsSinking(s: seq<int>, l: int, i: int)
    requires 0 <= l < i < |s| && Ordered(s, l, i)
    ensures Sinking(s, l, i, i - 1)
  {
  }

  /** The inner loop: swaps element i down to its place. */
  method Sink(arr: array<int>, l: int, r: int, i: int, ghost s: seq<int>)
    requires 0 <= l < i <= r < arr.Length && Rearranged(s, Elems(arr), l, r + 1) && Ordered(Elems(arr), l, i)
    modifies arr
    ensures Rearranged(s, Elems(arr), l, r + 1) && Ordered(Elems(arr), l, i + 1)
  {
    var j := i - 1;
    SinkStarts(s, Elems(arr), l, r, i);
    hide *;
    while j >= l && arr[j] > arr[j + 1]
      invariant l - 1 <= j < i && SunkIn(s, arr, l, r, i, j)
      decreases j
    {
      SinkBy(s, arr, l, r, i, j);
      j := j - 1;
    }
    SunkIsOrdered(s, arr, l, r, i, j);
  }

  ghost predicate SunkIn(s: seq<int>, arr: array<int>, l: int, r: int, i: int, j: int)
    reads arr
  {
     |s| == arr.Length && Sunk(s, Elems(arr), l, r, i, j)
  }

  method SinkBy(ghost s: seq<int>, arr: array<int>, l: int, r: int, i: int, j: int)
    requires 0 <= l <= j < i <= r < arr.Length
    requires SunkIn(s, arr, l, r, i, j) && arr[j] > arr[j + 1]
    modifies arr
    ensures SunkIn(s, arr, l, r, i, j - 1)
  {
    hide *;
    ghost var t := SinkOne(s, arr, l, r, i, j);
    Swap(arr, j, j + 1);
    SunkAs(s, t, arr, l, r, i, j - 1);
  }

  /** The inner loop so far. */
  ghost predicate Sunk(s: seq<int>, t: seq<int>, l: int, r: int, i: int, j: int) {
    i <= r && Rearranged(s, t, l, r + 1) && Sinking(t, l, i, j)
  }

  lemma SinkStarts(s: seq<int>, t: seq<int>, l: int, r: int, i: int)
    requires 0 <= l < i <= r < |t| && Rearranged(s, t, l, r + 1) && Ordered(t, l, i)
    ensures |s| == |t| && Sunk(s, t, l, r, i, i - 1)
  {
    StartsSinking(t, l, i);
  }

  lemma SwapSinks(s: seq<int>, l: int, i: int, j: int)
    requires Sinking(s, l, i, j) && j >= l && s[j] > s[j + 1]
    ensures Sinking(Swapped(s, j, j + 1), l, i, j - 1)
  {
  }

  lemma SinkOne(s: seq<int>, arr: array<int>, l: int, r: int, i: int, j: int) returns (t: seq<int>)
    requires SunkIn(s, arr, l, r, i, j) && 0 <= l <= j && j + 1 < arr.Length && arr[j] > arr[j + 1]
    ensures t == Swapped(Elems(arr), j, j + 1) && |s| == arr.Length && Sunk(s, t, l, r, i, j - 1)
  {
    t := Swapped(Elems(arr), j, j + 1);
    SwapSinks(Elems(arr), l, i, j);
    SwapWithin(s, Elems(arr), j, j + 1, l, r + 1);
  }

  lemma SunkAs(s: seq<int>, t: seq<int>, arr: array<int>, l: int, r: int, i: int, j: int)
    requires |s| == arr.Length && Elems(arr) == t && Sunk(s, t, l, r, i, j)
    ensures SunkIn(s, arr, l, r, i, j)
  {
  }

  lemma SunkIsOrdered(s: seq<int>, arr: array<int>, l: int, r: int, i: int, j: int)
    requires SunkIn(s, arr, l, r, i, j) && (j >= l ==> 0 <= j && j + 1 < arr.Length && arr[j] <= arr[j + 1])
    ensures Rearranged(s, Elems(arr), l, r + 1) && Ordered(Elems(arr), l, i + 1)
  {
  }

  // ----- the median of the groups' medians

  /** How many groups of five the n elements make. */
  ghost function Groups(n: int): int {
    n / 5 + if n % 5 == 0 then 0 else 1
  }

  /** The first position of group g and one past its last. */
  ghost function Start(l: int, r: int, g: int): int {
    Min(r + 1, l + 5 * g)
  }

  ghost predicate GroupOk(s: seq<int>, l: int, r: int, g: int, m: int) {
    0 <= l <= Start(l, r, g) < Start(l, r, g + 1) <= |s| && IsMedian(s[Start(l, r, g)..Start(l, r, g + 1)], m)
  }

  ghost predicate GroupsOk(s: seq<int>, l: int, r: int, ms: seq<int>) {
    forall k {:trigger GroupOk(s, l, r, k, ms[k])} :: 0 <= k < |ms| ==> GroupOk(s, l, r, k, ms[k])
  }

  /** Elements below or above v, beyond three per median on that side. */
  ghost function Slack(n: int, g: int, above: bool): int {
    if 5 * g <= n then 2 * g else 2 * (g - 1) + (if above then (n % 5) / 2 else (n % 5 - 1) / 2)
  }

  lemma GroupSlack(l: int, r: int, g: int)
    requires l <= r && 0 <= g < Groups(r - l + 1)
    ensures var size, n := Start(l, r, g + 1) - Start(l, r, g), r - l + 1;
            && 1 <= size <= 5 && Start(l, r, g) == l + 5 * g
            && Slack(n, g + 1, false) == Slack(n, g, false) + (size - 1) / 2
            && Slack(n, g + 1, true) == Slack(n, g, true) + size / 2
  {
  }

  lemma {:induction false} GroupsBound(s: seq<int>, l: int, r: int, ms: seq<int>, g: nat, v: int)
    requires 0 <= l <= r < |s| && |ms| == Groups(r - l + 1) && g <= |ms|
    requires GroupsOk(s, l, r, ms)
    ensures l <= Start(l, r, g) <= r + 1
    ensures CountBelow(s[l..Start(l, r, g)], v) <= 3 * CountBelow(ms[..g], v) + Slack(r - l + 1, g, false)
    ensures CountAbove(s[l..Start(l, r, g)], v) <= 3 * CountAbove(ms[..g], v) + Slack(r - l + 1, g, true)
    decreases g
  {
    if g > 0 {
      GroupsBound(s, l, r, ms, g - 1, v);
      GroupSlack(l, r, g - 1);
      assert GroupOk(s, l, r, g - 1, ms[g - 1]);
      OneMoreGroup(s[l..Start(l, r, g - 1)], s[Start(l, r, g - 1)..Start(l, r, g)], ms[..g - 1], ms[g - 1], v);
      assert ms[..g] == ms[..g - 1] + [ms[g - 1]];
      assert s[l..Start(l, r, g)] == s[l..Start(l, r, g - 1)] + s[Start(l, r, g - 1)..Start(l, r, g)];
    }
  }

  lemma OneMoreGroup(done: seq<int>, g: seq<int>, ms: seq<int>, m: int, v: int)
    requires IsMedian(g, m)
    ensures CountBelow(done + g, v) - 3 * CountBelow(ms + [m], v)
         <= CountBelow(done, v) - 3 * CountBelow(ms, v) + (|g| - 1) / 2
    ensures CountAbove(done + g, v) - 3 * CountAbove(ms + [m], v)
         <= CountAbove(done, v) - 3 * CountAbove(ms, v) + |g| / 2
  {
    CountConcat(done, g, v);
    CountConcat(done, g, v + 1);
    CountConcat(ms, [m], v);
    CountConcat(ms, [m], v + 1);
    assert [m][1..] == [];
  }

  /** A pivot that leaves at most 7n/10 + 2 elements strictly on either side. */
  ghost predicate Balanced(s: seq<int>, p: int) {
    CountBelow(s, p) <= 7 * |s| / 10 + 2 && CountAbove(s, p) <= 7 * |s| / 10 + 2
  }

  lemma MedianOfMediansBalances(s: seq<int>, l: int, r: int, ms: seq<int>, p: int)
    requires 0 <= l <= r < |s| && |ms| == Groups(r - l + 1)
    requires GroupsOk(s, l, r, ms)
    requires IsKth(ms, |ms| / 2, p)
    ensures Balanced(s[l..r + 1], p)
  {
    GroupsBound(s, l, r, ms, |ms|, p);
    assert ms[..|ms|] == ms;
    hide GroupOk, GroupsOk;
    SlackBound(r - l + 1);
  }

  lemma SlackBound(n: int)
    requires n >= 1
    ensures Start(0, n - 1, Groups(n)) == n
    ensures 3 * (Groups(n) / 2) + Slack(n, Groups(n), false) <= 7 * n / 10 + 2
    ensures 3 * (Groups(n) - Groups(n) / 2 - 1) + Slack(n, Groups(n), true) <= 7 * n / 10 + 2
  {
  }

  lemma GroupKept(s: seq<int>, t: seq<int>, l: int, r: int, g: int, m: int, first: int, h: int)
    requires GroupOk(s, l, r, g, m) && Rearranged(s, t, first, h) && Start(l, r, g + 1) <= first
    ensures GroupOk(t, l, r, g, m)
  {
    SliceKept(s, t, Start(l, r, g), Start(l, r, g + 1), first);
  }

  lemma SliceKept(s: seq<int>, t: seq<int>, i: int, j: int, first: int)
    requires 0 <= i <= j <= first <= |s| && first <= |t| && s[..first] == t[..first]
    ensures s[i..j] == t[i..j]
  {
    assert s[i..j] == s[..first][i..j];
    assert t[i..j] == t[..first][i..j];
  }

  lemma ElementOfGroup(s: seq<int>, l: int, r: int, ms: seq<int>, p: int)
    requires 0 <= l <= r < |s| && |ms| == Groups(r - l + 1) && p in ms
    requires GroupsOk(s, l, r, ms)
    ensures p in s[l..r + 1]
  {
    var k :| 0 <= k < |ms| && ms[k] == p;
    assert GroupOk(s, l, r, k, p);
    GroupSlack(l, r, k);
    var g := s[Start(l, r, k)..Start(l, r, k + 1)];
    var i :| 0 <= i < |g| && g[i] == p;
    assert s[l..r + 1][Start(l, r, k) - l + i] == p;
  }

  lemma NextGroup(s: seq<int>, before: seq<int>, after: seq<int>, l: int, r: int, ms: seq<int>, m: int)
    requires 0 <= l <= r < |s| == |before| == |after| && |ms| < Groups(r - l + 1)
    requires Rearranged(s, before, l, r + 1) && GroupsOk(before, l, r, ms)
    requires Rearranged(before, after, Start(l, r, |ms|), Start(l, r, |ms| + 1)) && GroupOk(after, l, r, |ms|, m)
    ensures Rearranged(s, after, l, r + 1) && GroupsOk(after, l, r, ms + [m])
  {
    hide Rearranged, GroupOk;
    GroupSlack(l, r, |ms|);
    RearrangedWider(before, after, Start(l, r, |ms|), Start(l, r, |ms| + 1), l, r + 1);
    RearrangedTransitive(s, before, after, l, r + 1);
    forall k | 0 <= k <= |ms| ensures GroupOk(after, l, r, k, (ms + [m])[k]) {
      if k < |ms| {
        GroupSlack(l, r, k);
        GroupKept(before, after, l, r, k, ms[k], Start(l, r, |ms|), Start(l, r, |ms| + 1));
      }
    }
  }

  /** Sorts the groups and collects their medians. */
  method GroupMedians(arr: array<int>, l: int, r: int) returns (mArr: array<int>)
    requires 0 <= l <= r < arr.Length
    modifies arr
    ensures fresh(mArr) && mArr.Length == Groups(r - l + 1)
    ensures Rearranged(old(arr[..]), arr[..], l, r + 1) && GroupsOk(arr[..], l, r, mArr[..])
  {
    ghost var s := arr[..];
    var size := r - l + 1;
    var offset := if size % 5 == 0 then 0 else 1;
    mArr := new int[size / 5 + offset];
    RearrangedSelf(s, l, r + 1);
    assert mArr.Length == Groups(size);
    assert GroupsOk(s, l, r, []);
    hide Rearranged, GroupsOk, GroupOk, Start, Groups;
    for team := 0 to mArr.Length
      invariant Rearranged(s, arr[..], l, r + 1) && GroupsOk(arr[..], l, r, mArr[..team])
    {
      ghost var before, ms := arr[..], mArr[..team];
      var m := SortGroup(arr, l, r, team);
      NextGroup(s, before, arr[..], l, r, ms, m);
      mArr[team] := m;
      assert mArr[..team + 1] == ms + [m];
    }
    assert mArr[..mArr.Length] == mArr[..];
  }

  method SortGroup(arr: array<int>, l: int, r: int, team: int) returns (m: int)
    requires 0 <= l <= r < arr.Length && 0 <= team < Groups(r - l + 1)
    modifies arr
    ensures Rearranged(old(arr[..]), arr[..], Start(l, r, team), Start(l, r, team + 1))
    ensures GroupOk(arr[..], l, r, team, m)
  {
    hide Rearranged, IsMedian;
    var first := l + team * 5;
    GroupSlack(l, r, team);
    m := GetMedian(arr, first, Min(r, first + 4));
    IsGroup(arr[..], l, r, team, m);
  }

  lemma IsGroup(s: seq<int>, l: int, r: int, g: int, m: int)
    requires 0 <= l <= Start(l, r, g) < Start(l, r, g + 1) <= |s| && IsMedian(s[Start(l, r, g)..Start(l, r, g + 1)], m)
    ensures GroupOk(s, l, r, g, m)
  {
  }

  method MedianOfMedians(arr: array<int>, l: int, r: int) returns (p: int)
    requires 0 <= l < r < arr.Length
    modifies arr
    ensures Rearranged(old(arr[..]), arr[..], l, r + 1)
    ensures p in arr[l..r + 1] && Balanced(arr[l..r + 1], p)
    ensures exists ms :: |ms| == Groups(r - l + 1) && GroupsOk(arr[..], l, r, ms) && IsKth(ms, |ms| / 2, p)
    decreases arr.Length, r, r - l, 0
  {
    hide IsMedian, GroupOk, GroupsOk, Rearranged, Splits;
    var mArr := GroupMedians(arr, l, r);
    ghost var ms, s := mArr[..], arr[..];
    WholeSplits(ms);
    p := Bfprt(mArr, 0, mArr.Length - 1, mArr.Length / 2);
    assert arr[..] == s;
    PlacedIsKth(ms, mArr[..], mArr.Length / 2);
    MedianOfMediansBalances(s, l, r, ms, p);
    assert mArr[..][mArr.Length / 2] in multiset(mArr[..]);
    ElementOfGroup(s, l, r, ms, p);
  }

  lemma WholeSplits(s: seq<int>)
    ensures Splits(s, 0) && Splits(s, |s|)
  {
  }

  lemma PivotStays(s: seq<int>, t: seq<int>, l: int, r: int, p: int, lo: int, hi: int)
    requires Rearranged(s, t, l, r + 1) && p in s[l..r + 1] && Parted(t, l, r, p, lo, hi)
    ensures lo <= hi
  {
    assert p in multiset(t[l..r + 1]);
    var i :| 0 <= i < r + 1 - l && t[l..r + 1][i] == p;
    assert t[l + i] == p;
  }

  /** What choosing a pivot inside the range and partitioning leaves. */
  method Divide(arr: array<int>, l: int, r: int, pivot: int) returns (lo: int, hi: int)
    requires 0 <= l <= r < arr.Length && Splits(arr[..], l) && Splits(arr[..], r + 1) && pivot in arr[l..r + 1]
    modifies arr
    ensures multiset(arr[..]) == multiset(old(arr[..])) && l <= lo <= hi <= r
    ensures forall k :: lo <= k <= hi + 1 ==> Splits(arr[..], k)
    ensures Splits(arr[..], l) && Splits(arr[..], r + 1)
  {
    ghost var s := arr[..];
    hide Splits, Rearranged, Parted;
    lo, hi := Partition(arr, l, r, pivot);
    PivotStays(s, arr[..], l, r, pivot, lo, hi);
    RearrangedWhole(s, arr[..], l, r + 1);
    SplitsKept(s, arr[..], l, r + 1, l);
    SplitsKept(s, arr[..], l, r + 1, r + 1);
    PartedRange(arr[..], l, r, pivot, lo, hi);
    forall k | lo <= k <= hi + 1 ensures Splits(arr[..], k) {
      PartitionSplits(arr[..], l, r, pivot, lo, hi, k);
    }
  }

  lemma PartedRange(s: seq<int>, l: int, r: int, m: int, lo: int, hi: int)
    requires Parted(s, l, r, m, lo, hi)
    ensures l <= lo && hi <= r
  {
  }

  /** The recursion; its left call starts over from position 0. */
  method Bfprt(arr: array<int>, l: int, r: int, index: int) returns (v: int)
    requires 0 <= l <= index <= r < arr.Length && Splits(arr[..], l) && Splits(arr[..], r + 1)
    modifies arr
    ensures multiset(arr[..]) == multiset(old(arr[..]))
    ensures Splits(arr[..], index) && Splits(arr[..], index + 1) && v == arr[index]
    decreases arr.Length, r, r - l, 1
  {
    if l == r {
      return arr[l];
    }
    ghost var s := arr[..];
    hide Splits, Rearranged;
    var pivot := MedianOfMedians(arr, l, r);
    RearrangedWhole(s, arr[..], l, r + 1);
    SplitsKept(s, arr[..], l, r + 1, l);
    SplitsKept(s, arr[..], l, r + 1, r + 1);
    var lo, hi := Divide(arr, l, r, pivot);
    if lo <= index <= hi {
      v := arr[index];
    } else if index < lo {
      WholeSplits(arr[..]);
      v := Bfprt(arr, 0, lo - 1, index);
    } else {
      v := Bfprt(arr, hi + 1, r, index);
    }
  }

  /** The k-th smallest, counting from 1. */
  method MinKth(arr: array<int>, k: int) returns (v: int)
    requires 1 <= k <= arr.Length
    modifies arr
    ensures IsKth(old(arr[..]), k - 1, v) && multiset(arr[..]) == multiset(old(arr[..]))
    ensures Splits(arr[..], k - 1) && Splits(arr[..], k) && v == arr[k - 1]
  {
    WholeSplits(arr[..]);
    v := Bfprt(arr, 0, arr.Length - 1, k - 1);
    PlacedIsKth(old(arr[..]), arr[..], k - 1);
  }

  /** Quickselect with any pivot from the range; here its first element. */
  method Process(arr: array<int>, l: int, r: int, index: int) returns (v: int)
    requires 0 <= l <= index <= r < arr.Length && Splits(arr[..], l) && Splits(arr[..], r + 1)
    modifies arr
    ensures multiset(arr[..]) == multiset(old(arr[..]))
    ensures Splits(arr[..], index) && Splits(arr[..], index + 1) && v == arr[index]
    decreases r - l
  {
    if l == r {
      return arr[l];
    }
    hide Splits;
    var pivot := arr[l];
    assert arr[l..r + 1][0] == pivot;
    var lo, hi := Divide(arr, l, r, pivot);
    if lo <= index <= hi {
      v := arr[index];
    } else if index < lo {
      v := Process(arr, l, lo - 1, index);
    } else {
      v := Process(arr, hi + 1, r, index);
    }
  }

  /** The copying form leaves the caller's array alone and gives the same answer. */
  method MinKthOfCopy(given: seq<int>, k: int) returns (v: int)
    requires 1 <= k <= |given|
    ensures IsKth(given, k - 1, v)
  {
    var arr := new int[|given|](i requires 0 <= i < |given| => given[i]);
    assert arr[..] == given;
    WholeSplits(arr[..]);
    v := Process(arr, 0, arr.Length - 1, k - 1);
    PlacedIsKth(given, arr[..], k - 1);
  }
}
