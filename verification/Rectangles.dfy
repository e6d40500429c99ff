/** Counting the all-ones rectangles of a matrix with a stack of bars. */
module Rectangles {
  import opened SubarrayMinimums
  import opened Numbers

  // ----- bars on the stack

  function Top(st: seq<int>): int {
    if st == [] then -1 else st[|st| - 1]
  }

  function Below(st: seq<int>): (rest: seq<int>)
    requires st != []
  {
    st[..|st| - 1]
  }

  ghost predicate Columns(st: seq<int>, n: int) {
    forall t :: 0 <= t < |st| ==> 0 <= st[t] < n
  }

  /** A bar's height; the floor left of the first bar has none. */
  function Bar(h: seq<int>, p: int): int
    requires p < |h|
  {
    if p < 0 then 0 else h[p]
  }

  /** Rising bars, each no higher than any from just after the bar under it up to i. */
  ghost predicate Bars(h: seq<int>, st: seq<int>, i: int) {
    && 0 <= i <= |h|
    && (st != [] ==>
        && 0 <= Top(st) < i
        && -1 <= Top(Below(st)) < Top(st)
        && (Below(st) != [] ==> 0 <= Top(Below(st)) && h[Top(Below(st))] < h[Top(st)])
        && (forall x :: Top(Below(st)) < x < i && 0 <= x ==> h[x] >= h[Top(st)])
        && Bars(h, Below(st), i))
  }

  lemma {:induction false} BarsTop(h: seq<int>, st: seq<int>, i: int)
    requires Bars(h, st, i)
    ensures -1 <= Top(st) < i || (i == 0 && st == [])
    ensures Columns(st, i)
  {
    if st != [] {
      BarsTop(h, Below(st), i);
    }
  }

  lemma {:induction false} BarsLater(h: seq<int>, st: seq<int>, i: int)
    requires Bars(h, st, i) && i < |h| && (st != [] ==> h[Top(st)] <= h[i])
    ensures Bars(h, st, i + 1)
  {
    if st != [] {
      BarsLater(h, Below(st), i);
    }
  }

  lemma PushBar(h: seq<int>, st: seq<int>, i: int)
    requires Bars(h, st, i) && i < |h| && (st != [] ==> h[Top(st)] < h[i])
    requires forall x :: Top(st) < x < i && 0 <= x ==> h[x] >= h[i]
    ensures Bars(h, st + [i], i + 1) && Below(st + [i]) == st
  {
    assert Below(st + [i]) == st;
    BarsLater(h, st, i);
    BarsTop(h, st, i);
  }

  // ----- counting rectangles that stand on the bottom row

  /** How many intervals n columns have. */
  function Num(n: int): int {
    n * (1 + n) / 2
  }

  ghost function Stacked(d: int, n: int): int {
    d * Num(n)
  }

  ghost function Wide(d: int, n: int): int {
    d * n
  }

  lemma StackedWider(d: int, n: int)
    ensures Stacked(d, n + 1) == Stacked(d, n) + Wide(d, n + 1)
  {
    assert (n + 1) * (1 + (n + 1)) == n * (1 + n) + 2 * (n + 1);
    assert Num(n + 1) == Num(n) + (n + 1);
    Distributes(d, Num(n), n + 1);
  }

  lemma StackedHigher(d: int, e: int, n: int)
    ensures Stacked(d, n) + Stacked(e, n) == Stacked(d + e, n)
  {
    Distributes(Num(n), d, e);
  }

  lemma Distributes(d: int, x: int, y: int)
    ensures d * (x + y) == d * x + d * y
  {
  }

  /** How far the top bar rises over the one under it. */
  ghost function Rise(h: seq<int>, st: seq<int>): int
    requires st != [] && Columns(st, |h|)
  {
    h[Top(st)] - Bar(h, Top(Below(st)))
  }

  /** Rectangles through the bars still on the stack, each counted by the part above the bar under it. */
  ghost function Pending(h: seq<int>, st: seq<int>, i: int): int
    requires Columns(st, |h|)
  {
    if st == [] then 0
    else Pending(h, Below(st), i) + Stacked(Rise(h, st), i - Top(Below(st)) - 1)
  }

  /** The same for rectangles that end in column i. */
  ghost function PendingEnds(h: seq<int>, st: seq<int>, i: int): int
    requires Columns(st, |h|)
  {
    if st == [] then 0
    else PendingEnds(h, Below(st), i) + Wide(Rise(h, st), i - Top(Below(st)))
  }

  lemma {:induction false} PendingGrows(h: seq<int>, st: seq<int>, i: int)
    requires Columns(st, |h|)
    ensures Pending(h, st, i + 1) == Pending(h, st, i) + PendingEnds(h, st, i)
  {
    hide Stacked, Rise, Top, Wide;
    if st != [] {
      PendingGrows(h, Below(st), i);
      StackedWider(Rise(h, st), i - Top(Below(st)) - 1);
    }
  }

  lemma Regroup(v: int, w: int, i: int, m: int, p: int)
    ensures Wide(v, m - p) + Wide(v, i - m) == Wide(w, i - p) + Wide(v - w, i - p)
  {
  }

  lemma FlatWide(h: seq<int>, p: int, m: nat, r: nat)
    requires -1 <= p <= m <= r < |h| && forall x :: p < x <= r ==> h[m] <= h[x]
    ensures Ends(h, m + 1, r) == Ends(h, p + 1, r) + Wide(h[m], m - p)
  {
    Flat(h, p, m, r);
  }

  /** The stack knows the minimum of every interval that ends in column i. */
  lemma {:induction false} PendingEndsAreEnds(h: seq<int>, st: seq<int>, i: int)
    requires Bars(h, st, i + 1) && i >= 0 && Columns(st, |h|)
    ensures -1 <= Top(st) <= i
    ensures PendingEnds(h, st, i) == Ends(h, Top(st) + 1, i) + Wide(Bar(h, Top(st)), i - Top(st))
  {
    assert Wide(0, i + 1) == 0;
    hide Wide;
    if st != [] {
      PendingEndsAreEnds(h, Below(st), i);
      FlatWide(h, Top(Below(st)), Top(st), i);
      Regroup(h[Top(st)], Bar(h, Top(Below(st))), i, Top(st), Top(Below(st)));
    }
  }

  /** Rectangles below the height of the arriving bar, kept for it. */
  ghost function Kept(h: seq<int>, st: seq<int>, i: int): int
    requires i < |h| && Top(st) < i && 0 <= i
  {
    Stacked(if h[i] > Bar(h, Top(st)) then h[i] - Bar(h, Top(st)) else 0, i - Top(st) - 1)
  }

  /** Everything among the first i columns is counted or pending. */
  ghost predicate Settled(h: seq<int>, st: seq<int>, i: int, nums: int) {
    && Bars(h, st, i) && Columns(st, |h|)
    && MinSum(h, i) == nums + Pending(h, st, i)
  }

  /** The same while bar i pops the bars that are not lower. */
  ghost predicate Facing(h: seq<int>, st: seq<int>, i: int, nums: int) {
    && i < |h| && Bars(h, st, i) && Columns(st, i)
    && -1 <= Top(st) < i
    && (forall x :: Top(st) < x < i && 0 <= x ==> h[x] >= h[i])
    && MinSum(h, i) == nums + Pending(h, st, i) + Kept(h, st, i)
  }

  lemma Face(h: seq<int>, st: seq<int>, i: int, nums: int)
    requires Settled(h, st, i, nums) && i < |h| && Top(st) == i - 1
    ensures Facing(h, st, i, nums)
  {
    BarsTop(h, st, i);
    assert Num(0) == 0;
    assert forall d :: Stacked(d, 0) == 0;
  }

  /** What a popped bar adds: the rectangles higher than both neighbours. */
  ghost function Gain(h: seq<int>, pop: int, left: int, i: int): int
    requires -1 <= left < pop < i < |h|
  {
    if h[pop] > h[i] then Stacked(h[pop] - Max(Bar(h, left), h[i]), i - left - 1) else 0
  }

  lemma PopFacing(h: seq<int>, st: seq<int>, i: int, nums: int)
    requires Facing(h, st, i, nums) && st != [] && h[Top(st)] >= h[i] >= 0
    ensures -1 <= Top(Below(st)) < Top(st) < i < |h|
    ensures Facing(h, Below(st), i, nums + Gain(h, Top(st), Top(Below(st)), i))
  {
    var pop, left := Top(st), Top(Below(st));
    BarsTop(h, Below(st), i);
    assert Kept(h, st, i) == 0;
    var d, e := h[pop] - Max(Bar(h, left), h[i]), if h[i] > Bar(h, left) then h[i] - Bar(h, left) else 0;
    StackedHigher(d, e, i - left - 1);
    if h[pop] == h[i] {
      assert Stacked(0, i - left - 1) == 0;
    }
  }

  lemma PushFacing(h: seq<int>, st: seq<int>, i: int, nums: int)
    requires Facing(h, st, i, nums) && h[i] >= 0 && (st != [] ==> h[Top(st)] < h[i])
    ensures Settled(h, st + [i], i + 1, nums) && Top(st + [i]) == i
  {
    var st' := st + [i];
    PushBar(h, st, i);
    PendingGrows(h, st, i);
    PendingEndsAreEnds(h, st', i);
    StackedWider(h[i] - Bar(h, Top(st)), i - Top(st) - 1);
  }

  lemma PopSettled(h: seq<int>, st: seq<int>, nums: int)
    requires Settled(h, st, |h|, nums) && st != []
    ensures -1 <= Top(Below(st)) < Top(st) < |h|
    ensures Settled(h, Below(st), |h|,
                    nums + Stacked(Rise(h, st), |h| - Top(Below(st)) - 1))
  {
    BarsTop(h, Below(st), |h|);
  }

  /** Bars on a stack kept in an array, si being the index of its top. */
  ghost function Stack(stack: array<int>, si: int): seq<int>
    requires -1 <= si < stack.Length
    reads stack
  {
    stack[..si + 1]
  }

  lemma StackTop(stack: array<int>, si: int)
    requires -1 <= si < stack.Length
    ensures Top(Stack(stack, si)) == if si == -1 then -1 else stack[si]
    ensures (Stack(stack, si) == []) == (si == -1)
    ensures si >= 0 ==> Below(Stack(stack, si)) == Stack(stack, si - 1)
  {
  }

  method PushOn(stack: array<int>, si: int, i: int)
    requires -1 <= si && si + 1 < stack.Length
    modifies stack
    ensures Stack(stack, si + 1) == old(Stack(stack, si)) + [i]
  {
    stack[si + 1] := i;
  }

  /** Bars are distinct columns, so they fit in an array as long as the row. */
  lemma {:induction false} BarsFit(h: seq<int>, st: seq<int>, i: int)
    requires Bars(h, st, i)
    ensures |st| <= Top(st) + 1 <= i
  {
    if st != [] {
      BarsFit(h, Below(st), i);
    }
  }

  ghost predicate FacingIn(h: seq<int>, stack: array<int>, si: int, i: int, nums: int)
    reads stack
  {
    -1 <= si < stack.Length && Facing(h, Stack(stack, si), i, nums)
  }

  ghost predicate SettledIn(h: seq<int>, stack: array<int>, si: int, i: int, nums: int)
    reads stack
  {
    -1 <= si < stack.Length && Settled(h, Stack(stack, si), i, nums)
  }

  lemma PopFacingIn(h: seq<int>, stack: array<int>, si: int, i: int, nums: int)
    requires FacingIn(h, stack, si, i, nums) && si >= 0 && 0 <= stack[si] < |h| && h[stack[si]] >= h[i] >= 0
    ensures var left := if si == 0 then -1 else stack[si - 1];
            && -1 <= left < stack[si] < i < |h|
            && FacingIn(h, stack, si - 1, i, nums + Gain(h, stack[si], left, i))
  {
    hide Facing, Gain, Stack;
    StackTop(stack, si);
    StackTop(stack, si - 1);
    PopFacing(h, Stack(stack, si), i, nums);
  }

  lemma PopSettledIn(h: seq<int>, stack: array<int>, si: int, nums: int)
    requires SettledIn(h, stack, si, |h|, nums) && si >= 0
    ensures var left := if si == 0 then -1 else stack[si - 1];
            && -1 <= left < stack[si] < |h|
            && SettledIn(h, stack, si - 1, |h|, nums + Stacked(h[stack[si]] - Bar(h, left), |h| - left - 1))
  {
    StackTop(stack, si);
    StackTop(stack, si - 1);
    assert Columns(Stack(stack, si), |h|);
    hide Settled, Stacked, Stack;
    PopSettled(h, Stack(stack, si), nums);
  }

  method PushFacingIn(h: seq<int>, stack: array<int>, si: int, i: int, nums: int)
    requires FacingIn(h, stack, si, i, nums) && stack.Length == |h| && h[i] >= 0
    requires si >= 0 ==> 0 <= stack[si] < |h| && h[stack[si]] < h[i]
    modifies stack
    ensures SettledIn(h, stack, si + 1, i + 1, nums) && stack[si + 1] == i
  {
    ghost var st := Stack(stack, si);
    StackTop(stack, si);
    BarsFit(h, st, i);
    PushFacing(h, st, i, nums);
    hide Facing, Settled, Bars;
    PushOn(stack, si, i);
    StackTop(stack, si + 1);
  }

  lemma FaceIn(h: seq<int>, stack: array<int>, si: int, i: int, nums: int)
    requires SettledIn(h, stack, si, i, nums) && i < |h|
    requires i == (if si == -1 then 0 else stack[si] + 1)
    ensures FacingIn(h, stack, si, i, nums)
  {
    StackTop(stack, si);
    Face(h, Stack(stack, si), i, nums);
  }

  lemma FacingTop(h: seq<int>, stack: array<int>, si: int, i: int, nums: int)
    requires FacingIn(h, stack, si, i, nums)
    ensures -1 <= si < stack.Length && i < |h| && (si >= 0 ==> 0 <= stack[si] < i)
  {
    StackTop(stack, si);
  }

  lemma SettledTop(h: seq<int>, stack: array<int>, si: int, i: int, nums: int)
    requires SettledIn(h, stack, si, i, nums)
    ensures -1 <= si < stack.Length && (si >= 0 ==> 0 <= stack[si] < |h|)
  {
    StackTop(stack, si);
  }

  lemma NothingSettled(h: seq<int>, stack: array<int>)
    ensures SettledIn(h, stack, -1, 0, 0)
  {
  }

  lemma AllCounted(h: seq<int>, stack: array<int>, nums: int)
    requires SettledIn(h, stack, -1, |h|, nums)
    ensures nums == MinSum(h, |h|)
  {
  }

  /** The pops bar i causes. */
  method PopHigher(h: seq<nat>, stack: array<int>, top: int, i: int, nums0: int) returns (si: int, nums: int)
    requires FacingIn(h, stack, top, i, nums0) && stack.Length == |h| && 0 <= i < |h|
    ensures FacingIn(h, stack, si, i, nums) && -1 <= si < stack.Length
    ensures si >= 0 ==> 0 <= stack[si] < |h| && h[stack[si]] < h[i]
  {
    hide FacingIn, Stacked, Num;
    si, nums := top, nums0;
    FacingTop(h, stack, si, i, nums);
    while si != -1 && h[stack[si]] >= h[i]
      invariant -1 <= si < stack.Length && FacingIn(h, stack, si, i, nums)
      invariant si >= 0 ==> 0 <= stack[si] < i
    {
      PopFacingIn(h, stack, si, i, nums);
      var pop := stack[si];
      si := si - 1;
      if h[pop] > h[i] {
        var left := if si == -1 then -1 else stack[si];
        var n := i - left - 1;
        var down := Max(if left == -1 then 0 else h[left], h[i]);
        var tall := h[pop] - down;
        nums := nums + tall * Num(n);
        assert tall * Num(n) == Stacked(tall, n) by { IsStacked(tall, n); }
      }
      FacingTop(h, stack, si, i, nums);
    }
  }

  lemma IsStacked(d: int, n: int)
    ensures d * Num(n) == Stacked(d, n)
  {
  }

  method CountFromBottom(height: seq<nat>) returns (nums: int)
    ensures nums == MinSum(height, |height|)
  {
    if |height| < 1 {
      return 0;
    }
    nums := 0;
    var stack := new int[|height|];
    var si := -1;
    NothingSettled(height, stack);
    hide *;
    for i := 0 to |height|
      invariant -1 <= si < stack.Length && SettledIn(height, stack, si, i, nums)
      invariant i == if si == -1 then 0 else stack[si] + 1
    {
      FaceIn(height, stack, si, i, nums);
      si, nums := PopHigher(height, stack, si, i, nums);
      PushFacingIn(height, stack, si, i, nums);
      si := si + 1;
    }
    nums := CountRest(height, stack, si, nums);
  }

  /** The bars left at the end reach to the last column. */
  method CountRest(height: seq<nat>, stack: array<int>, top: int, nums0: int) returns (nums: int)
    requires SettledIn(height, stack, top, |height|, nums0)
    ensures nums == MinSum(height, |height|)
  {
    hide *;
    var si := top;
    nums := nums0;
    SettledTop(height, stack, si, |height|, nums);
    while si != -1
      invariant -1 <= si < stack.Length && SettledIn(height, stack, si, |height|, nums)
      invariant si >= 0 ==> 0 <= stack[si] < |height|
    {
      PopSettledIn(height, stack, si, nums);
      var pop := stack[si];
      si := si - 1;
      var left := if si == -1 then -1 else stack[si];
      var n := |height| - left - 1;
      var down := if left == -1 then 0 else height[left];
      IsRise(height, pop, left, n);
      nums := nums + (height[pop] - down) * Num(n);
      SettledTop(height, stack, si, |height|, nums);
    }
    AllCounted(height, stack, nums);
  }

  lemma IsRise(h: seq<nat>, pop: int, left: int, n: int)
    requires -1 <= left < pop < |h|
    ensures Stacked(h[pop] - Bar(h, left), n) == (h[pop] - (if left == -1 then 0 else h[left])) * Num(n)
  {
  }

  // ----- matrices

  ghost predicate IsMatrix<T>(mat: seq<seq<T>>) {
    mat != [] && forall i :: 0 <= i < |mat| ==> |mat[i]| == |mat[0]|
  }

  datatype Rect = Rect(top: nat, bottom: nat, left: nat, right: nat)

  ghost predicate AllOnes<T>(mat: seq<seq<T>>, zero: T, q: Rect)
    requires IsMatrix(mat)
  {
    && q.top <= q.bottom < |mat| && q.left <= q.right < |mat[0]|
    && forall j :: q.left <= j <= q.right ==> OnesAbove(mat, zero, q, j)
  }

  ghost predicate OnesAbove<T>(mat: seq<seq<T>>, zero: T, q: Rect, j: nat)
    requires IsMatrix(mat) && q.bottom < |mat| && j < |mat[0]|
  {
    forall i :: q.top <= i <= q.bottom ==> mat[i][j] != zero
  }

  /** Every all-ones rectangle. */
  ghost function Rects<T>(mat: seq<seq<T>>, zero: T): set<Rect>
    requires IsMatrix(mat)
  {
    set t, b, l, r | 0 <= t < |mat| && 0 <= b < |mat| && 0 <= l < |mat[0]| && 0 <= r < |mat[0]|
                     && AllOnes(mat, zero, Rect(t, b, l, r)) :: Rect(t, b, l, r)
  }

  /** The unbroken ones in column j that end in row b. */
  ghost function Height<T>(mat: seq<seq<T>>, zero: T, b: nat, j: nat): nat
    requires IsMatrix(mat) && b < |mat| && j < |mat[0]|
  {
    if mat[b][j] == zero then 0 else (if b == 0 then 0 else Height(mat, zero, b - 1, j)) + 1
  }

  ghost function Heights<T>(mat: seq<seq<T>>, zero: T, b: nat): (h: seq<nat>)
    requires IsMatrix(mat) && b < |mat|
    ensures |h| == |mat[0]| && forall j :: 0 <= j < |h| ==> h[j] == Height(mat, zero, b, j)
  {
    seq(|mat[0]|, j requires 0 <= j < |mat[0]| => Height(mat, zero, b, j))
  }

  lemma {:induction false} HeightMeans<T>(mat: seq<seq<T>>, zero: T, t: nat, b: nat, j: nat)
    requires IsMatrix(mat) && t <= b < |mat| && j < |mat[0]|
    ensures Height(mat, zero, b, j) <= b + 1
    ensures Height(mat, zero, b, j) >= b - t + 1 <==> forall i :: t <= i <= b ==> mat[i][j] != zero
    decreases b
  {
    if t < b {
      HeightMeans(mat, zero, t, b - 1, j);
    } else if b > 0 {
      HeightMeans(mat, zero, b - 1, b - 1, j);
    }
  }

  /** A rectangle is all ones exactly when the bars it stands on are as high. */
  lemma OnesAreLow<T>(mat: seq<seq<T>>, zero: T, q: Rect)
    requires IsMatrix(mat) && q.top <= q.bottom < |mat| && q.left <= q.right < |mat[0]|
    ensures AllOnes(mat, zero, q) <==> Low(Heights(mat, zero, q.bottom), q.left, q.right) >= q.bottom - q.top + 1
    ensures 0 <= Low(Heights(mat, zero, q.bottom), q.left, q.right) <= q.bottom + 1
  {
    var h := Heights(mat, zero, q.bottom);
    var m := LowIsLeast(h, q.left, q.right);
    HeightMeans(mat, zero, q.top, q.bottom, m);
    forall j | q.left <= j <= q.right
      ensures h[j] >= q.bottom - q.top + 1 <==> OnesAbove(mat, zero, q, j)
    {
      HeightMeans(mat, zero, q.top, q.bottom, j);
    }
  }

  // ----- the rectangles, counted row by row, right end by right end, left end by left end

  ghost function Tower(b: nat, l: nat, r: nat, c: nat): (s: set<Rect>)
    requires c <= b + 1
  {
    if c == 0 then {} else Tower(b, l, r, c - 1) + {Rect(b - c + 1, b, l, r)}
  }

  lemma {:induction false} TowerSize(b: nat, l: nat, r: nat, c: nat)
    requires c <= b + 1
    ensures |Tower(b, l, r, c)| == c
    ensures forall q :: q in Tower(b, l, r, c) <==>
                        q.bottom == b && q.left == l && q.right == r && b - c < q.top <= b
    decreases c
  {
    if c > 0 {
      TowerSize(b, l, r, c - 1);
    }
  }

  ghost function WithBottomBelow(s: set<Rect>, b: int): set<Rect> { set q | q in s && q.bottom < b }
  ghost function WithBottom(s: set<Rect>, b: int): set<Rect> { set q | q in s && q.bottom == b }
  ghost function WithRightBelow(s: set<Rect>, r: int): set<Rect> { set q | q in s && q.right < r }
  ghost function WithRight(s: set<Rect>, r: int): set<Rect> { set q | q in s && q.right == r }
  ghost function WithLeftBelow(s: set<Rect>, l: int): set<Rect> { set q | q in s && q.left < l }
  ghost function WithLeft(s: set<Rect>, l: int): set<Rect> { set q | q in s && q.left == l }

  lemma Disjoint(s: set<Rect>, a: set<Rect>, b: set<Rect>)
    requires s == a + b && a !! b
    ensures |s| == |a| + |b|
  {
  }

  lemma SplitBottom(s: set<Rect>, b: nat)
    ensures |WithBottomBelow(s, b + 1)| == |WithBottomBelow(s, b)| + |WithBottom(s, b)|
  {
    Disjoint(WithBottomBelow(s, b + 1), WithBottomBelow(s, b), WithBottom(s, b));
  }

  lemma SplitRight(s: set<Rect>, r: nat)
    ensures |WithRightBelow(s, r + 1)| == |WithRightBelow(s, r)| + |WithRight(s, r)|
    ensures WithRightBelow(s, 0) == {}
  {
    Disjoint(WithRightBelow(s, r + 1), WithRightBelow(s, r), WithRight(s, r));
  }

  lemma SplitLeft(s: set<Rect>, l: nat)
    ensures |WithLeftBelow(s, l + 1)| == |WithLeftBelow(s, l)| + |WithLeft(s, l)|
    ensures WithLeftBelow(s, 0) == {}
  {
    Disjoint(WithLeftBelow(s, l + 1), WithLeftBelow(s, l), WithLeft(s, l));
  }

  /** The rectangles that end in row b and column r. */
  ghost function Corner<T>(mat: seq<seq<T>>, zero: T, b: nat, r: nat): set<Rect>
    requires IsMatrix(mat)
  {
    WithRight(WithBottom(Rects(mat, zero), b), r)
  }

  lemma InCorner<T>(mat: seq<seq<T>>, zero: T, b: nat, r: nat, q: Rect)
    requires IsMatrix(mat)
    ensures q in Corner(mat, zero, b, r) <==> q.bottom == b && q.right == r && AllOnes(mat, zero, q)
  {
  }

  lemma CornerTower<T>(mat: seq<seq<T>>, zero: T, b: nat, l: nat, r: nat)
    requires IsMatrix(mat) && b < |mat| && l <= r < |mat[0]|
    ensures |WithLeft(Corner(mat, zero, b, r), l)| == Low(Heights(mat, zero, b), l, r)
  {
    OnesAreLow(mat, zero, Rect(b, b, l, r));
    var c := Low(Heights(mat, zero, b), l, r);
    TowerSize(b, l, r, c);
    forall q ensures q in WithLeft(Corner(mat, zero, b, r), l) <==> q in Tower(b, l, r, c) {
      InCorner(mat, zero, b, r, q);
      if q.top <= q.bottom == b && q.left == l && q.right == r {
        OnesAreLow(mat, zero, q);
      }
    }
    assert WithLeft(Corner(mat, zero, b, r), l) == Tower(b, l, r, c);
  }

  lemma {:induction false} CornerCount<T>(mat: seq<seq<T>>, zero: T, b: nat, k: nat, r: nat)
    requires IsMatrix(mat) && b < |mat| && k <= r + 1 <= |mat[0]|
    ensures |WithLeftBelow(Corner(mat, zero, b, r), k)| == Ends(Heights(mat, zero, b), k, r)
    decreases k
  {
    hide Corner, WithLeft, WithLeftBelow, Low;
    SplitLeft(Corner(mat, zero, b, r), if k == 0 then 0 else k - 1);
    if k > 0 {
      CornerCount(mat, zero, b, k - 1, r);
      CornerTower(mat, zero, b, k - 1, r);
    }
  }

  lemma WholeCorner<T>(mat: seq<seq<T>>, zero: T, b: nat, r: nat)
    requires IsMatrix(mat)
    ensures WithLeftBelow(Corner(mat, zero, b, r), r + 1) == Corner(mat, zero, b, r)
  {
    forall q ensures q in Corner(mat, zero, b, r) ==> q.left < r + 1 {
      InCorner(mat, zero, b, r, q);
    }
  }

  lemma {:induction false} RowCount<T>(mat: seq<seq<T>>, zero: T, b: nat, k: nat)
    requires IsMatrix(mat) && b < |mat| && k <= |mat[0]|
    ensures |WithRightBelow(WithBottom(Rects(mat, zero), b), k)| == MinSum(Heights(mat, zero, b), k)
    decreases k
  {
    hide Rects, WithBottom, WithRight, WithRightBelow, WithLeftBelow, Ends;
    SplitRight(WithBottom(Rects(mat, zero), b), if k == 0 then 0 else k - 1);
    if k > 0 {
      RowCount(mat, zero, b, k - 1);
      CornerCount(mat, zero, b, k, k - 1);
      WholeCorner(mat, zero, b, k - 1);
    }
  }

  lemma WholeRow<T>(mat: seq<seq<T>>, zero: T, b: nat)
    requires IsMatrix(mat)
    ensures WithRightBelow(WithBottom(Rects(mat, zero), b), |mat[0]|) == WithBottom(Rects(mat, zero), b)
    ensures WithBottomBelow(Rects(mat, zero), |mat|) == Rects(mat, zero)
    ensures WithBottomBelow(Rects(mat, zero), 0) == {}
  {
  }

  /** One more row: what the program adds for it is the rectangles that stand on it. */
  lemma NextRowCount<T>(mat: seq<seq<T>>, zero: T, b: nat)
    requires IsMatrix(mat) && b < |mat|
    ensures |WithBottomBelow(Rects(mat, zero), b + 1)|
         == |WithBottomBelow(Rects(mat, zero), b)| + MinSum(Heights(mat, zero, b), |mat[0]|)
  {
    RowCount(mat, zero, b, |mat[0]|);
    WholeRow(mat, zero, b);
    SplitBottom(Rects(mat, zero), b);
    hide Rects;
  }

  ghost predicate HeightsUpTo<T>(mat: seq<seq<T>>, zero: T, b: nat, height: seq<nat>)
    requires IsMatrix(mat) && b <= |mat|
  {
    |height| == |mat[0]| && forall j :: 0 <= j < |height| ==>
        height[j] == if b == 0 then 0 else Height(mat, zero, b - 1, j)
  }

  /** Both programs' inner loop: the bars for the next row. */
  method NextRow<T(==)>(mat: seq<seq<T>>, zero: T, b: nat, height: array<nat>)
    requires IsMatrix(mat) && b < |mat| && HeightsUpTo(mat, zero, b, height[..])
    modifies height
    ensures height[..] == Heights(mat, zero, b)
  {
    for j := 0 to |mat[0]|
      invariant forall x :: 0 <= x < j ==> height[x] == Height(mat, zero, b, x)
      invariant forall x :: j <= x < height.Length ==> height[x] == old(height[x])
    {
      assert height[..][j] == height[j] == old(height[..][j]);
      height[j] := if mat[b][j] == zero then 0 else height[j] + 1;
    }
  }

  method NumSubmat(mat: seq<seq<int>>) returns (nums: int)
    requires mat == [] || IsMatrix(mat)
    ensures nums == if mat == [] then 0 else |Rects(mat, 0)|
  {
    if |mat| == 0 || |mat[0]| == 0 {
      if mat != [] {
        assert Rects(mat, 0) == {};
      }
      return 0;
    }
    nums := 0;
    var height := new nat[|mat[0]|](_ => 0);
    WholeRow(mat, 0, 0);
    hide Rects, WithBottomBelow;
    for i := 0 to |mat|
      invariant HeightsUpTo(mat, 0, i, height[..])
      invariant nums == |WithBottomBelow(Rects(mat, 0), i)|
    {
      NextRow(mat, 0, i, height);
      var n := CountFromBottom(height[..]);
      NextRowCount(mat, 0, i);
      nums := nums + n;
    }
  }
}
