/** The largest all-ones rectangle, row by row, from the widest reach of every bar. */
module LargestRectangle {
  import opened SubarrayMinimums
  import opened Rectangles
  import opened Numbers

  ghost function Area(h: seq<nat>, l: nat, r: nat): int
    requires l <= r < |h|
  {
    (r - l + 1) * Low(h, l, r)
  }

  ghost predicate Reached(h: seq<nat>, max: int) {
    exists l: nat, r: nat {:trigger Area(h, l, r)} :: l <= r < |h| && Area(h, l, r) == max
  }

  ghost predicate IsLargest(h: seq<nat>, max: int) {
    && Reached(h, max)
    && forall l: nat, r: nat {:trigger Area(h, l, r)} :: l <= r < |h| ==> Area(h, l, r) <= max
  }

  /** The intervals a bar on the stack will account for when it is popped. */
  ghost predicate Waits(h: seq<nat>, st: seq<int>, l: nat, r: nat)
    requires Columns(st, |h|) && l <= r < |h|
  {
    st != [] && ((Top(Below(st)) < l && Low(h, l, r) <= h[Top(st)]) || Waits(h, Below(st), l, r))
  }

  ghost predicate Bounded(h: seq<nat>, st: seq<int>, i: int, max: int)
    requires Columns(st, |h|) && 0 <= i <= |h|
  {
    forall l: nat, r: nat {:trigger Area(h, l, r)} :: l <= r < i ==> Area(h, l, r) <= max || Waits(h, st, l, r)
  }

  lemma LowNotNegative(h: seq<nat>, l: nat, r: nat)
    requires l <= r < |h|
    ensures Low(h, l, r) >= 0
  {
    var _ := LowIsLeast(h, l, r);
  }

  lemma Grows(w: int, x: int, y: int, z: int)
    requires 0 <= w <= y && 0 <= x <= z
    ensures w * x <= y * z
  {
    assert w * x <= y * x;
    assert y * x <= y * z;
  }

  ghost predicate State(h: seq<nat>, st: seq<int>, i: int, max: int) {
    && 0 <= i <= |h| && Columns(st, i) && Bars(h, st, i)
    && Bounded(h, st, i, max) && (max == MIN_VALUE || Reached(h, max))
  }

  const MIN_VALUE: int := -0x8000_0000

  lemma PopState(h: seq<nat>, st: seq<int>, i: int, max: int)
    requires State(h, st, i, max) && st != []
    ensures -1 <= Top(Below(st)) < Top(st) < i <= |h|
    ensures State(h, Below(st), i, Max(max, (i - Top(Below(st)) - 1) * h[Top(st)]))
  {
    var pop, left := Top(st), Top(Below(st));
    var area := (i - left - 1) * h[pop];
    LowIs(h, left + 1, i - 1, pop);
    assert Area(h, left + 1, i - 1) == area;
    forall l: nat, r: nat | l <= r < i ensures Area(h, l, r) <= Max(max, area) || Waits(h, Below(st), l, r) {
      if left < l && Low(h, l, r) <= h[pop] {
        LowNotNegative(h, l, r);
        Grows(r - l + 1, Low(h, l, r), i - left - 1, h[pop]);
      }
    }
  }

  lemma {:induction false} ReachesBack(h: seq<nat>, st: seq<int>, l: nat, i: nat)
    requires i < |h| && Bars(h, st, i + 1) && Columns(st, i + 1) && l <= Top(st)
    ensures Waits(h, st, l, i)
  {
    if Top(Below(st)) < l {
      var _ := LowIsLeast(h, l, i);
    } else {
      ReachesBack(h, Below(st), l, i);
    }
  }

  lemma PushState(h: seq<nat>, st: seq<int>, i: int, max: int)
    requires State(h, st, i, max) && i < |h| && (st != [] ==> h[Top(st)] < h[i])
    requires forall x :: Top(st) < x < i && 0 <= x ==> h[x] >= h[i]
    ensures State(h, st + [i], i + 1, max)
  {
    var st' := st + [i];
    PushBar(h, st, i);
    forall l: nat, r: nat | l <= r < i + 1 ensures Area(h, l, r) <= max || Waits(h, st', l, r) {
      if r < i {
        assert Area(h, l, r) <= max || Waits(h, st, l, r);
      } else {
        ReachesBack(h, st', l, i);
      }
    }
  }

  lemma StateDone(h: seq<nat>, max: int)
    requires State(h, [], |h|, max) && h != []
    ensures IsLargest(h, max)
  {
    assert Area(h, 0, 0) <= max;
  }

  ghost predicate Lower(h: seq<nat>, st: seq<int>, i: int) {
    i < |h| && forall x :: Top(st) < x < i && 0 <= x ==> h[x] >= h[i]
  }

  lemma PopLower(h: seq<nat>, st: seq<int>, i: int, max: int)
    requires State(h, st, i, max) && Lower(h, st, i) && st != [] && h[Top(st)] >= h[i]
    ensures Lower(h, Below(st), i)
  {
  }

  lemma TopColumn(h: seq<nat>, st: seq<int>, i: int, max: int)
    requires State(h, st, i, max)
    ensures 0 <= i <= |h| && -1 <= Top(st) < |h| && (Top(st) == -1 <==> st == [])
  {
  }

  method LargestRectangleArea(height: seq<nat>) returns (max: int)
    ensures if height == [] then max == 0 else IsLargest(height, max)
  {
    if |height| < 1 {
      return 0;
    }
    var n := |height|;
    var stack: seq<int> := [];
    max := MIN_VALUE;
    assert State(height, [], 0, max);
    hide State, Lower, IsLargest;
    for i := 0 to n
      invariant State(height, stack, i, max) && Top(stack) == i - 1
    {
      assert Lower(height, stack, i) by { NothingBetween(height, stack, i); }
      TopColumn(height, stack, i, max);
      while stack != [] && height[Top(stack)] >= height[i]
        invariant State(height, stack, i, max) && Lower(height, stack, i)
        invariant -1 <= Top(stack) < n && (Top(stack) == -1 <==> stack == [])
        decreases |stack|
      {
        PopLower(height, stack, i, max);
        PopState(height, stack, i, max);
        var pop := Top(stack);
        stack := Below(stack);
        var curArea := (i - Top(stack) - 1) * height[pop];
        max := Max(max, curArea);
        TopColumn(height, stack, i, max);
      }
      LowerMeans(height, stack, i);
      PushState(height, stack, i, max);
      stack := stack + [i];
    }
    TopColumn(height, stack, n, max);
    while stack != []
      invariant State(height, stack, n, max)
      decreases |stack|
    {
      PopState(height, stack, n, max);
      var pop := Top(stack);
      stack := Below(stack);
      var curArea := (n - Top(stack) - 1) * height[pop];
      max := Max(max, curArea);
    }
    StateDone(height, max);
  }

  lemma NothingBetween(h: seq<nat>, st: seq<int>, i: int)
    requires i < |h| && Top(st) == i - 1
    ensures Lower(h, st, i)
  {
  }

  lemma LowerMeans(h: seq<nat>, st: seq<int>, i: int)
    requires Lower(h, st, i)
    ensures i < |h| && forall x :: Top(st) < x < i && 0 <= x ==> h[x] >= h[i]
  {
  }

  // ----- matrices

  ghost function Size(q: Rect): int {
    (q.bottom - q.top + 1) * (q.right - q.left + 1)
  }

  /** The size of some all-ones rectangle that ends above row b, or 0, and of no smaller one. */
  ghost predicate IsLargestAbove<T>(mat: seq<seq<T>>, zero: T, b: nat, max: int)
    requires IsMatrix(mat)
  {
    && (max == 0 || exists q :: AllOnes(mat, zero, q) && Size(q) == max)
    && max >= 0
    && forall q :: AllOnes(mat, zero, q) && q.bottom < b ==> Size(q) <= max
  }

  lemma RowBound<T>(mat: seq<seq<T>>, zero: T, q: Rect, max: int)
    requires IsMatrix(mat) && AllOnes(mat, zero, q) && IsLargest(Heights(mat, zero, q.bottom), max)
    ensures Size(q) <= max
  {
    var h := Heights(mat, zero, q.bottom);
    OnesAreLow(mat, zero, q);
    assert Area(h, q.left, q.right) <= max;
    Grows(q.bottom - q.top + 1, q.right - q.left + 1, Low(h, q.left, q.right), q.right - q.left + 1);
  }

  lemma PositiveFactor(w: int, c: int)
    requires w > 0 && w * c > 0
    ensures c > 0
  {
  }

  lemma RowReached<T>(mat: seq<seq<T>>, zero: T, b: nat, max: int) returns (q: Rect)
    requires IsMatrix(mat) && b < |mat| && IsLargest(Heights(mat, zero, b), max) && max > 0
    ensures AllOnes(mat, zero, q) && Size(q) == max
  {
    var h := Heights(mat, zero, b);
    var l: nat, r: nat :| l <= r < |h| && Area(h, l, r) == max;
    hide Low, AllOnes, Heights, IsLargest;
    OnesAreLow(mat, zero, Rect(b, b, l, r));
    var c := Low(h, l, r);
    PositiveFactor(r - l + 1, c);
    q := Rect(b - c + 1, b, l, r);
    OnesAreLow(mat, zero, q);
  }

  lemma RowLargest<T>(mat: seq<seq<T>>, zero: T, b: nat, best: int, max: int)
    requires IsMatrix(mat) && b < |mat| && IsLargestAbove(mat, zero, b, best) && IsLargest(Heights(mat, zero, b), max)
    ensures IsLargestAbove(mat, zero, b + 1, Max(best, max))
  {
    hide AllOnes, IsLargest, Size;
    forall q | AllOnes(mat, zero, q) && q.bottom == b ensures Size(q) <= max {
      RowBound(mat, zero, q, max);
    }
    if max > best {
      var _ := RowReached(mat, zero, b, max);
    }
  }

  method MaximalRectangle(board: seq<seq<char>>) returns (maxArea: int)
    requires board == [] || IsMatrix(board)
    ensures if board == [] then maxArea == 0 else IsLargestAbove(board, '0', |board|, maxArea)
  {
    if |board| == 0 || |board[0]| == 0 {
      return 0;
    }
    maxArea := 0;
    var height := new nat[|board[0]|](_ => 0);
    assert IsLargestAbove(board, '0', 0, 0);
    hide IsLargestAbove, IsLargest;
    for i := 0 to |board|
      invariant HeightsUpTo(board, '0', i, height[..]) && IsLargestAbove(board, '0', i, maxArea)
    {
      NextRow(board, '0', i, height);
      var area := LargestRectangleArea(height[..]);
      RowLargest(board, '0', i, maxArea, area);
      maxArea := Max(maxArea, area);
    }
  }
}
