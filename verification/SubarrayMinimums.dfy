/** The sum of the minimum of every subarray, found with two passes of a stack. */
module SubarrayMinimums {
  import opened Numbers

  // ----- the specification

  /** The least of a[l..=r]. */
  ghost function Low(a: seq<int>, l: nat, r: nat): int
    requires l <= r < |a|
    decreases r
  {
    if l == r || a[r] < Low(a, l, r - 1) then a[r] else Low(a, l, r - 1)
  }

  /** The minima of the subarrays that end at r and start below k, added up. */
  ghost function Ends(a: seq<int>, k: nat, r: nat): int
    requires k <= r + 1 <= |a|
    decreases k
  {
    if k == 0 then 0 else Ends(a, k - 1, r) + Low(a, k - 1, r)
  }

  /** The minima of all subarrays of the first n elements, added up. */
  ghost function MinSum(a: seq<int>, n: nat): int
    requires n <= |a|
  {
    if n == 0 then 0 else MinSum(a, n - 1) + Ends(a, n, n - 1)
  }

  lemma {:induction false} LowIsLeast(a: seq<int>, l: nat, r: nat) returns (m: nat)
    requires l <= r < |a|
    ensures l <= m <= r && a[m] == Low(a, l, r)
    ensures forall x :: l <= x <= r ==> Low(a, l, r) <= a[x]
    decreases r
  {
    m := r;
    if l < r {
      var m' := LowIsLeast(a, l, r - 1);
      m := if a[r] < a[m'] then r else m';
    }
  }

  lemma LowIs(a: seq<int>, l: nat, r: nat, m: nat)
    requires l <= m <= r < |a| && forall x :: l <= x <= r ==> a[m] <= a[x]
    ensures Low(a, l, r) == a[m]
  {
    var _ := LowIsLeast(a, l, r);
  }

  /** A stretch of starting points that share their minimum. */
  lemma {:induction false} Flat(a: seq<int>, p: int, m: nat, r: nat)
    requires -1 <= p <= m <= r < |a| && forall x :: p < x <= r ==> a[m] <= a[x]
    ensures Ends(a, m + 1, r) == Ends(a, p + 1, r) + (m - p) * a[m]
  {
    FlatUpTo(a, p, m, m + 1, r);
  }

  lemma {:induction false} FlatUpTo(a: seq<int>, p: int, m: nat, k: nat, r: nat)
    requires -1 <= p < k <= m + 1 <= r + 1 <= |a| && forall x :: p < x <= r ==> a[m] <= a[x]
    ensures Ends(a, k, r) == Ends(a, p + 1, r) + (k - 1 - p) * a[m]
    decreases k
  {
    if k > p + 1 {
      FlatUpTo(a, p, m, k - 1, r);
      LowIs(a, k - 1, r, m);
      assert (k - 1 - p) * a[m] == (k - 2 - p) * a[m] + a[m];
    }
  }

  // ----- nearest smaller neighbours

  /** The nearest position to the right with a smaller element, or the end. */
  ghost predicate IsRight(a: seq<int>, i: int, right: int) {
    && 0 <= i < right <= |a|
    && (forall x :: i < x < right ==> a[x] >= a[i])
    && (right < |a| ==> a[right] < a[i])
  }

  /** The nearest position to the left with an element no greater, or -1. */
  ghost predicate IsLeft(a: seq<int>, i: int, left: int) {
    && -1 <= left < i < |a|
    && (forall x :: left < x < i ==> a[x] > a[i])
    && (left >= 0 ==> a[left] <= a[i])
  }

  ghost predicate AreRights(a: seq<int>, right: seq<int>) {
    |right| == |a| && forall i :: 0 <= i < |a| ==> IsRight(a, i, right[i])
  }

  ghost predicate AreLefts(a: seq<int>, left: seq<int>) {
    |left| == |a| && forall i :: 0 <= i < |a| ==> IsLeft(a, i, left[i])
  }

  // ----- every subarray is charged to its leftmost minimum

  /** What positions below k have been charged once n elements are seen. */
  ghost function Charged(a: seq<int>, left: seq<int>, right: seq<int>, k: nat, n: nat): int
    requires k <= n <= |a| == |left| == |right|
  {
    if k == 0 then 0
    else Charged(a, left, right, k - 1, n) + (k - 1 - left[k - 1]) * (Min(right[k - 1], n) - (k - 1)) * a[k - 1]
  }

  /** What the first k positions are charged for subarrays that end at r. */
  ghost function Charge(a: seq<int>, left: seq<int>, right: seq<int>, k: nat, r: nat): int
    requires k <= r + 1 <= |a| == |left| == |right|
  {
    if k == 0 then 0
    else Charge(a, left, right, k - 1, r) + if right[k - 1] > r then (k - 1 - left[k - 1]) * a[k - 1] else 0
  }

  lemma StopsAtSmaller(a: seq<int>, i: int, right: int, m: int)
    requires IsRight(a, i, right) && i < m < |a| && a[m] < a[i]
    ensures right <= m
  {
  }

  /** The position before a suffix minimum that charges next is its left neighbour. */
  lemma LeftChargesToo(a: seq<int>, left: seq<int>, right: seq<int>, m: nat, r: nat)
    requires AreLefts(a, left) && AreRights(a, right) && m <= r < |a| && right[m] > r
    ensures left[m] >= 0 ==> right[left[m]] > r
    ensures forall i :: left[m] < i < m ==> right[i] <= r
    ensures forall x :: left[m] < x <= r ==> a[m] <= a[x]
  {
    assert IsLeft(a, m, left[m]) && IsRight(a, m, right[m]);
    if left[m] >= 0 {
      assert IsRight(a, left[m], right[left[m]]);
    }
    forall i | left[m] < i < m ensures right[i] <= r {
      StopsAtSmaller(a, i, right[i], m);
    }
  }

  lemma {:induction false} NoCharge(a: seq<int>, left: seq<int>, right: seq<int>, p: nat, k: nat, r: nat)
    requires p <= k <= r + 1 <= |a| == |left| == |right| && forall i :: p <= i < k ==> right[i] <= r
    ensures Charge(a, left, right, k, r) == Charge(a, left, right, p, r)
    decreases k
  {
    if p < k {
      NoCharge(a, left, right, p, k - 1, r);
    }
  }

  lemma {:induction false} ChargesAreEnds(a: seq<int>, left: seq<int>, right: seq<int>, m: nat, r: nat)
    requires AreLefts(a, left) && AreRights(a, right) && m <= r < |a| && right[m] > r
    ensures Charge(a, left, right, m + 1, r) == Ends(a, m + 1, r)
    decreases m
  {
    var p := left[m];
    assert IsLeft(a, m, p);
    LeftChargesToo(a, left, right, m, r);
    if p >= 0 {
      ChargesAreEnds(a, left, right, p, r);
    }
    NoCharge(a, left, right, p + 1, m, r);
    Flat(a, p, m, r);
  }

  lemma {:induction false} OneMore(a: seq<int>, left: seq<int>, right: seq<int>, k: nat, n: nat)
    requires AreLefts(a, left) && AreRights(a, right) && k <= n < |a|
    ensures Charged(a, left, right, k, n + 1) == Charged(a, left, right, k, n) + Charge(a, left, right, k, n)
  {
    if k > 0 {
      OneMore(a, left, right, k - 1, n);
      assert IsRight(a, k - 1, right[k - 1]);
      var c, d := k - 1 - left[k - 1], Min(right[k - 1], n) - (k - 1);
      if right[k - 1] > n {
        Distribute(c, d, a[k - 1]);
      }
    }
  }

  lemma Distribute(c: int, d: int, v: int)
    ensures c * (d + 1) * v == c * d * v + c * v
  {
    assert c * (d + 1) == c * d + c;
  }

  /** All charges together are the minima of all subarrays. */
  lemma {:induction false} ChargesAreMinSum(a: seq<int>, left: seq<int>, right: seq<int>, n: nat)
    requires AreLefts(a, left) && AreRights(a, right) && n <= |a|
    ensures Charged(a, left, right, n, n) == MinSum(a, n)
  {
    if n > 0 {
      var m := n - 1;
      ChargesAreMinSum(a, left, right, m);
      OneMore(a, left, right, m, m);
      assert IsRight(a, m, right[m]);
      ChargesAreEnds(a, left, right, m, m);
      LastCharge(m - left[m], a[m]);
    }
  }

  lemma LastCharge(c: int, v: int)
    ensures c * 1 * v == c * v
  {
  }

  // ----- the two stack passes

  /** Positions below i are settled or wait on the stack for a smaller element. */
  ghost predicate Waiting(a: seq<int>, st: seq<int>, right: seq<int>, i: int) {
    && 0 <= i <= |a| == |right|
    && (forall t :: 0 <= t < |st| ==> 0 <= st[t] < i)
    && (forall s, t :: 0 <= s < t < |st| ==> st[s] < st[t])
    && (forall t, x :: 0 <= t < |st| && st[t] < x < i ==> a[x] >= a[st[t]])
    && (forall j :: 0 <= j < i && j !in st ==> IsRight(a, j, right[j]))
  }

  lemma Push(a: seq<int>, st: seq<int>, right: seq<int>, i: int)
    requires Waiting(a, st, right, i) && i < |a| && (st != [] ==> a[i] >= a[st[|st| - 1]])
    ensures Waiting(a, st + [i], right, i + 1)
  {
    forall t | 0 <= t < |st| ensures a[i] >= a[st[t]] {
      assert a[st[|st| - 1]] >= a[st[t]];
    }
    forall j | 0 <= j < i + 1 && j !in st + [i] ensures IsRight(a, j, right[j]) {
      assert (st + [i])[|st|] == i;
      assert j !in st;
    }
  }

  lemma Pop(a: seq<int>, st: seq<int>, right: seq<int>, i: int)
    requires Waiting(a, st, right, i) && st != [] && (i < |a| ==> a[i] < a[st[|st| - 1]])
    ensures var p := st[|st| - 1]; 0 <= p < |right| && Waiting(a, st[..|st| - 1], right[p := i], i)
  {
    var p := st[|st| - 1];
    assert st == st[..|st| - 1] + [p];
    assert IsRight(a, p, i);
  }

  ghost predicate WaitingIn(a: seq<int>, stack: array<int>, size: int, right: array<int>, i: int)
    reads stack, right
  {
    0 <= size <= stack.Length && stack != right && Waiting(a, stack[..size], right[..], i)
  }

  method PopRight(a: seq<int>, stack: array<int>, size: int, right: array<int>, i: int)
    requires 0 < size <= stack.Length && WaitingIn(a, stack, size, right, i)
    requires 0 <= stack[size - 1] < |a| && (i < |a| ==> 0 <= i && a[i] < a[stack[size - 1]])
    modifies right
    ensures WaitingIn(a, stack, size - 1, right, i)
  {
    assert stack[..size][size - 1] == stack[size - 1];
    assert stack[..size][..size - 1] == stack[..size - 1];
    Pop(a, stack[..size], right[..], i);
    right[stack[size - 1]] := i;
  }

  method PushRight(a: seq<int>, stack: array<int>, size: int, right: array<int>, i: int)
    requires 0 <= size <= i < |a| == stack.Length && WaitingIn(a, stack, size, right, i)
    requires size > 0 ==> 0 <= stack[size - 1] < |a| && a[i] >= a[stack[size - 1]]
    modifies stack
    ensures WaitingIn(a, stack, size + 1, right, i + 1)
  {
    Push(a, stack[..size], right[..], i);
    stack[size] := i;
    assert stack[..size + 1] == old(stack[..size]) + [i];
  }

  lemma TopIsIndex(a: seq<int>, stack: array<int>, size: int, right: array<int>, i: int)
    requires WaitingIn(a, stack, size, right, i)
    ensures 0 <= size <= i && (size > 0 ==> size <= stack.Length && 0 <= stack[size - 1] < i)
  {
    if size > 0 {
      assert stack[..size][size - 1] == stack[size - 1];
      Climbs(stack[..size], size - 1);
    }
  }

  lemma {:induction false} Climbs(st: seq<int>, k: nat)
    requires k < |st| && (forall s, t :: 0 <= s < t < |st| ==> st[s] < st[t]) && st[0] >= 0
    ensures st[k] >= k
  {
    if k > 0 {
      Climbs(st, k - 1);
    }
  }

  method NearLessRight(a: seq<int>, stack: array<int>) returns (right: array<int>)
    requires stack.Length == |a|
    modifies stack
    ensures fresh(right) && AreRights(a, right[..])
  {
    var n := |a|;
    right := new int[n];
    var size := 0;
    NothingWaits(a, stack, right);
    hide *;
    for i := 0 to n
      invariant WaitingIn(a, stack, size, right, i)
    {
      TopIsIndex(a, stack, size, right, i);
      while size != 0 && a[i] < a[stack[size - 1]]
        invariant 0 <= size <= i && WaitingIn(a, stack, size, right, i)
        invariant size > 0 ==> 0 <= stack[size - 1] < i
      {
        size := size - 1;
        PopRight(a, stack, size + 1, right, i);
        TopIsIndex(a, stack, size, right, i);
      }
      PushRight(a, stack, size, right, i);
      size := size + 1;
    }
    SettleRest(a, stack, size, right);
  }

  /** The closing loop: what still waits has no smaller element to its right. */
  method SettleRest(a: seq<int>, stack: array<int>, last: int, right: array<int>)
    requires WaitingIn(a, stack, last, right, |a|)
    modifies right
    ensures AreRights(a, right[..])
  {
    hide *;
    var size, n := last, |a|;
    TopIsIndex(a, stack, size, right, n);
    while size != 0
      invariant 0 <= size <= n && WaitingIn(a, stack, size, right, n)
      invariant size > 0 ==> size <= stack.Length && 0 <= stack[size - 1] < n
    {
      size := size - 1;
      PopRight(a, stack, size + 1, right, n);
      TopIsIndex(a, stack, size, right, n);
    }
    AllSettled(a, stack, right);
  }

  lemma NothingWaits(a: seq<int>, stack: array<int>, right: array<int>)
    requires stack != right && right.Length == |a|
    ensures WaitingIn(a, stack, 0, right, 0)
  {
  }

  lemma AllSettled(a: seq<int>, stack: array<int>, right: array<int>)
    requires WaitingIn(a, stack, 0, right, |a|)
    ensures AreRights(a, right[..])
  {
  }

  /** The pass from the right, where equal elements do settle one another. */
  ghost predicate WaitingLeft(a: seq<int>, st: seq<int>, left: seq<int>, i: int) {
    && 0 <= i <= |a| == |left|
    && (forall t :: 0 <= t < |st| ==> i <= st[t] < |a|)
    && (forall s, t :: 0 <= s < t < |st| ==> st[s] > st[t])
    && (forall t, x :: 0 <= t < |st| && i <= x < st[t] ==> a[x] > a[st[t]])
    && (forall j :: i <= j < |a| && j !in st ==> IsLeft(a, j, left[j]))
  }

  lemma PushLeftward(a: seq<int>, st: seq<int>, left: seq<int>, i: int)
    requires WaitingLeft(a, st, left, i + 1) && 0 <= i && (st != [] ==> a[i] > a[st[|st| - 1]])
    ensures WaitingLeft(a, st + [i], left, i)
  {
    forall t | 0 <= t < |st| ensures a[i] > a[st[t]] {
      assert a[st[|st| - 1]] >= a[st[t]];
    }
    forall j | i <= j < |a| && j !in st + [i] ensures IsLeft(a, j, left[j]) {
      assert (st + [i])[|st|] == i;
      assert j !in st;
    }
  }

  lemma PopLeftward(a: seq<int>, st: seq<int>, left: seq<int>, i: int)
    requires WaitingLeft(a, st, left, i + 1) && -1 <= i && st != [] && (i >= 0 ==> a[i] <= a[st[|st| - 1]])
    ensures var p := st[|st| - 1]; 0 <= p < |left| && WaitingLeft(a, st[..|st| - 1], left[p := i], i + 1)
  {
    var p := st[|st| - 1];
    assert st == st[..|st| - 1] + [p];
    assert IsLeft(a, p, i);
  }

  ghost predicate WaitingLeftIn(a: seq<int>, stack: array<int>, size: int, left: array<int>, i: int)
    reads stack, left
  {
    0 <= size <= stack.Length && stack != left && WaitingLeft(a, stack[..size], left[..], i)
  }

  method PopLeft(a: seq<int>, stack: array<int>, size: int, left: array<int>, i: int)
    requires 0 < size <= stack.Length && WaitingLeftIn(a, stack, size, left, i + 1)
    requires 0 <= stack[size - 1] < |a| && -1 <= i < |a| && (i >= 0 ==> a[i] <= a[stack[size - 1]])
    modifies left
    ensures WaitingLeftIn(a, stack, size - 1, left, i + 1)
  {
    assert stack[..size][size - 1] == stack[size - 1];
    assert stack[..size][..size - 1] == stack[..size - 1];
    PopLeftward(a, stack[..size], left[..], i);
    left[stack[size - 1]] := i;
  }

  method PushLeft(a: seq<int>, stack: array<int>, size: int, left: array<int>, i: int)
    requires 0 <= size < stack.Length && 0 <= i < |a| && WaitingLeftIn(a, stack, size, left, i + 1)
    requires size > 0 ==> 0 <= stack[size - 1] < |a| && a[i] > a[stack[size - 1]]
    modifies stack
    ensures WaitingLeftIn(a, stack, size + 1, left, i)
  {
    PushLeftward(a, stack[..size], left[..], i);
    stack[size] := i;
    assert stack[..size + 1] == old(stack[..size]) + [i];
  }

  lemma TopIsIndexLeft(a: seq<int>, stack: array<int>, size: int, left: array<int>, i: int)
    requires WaitingLeftIn(a, stack, size, left, i)
    ensures 0 <= size <= |a| - i && (size > 0 ==> size <= stack.Length && i <= stack[size - 1] < |a|)
  {
    if size > 0 {
      assert stack[..size][size - 1] == stack[size - 1];
      Descends(stack[..size], size - 1);
    }
  }

  lemma {:induction false} Descends(st: seq<int>, k: nat)
    requires k < |st| && forall s, t :: 0 <= s < t < |st| ==> st[s] > st[t]
    ensures st[k] <= st[0] - k
  {
    if k > 0 {
      Descends(st, k - 1);
    }
  }

  method NearLessLeft(a: seq<int>, stack: array<int>) returns (left: array<int>)
    requires stack.Length == |a|
    modifies stack
    ensures fresh(left) && AreLefts(a, left[..])
  {
    var n := |a|;
    left := new int[n];
    var size := 0;
    NothingWaitsLeft(a, stack, left);
    hide *;
    for i := n downto 0
      invariant WaitingLeftIn(a, stack, size, left, i)
    {
      TopIsIndexLeft(a, stack, size, left, i + 1);
      while size != 0 && a[i] <= a[stack[size - 1]]
        invariant 0 <= size < n - i && WaitingLeftIn(a, stack, size, left, i + 1)
        invariant size > 0 ==> 0 <= stack[size - 1] < n
      {
        size := size - 1;
        PopLeft(a, stack, size + 1, left, i);
        TopIsIndexLeft(a, stack, size, left, i + 1);
      }
      PushLeft(a, stack, size, left, i);
      size := size + 1;
    }
    TopIsIndexLeft(a, stack, size, left, 0);
    while size != 0
      invariant 0 <= size <= n && WaitingLeftIn(a, stack, size, left, 0)
      invariant size > 0 ==> 0 <= stack[size - 1] < n
    {
      size := size - 1;
      PopLeft(a, stack, size + 1, left, -1);
      TopIsIndexLeft(a, stack, size, left, 0);
    }
    AllSettledLeft(a, stack, left);
  }

  lemma NothingWaitsLeft(a: seq<int>, stack: array<int>, left: array<int>)
    requires stack != left && left.Length == |a|
    ensures WaitingLeftIn(a, stack, 0, left, |a|)
  {
  }

  lemma AllSettledLeft(a: seq<int>, stack: array<int>, left: array<int>)
    requires WaitingLeftIn(a, stack, 0, left, 0)
    ensures AreLefts(a, left[..])
  {
  }

  // ----- the sum

  const MODULUS: int := 1_000_000_007

  /** The remainder as the program computes it: rounding toward zero. */
  function Rem(x: int): (y: int)
    ensures -MODULUS < y < MODULUS
  {
    if x >= 0 then x % MODULUS else -(-x % MODULUS)
  }

  ghost predicate SameRemainder(x: int, y: int) {
    exists q: int {:trigger q * MODULUS} :: x == y + q * MODULUS
  }

  lemma RemSame(x: int)
    ensures SameRemainder(Rem(x), x)
  {
    if x >= 0 {
      assert x == (x / MODULUS) * MODULUS + x % MODULUS;
      assert Rem(x) == x + (-(x / MODULUS)) * MODULUS;
    } else {
      assert -x == (-x / MODULUS) * MODULUS + -x % MODULUS;
      assert Rem(x) == x + (-x / MODULUS) * MODULUS;
    }
  }

  lemma AddSame(x: int, y: int, c: int)
    requires SameRemainder(x, y)
    ensures SameRemainder(Rem(x + c), y + c)
  {
    RemSame(x + c);
    var p :| x == y + p * MODULUS;
    var q :| Rem(x + c) == x + c + q * MODULUS;
    assert Rem(x + c) == y + c + (p + q) * MODULUS;
  }

  lemma UniqueRemainder(x: int, y: int)
    requires SameRemainder(x, y) && 0 <= x < MODULUS
    ensures x == y % MODULUS
  {
    var q :| x == y + q * MODULUS;
    assert y == (-q) * MODULUS + x;
    DivisionIsUnique(y, -q, x);
  }

  lemma DivisionIsUnique(y: int, q: int, x: int)
    requires y == q * MODULUS + x && 0 <= x < MODULUS
    ensures x == y % MODULUS
  {
  }

  lemma NegatedSame(x: int, y: int)
    requires SameRemainder(x, y)
    ensures SameRemainder(-x, -y)
  {
    var q :| x == y + q * MODULUS;
    assert -x == -y + (-q) * MODULUS;
  }

  ghost predicate NoneNegative(a: seq<int>) {
    forall i :: 0 <= i < |a| ==> a[i] >= 0
  }

  ghost predicate NonePositive(a: seq<int>) {
    forall i :: 0 <= i < |a| ==> a[i] <= 0
  }

  /** The charges of the first k positions added up one by one, each time cut to a remainder. */
  ghost function Wrapped(a: seq<int>, left: seq<int>, right: seq<int>, k: nat): int
    requires k <= |a| == |left| == |right|
  {
    if k == 0 then 0
    else Rem(Wrapped(a, left, right, k - 1) + (k - 1 - left[k - 1]) * (right[k - 1] - (k - 1)) * a[k - 1])
  }

  method SumSubarrayMins(a: seq<int>) returns (sum: int)
    ensures -1_000_000_007 < sum < 1_000_000_007
    ensures exists q: int {:trigger q * 1_000_000_007} :: sum == MinSum(a, |a|) + q * 1_000_000_007
    ensures NoneNegative(a) ==> sum == MinSum(a, |a|) % 1_000_000_007
    ensures NoneNegative(a) && 0 <= MinSum(a, |a|) < 1_000_000_007 ==> sum == MinSum(a, |a|)
    ensures NonePositive(a) ==> sum == -(-MinSum(a, |a|) % 1_000_000_007)
    ensures exists ls, rs :: AreLefts(a, ls) && AreRights(a, rs) && sum == Wrapped(a, ls, rs, |a|)
  {
    var stack := new int[|a|];
    var left := NearLessLeft(a, stack);
    var right := NearLessRight(a, stack);
    ghost var ls, rs := left[..], right[..];
    var num := 0;
    NothingAdded(a, ls, rs);
    hide *;
    for i := 0 to |a|
      invariant left[..] == ls && right[..] == rs && |ls| == |rs| == |a| && Added(a, ls, rs, i, num)
    {
      assert left[i] == ls[i] && right[i] == rs[i];
      var start, end := i - left[i], right[i] - i;
      AddNext(a, ls, rs, i, num, start, end);
      num := Rem(num + start * end * a[i]);
    }
    ChargesAreMinSum(a, ls, rs, |a|);
    sum := num;
    TheRemainder(a, ls, rs, sum);
  }

  /** The running sum once the first i positions are charged. */
  ghost predicate Added(a: seq<int>, left: seq<int>, right: seq<int>, i: nat, num: int) {
    && i <= |a| == |left| == |right|
    && -MODULUS < num < MODULUS && SameRemainder(num, Charged(a, left, right, i, |a|))
    && num == Wrapped(a, left, right, i)
    && (NoneNegative(a) ==> num >= 0) && (NonePositive(a) ==> num <= 0)
  }

  lemma NothingAdded(a: seq<int>, left: seq<int>, right: seq<int>)
    requires AreLefts(a, left) && AreRights(a, right)
    ensures Added(a, left, right, 0, 0)
  {
    assert 0 == 0 + 0 * MODULUS;
  }

  lemma AddNext(a: seq<int>, left: seq<int>, right: seq<int>, i: nat, num: int, start: int, end: int)
    requires AreLefts(a, left) && AreRights(a, right) && i < |a| == |left| == |right|
    requires Added(a, left, right, i, num)
    requires start == i - left[i] && end == right[i] - i
    ensures Added(a, left, right, i + 1, Rem(num + start * end * a[i]))
  {
    assert IsLeft(a, i, left[i]) && IsRight(a, i, right[i]);
    hide AreLefts, AreRights, SameRemainder;
    AddSame(num, Charged(a, left, right, i, |a|), start * end * a[i]);
    ProductSign(start, end, a[i]);
    RemSign(num + start * end * a[i]);
  }

  lemma RemSign(x: int)
    ensures (x >= 0 ==> Rem(x) >= 0) && (x <= 0 ==> Rem(x) <= 0)
  {
  }

  lemma TheRemainder(a: seq<int>, left: seq<int>, right: seq<int>, sum: int)
    requires Added(a, left, right, |a|, sum) && Charged(a, left, right, |a|, |a|) == MinSum(a, |a|)
    ensures -1_000_000_007 < sum < 1_000_000_007 && sum == Wrapped(a, left, right, |a|)
    ensures exists q: int {:trigger q * 1_000_000_007} :: sum == MinSum(a, |a|) + q * 1_000_000_007
    ensures NoneNegative(a) ==> sum == MinSum(a, |a|) % 1_000_000_007
    ensures NonePositive(a) ==> sum == -(-MinSum(a, |a|) % 1_000_000_007)
  {
    var q :| sum == MinSum(a, |a|) + q * MODULUS;
    assert sum == MinSum(a, |a|) + q * 1_000_000_007;
    if NoneNegative(a) {
      UniqueRemainder(sum, MinSum(a, |a|));
    }
    if NonePositive(a) {
      NegatedSame(sum, MinSum(a, |a|));
      UniqueRemainder(-sum, -MinSum(a, |a|));
    }
  }

  lemma ProductSign(c: int, d: int, v: int)
    requires c > 0 && d > 0
    ensures (v >= 0 ==> c * d * v >= 0) && (v <= 0 ==> c * d * v <= 0)
  {
    assert c * d > 0;
  }
}
