/** The two tables over (coin value, amount): enumerated, and filled through monotone deques. */
module CoinTables {
  import opened BoundedCoins
  import opened Tables

  // ----- the window minimum, over one remainder class

  /** Being at q costs no more than coming to q from p, one coin per step. */
  ghost predicate Dominates(v: int -> Cost, q: int, p: int) {
    p <= q && v(q).Leq(v(p).Beyond(q - p))
  }

  ghost predicate Strict(v: int -> Cost, p: int, q: int) {
    p < q && v(p).Finite? && !Dominates(v, q, p)
  }

  ghost predicate Covered(v: int -> Cost, ts: seq<int>, p: int) {
    exists i :: 0 <= i < |ts| && Dominates(v, ts[i], p)
  }

  ghost predicate Sorted(v: int -> Cost, ts: seq<int>) {
    forall a, b :: 0 <= a < b < |ts| ==> Strict(v, ts[a], ts[b])
  }

  /** The deque at step t over a window of z earlier steps. */
  ghost predicate Window(v: int -> Cost, z: nat, t: nat, ts: seq<int>) {
    && ts != [] && ts[|ts| - 1] == t && Sorted(v, ts)
    && (forall i :: 0 <= i < |ts| ==> 0 <= ts[i] && t - z <= ts[i])
    && forall p {:trigger Covered(v, ts, p)} :: 0 <= p <= t && t - z <= p ==> Covered(v, ts, p)
  }

  /** The head is the cheapest start in the window; it can be invalid only as the current cell. */
  lemma FrontIsBest(v: int -> Cost, z: nat, t: nat, ts: seq<int>, p: int)
    requires Window(v, z, t, ts) && 0 <= p <= t && t - z <= p
    ensures ts[0] <= t && v(ts[0]).Beyond(t - ts[0]).Leq(v(p).Beyond(t - p))
    ensures v(ts[0]).Unreachable? ==> ts[0] == t
  {
    assert Covered(v, ts, p);
    var i :| 0 <= i < |ts| && Dominates(v, ts[i], p);
    assert i > 0 ==> Strict(v, ts[0], ts[i]);
    assert |ts| > 1 ==> Strict(v, ts[0], ts[|ts| - 1]);
    assert i < |ts| - 1 ==> Strict(v, ts[i], ts[|ts| - 1]);
  }

  lemma DominatesTransitive(v: int -> Cost, r: int, q: int, p: int)
    requires Dominates(v, r, q) && Dominates(v, q, p)
    ensures Dominates(v, r, p)
  {
  }

  /** Popping what t dominates and pushing t keeps the deque strictly increasing. */
  lemma PushKeepsSorted(v: int -> Cost, t: int, kept: seq<int>)
    requires Sorted(v, kept) && (forall i :: 0 <= i < |kept| ==> kept[i] < t)
    requires kept != [] ==> !Dominates(v, t, kept[|kept| - 1])
    ensures Sorted(v, kept + [t])
  {
    var ts := kept + [t];
    forall a, b | 0 <= a < b < |ts| ensures Strict(v, ts[a], ts[b]) {
      if b == |kept| {
        var last := kept[|kept| - 1];
        assert a < |kept| - 1 ==> Strict(v, kept[a], last);
      } else {
        assert Strict(v, kept[a], kept[b]);
      }
    }
  }

  lemma PushKeepsCover(v: int -> Cost, z: nat, t: nat, prior: seq<int>, k: nat, p: int)
    requires t > 0 && Window(v, z, t - 1, prior) && k <= |prior|
    requires forall i :: k <= i < |prior| ==> Dominates(v, t, prior[i])
    requires 0 <= p <= t && t - z <= p
    ensures exists i :: 0 <= i < |prior[..k] + [t]| && Dominates(v, (prior[..k] + [t])[i], p)
  {
    var ts := prior[..k] + [t];
    if p == t {
      assert Dominates(v, ts[k], p);
    } else {
      assert Covered(v, prior, p);
      var i :| 0 <= i < |prior| && Dominates(v, prior[i], p);
      if i < k {
        assert Dominates(v, ts[i], p);
      } else {
        DominatesTransitive(v, t, prior[i], p);
        assert Dominates(v, ts[k], p);
      }
    }
  }

  /** What is left after dropping an expired head still covers the window. */
  lemma SlideKeepsWindow(v: int -> Cost, z: nat, t: nat, prior: seq<int>, k: nat, ts: seq<int>)
    requires t > 0 && Window(v, z, t - 1, prior) && k <= |prior|
    requires forall i :: k <= i < |prior| ==> Dominates(v, t, prior[i])
    requires k > 0 ==> !Dominates(v, t, prior[k - 1])
    requires var pushed := prior[..k] + [t]; ts == if pushed[0] == t - z - 1 then pushed[1..] else pushed
    ensures Window(v, z, t, ts)
  {
    var pushed := prior[..k] + [t];
    BeforeLast(v, z, t - 1, prior);
    PushKeepsSorted(v, t, prior[..k]);
    var d := if pushed[0] == t - z - 1 then 1 else 0;
    assert forall i :: 0 <= i < |ts| ==> ts[i] == pushed[i + d];
    forall p | 0 <= p <= t && t - z <= p ensures Covered(v, ts, p) {
      PushKeepsCover(v, z, t, prior, k, p);
      var i :| 0 <= i < |pushed| && Dominates(v, pushed[i], p);
      assert Dominates(v, ts[i - d], p);
    }
    forall i | 0 <= i < |ts| ensures 0 <= ts[i] && t - z <= ts[i] {
      assert i + d > 0 ==> Strict(v, pushed[0], pushed[i + d]);
    }
  }

  lemma BeforeLast(v: int -> Cost, z: nat, t: nat, ts: seq<int>)
    requires Window(v, z, t, ts)
    ensures forall i :: 0 <= i < |ts| ==> ts[i] <= t
  {
    forall i | 0 <= i < |ts| ensures ts[i] <= t {
      assert i < |ts| - 1 ==> Strict(v, ts[i], ts[|ts| - 1]);
    }
  }

  lemma WindowHolds(v: int -> Cost, z: nat, t: nat, ts: seq<int>)
    requires Window(v, z, t, ts)
    ensures ts != []
  {
  }

  lemma WindowStarts(v: int -> Cost, z: nat)
    ensures Window(v, z, 0, [0])
  {
    assert Dominates(v, [0][0], 0);
  }

  // ----- positions of one remainder class

  ghost function At(coin: int, mod: int, t: int): int {
    mod + t * coin
  }

  /** The costs along the class of mod, as a function of the step. */
  ghost function Along(next: seq<Cost>, coin: int, mod: int): int -> Cost {
    t => if 0 <= At(coin, mod, t) < |next| then next[At(coin, mod, t)] else Unreachable
  }

  lemma Divides(d: int, coin: int)
    requires coin > 0
    ensures d * coin / coin == d
  {
    var r := d * coin;
    ModIsUnique(r, coin, d, 0);
    assert (r / coin - d) * coin == r / coin * coin - r;
    Grows(r / coin - d, coin);
    Grows(d - r / coin, coin);
  }

  lemma Grows(d: int, coin: int)
    requires coin > 0
    ensures d > 0 <==> d * coin > 0
  {
  }

  lemma StepsApart(coin: int, mod: int, p: int, t: int)
    requires coin > 0
    ensures At(coin, mod, t) - At(coin, mod, p) == (t - p) * coin
    ensures (At(coin, mod, t) - At(coin, mod, p)) / coin == t - p
    ensures p < t <==> At(coin, mod, p) < At(coin, mod, t)
    ensures At(coin, mod, t + 1) == At(coin, mod, t) + coin
  {
    var d := t - p;
    assert d * coin == t * coin - p * coin;
    Divides(d, coin);
    Grows(d, coin);
  }

  /** The amounts of a class are the ones with its remainder, and consecutive ones are coin apart. */
  lemma Remainder(coin: int, mod: int, t: int)
    requires 0 <= mod < coin
    ensures At(coin, mod, t) % coin == mod
  {
    var r := At(coin, mod, t);
    ModIsUnique(r, coin, t, mod);
  }

  lemma ModIsUnique(r: int, coin: int, q: int, mod: int)
    requires 0 <= mod < coin && r == q * coin + mod
    ensures r % coin == mod
  {
    var d := r / coin - q;
    assert r == (r / coin) * coin + r % coin;
    assert d * coin == mod - r % coin;
    Grows(d, coin);
    Grows(-d, coin);
    if d >= 1 {
      assert d * coin == coin + (d - 1) * coin;
      Grows(d - 1, coin);
    }
    if d <= -1 {
      assert -d * coin == coin + (-d - 1) * coin;
      Grows(-d - 1, coin);
    }
  }

  lemma NextOfClass(coin: int, mod: int, r: int, b: int)
    requires 0 <= mod < coin && r % coin == mod && r <= b < r + coin && b % coin == mod
    ensures b == r
  {
    assert b == b / coin * coin + mod && r == r / coin * coin + mod;
    var d := b / coin - r / coin;
    assert d * coin == b - r;
    if d >= 1 {
      assert d * coin == coin + (d - 1) * coin;
      Grows(d - 1, coin);
    }
    Grows(-d, coin);
  }

  lemma ExpiredPosition(coin: int, zhang: int, mod: int, t: int, p: int)
    requires coin > 0
    ensures At(coin, mod, t) - coin * (zhang + 1) == At(coin, mod, p) <==> p == t - zhang - 1
  {
    StepsApart(coin, mod, t - zhang - 1, t);
    StepsApart(coin, mod, p, t - zhang - 1);
    StepsApart(coin, mod, t - zhang - 1, p);
  }

  /** A cell filled from the deque's head is the row's entry. */
  lemma HeadIsEntry(next: seq<Cost>, coin: int, zhang: nat, mod: int, t: nat, ts: seq<int>)
    requires coin > 0 && 0 <= mod < coin && At(coin, mod, t) < |next|
    requires Window(Along(next, coin, mod), zhang, t, ts)
    ensures 0 <= At(coin, mod, t) && 0 <= ts[0] <= t && 0 <= At(coin, mod, ts[0]) <= At(coin, mod, t)
    ensures next[At(coin, mod, ts[0])].Unreachable? ==> ts[0] == t
    ensures IsRowEntry(next, coin, zhang, At(coin, mod, t), next[At(coin, mod, ts[0])].Beyond(t - ts[0]))
  {
    var v, r, c := Along(next, coin, mod), At(coin, mod, t), Along(next, coin, mod)(ts[0]).Beyond(0);
    FrontIsBest(v, zhang, t, ts, t);
    StepsApart(coin, mod, ts[0], t);
    StepsApart(coin, mod, 0, ts[0]);
    var entry := next[At(coin, mod, ts[0])].Beyond(t - ts[0]);
    var k0: nat := t - ts[0];
    assert r - k0 * coin == At(coin, mod, ts[0]);
    assert Usable(coin, zhang, r, k0) && entry == UsingOr(next, coin, r, k0);
    forall k: nat | Usable(coin, zhang, r, k) ensures entry.Leq(UsingOr(next, coin, r, k)) {
      StepsApart(coin, mod, t - k, t);
      StepsApart(coin, mod, t - k, -1);
      StepsApart(coin, mod, -1, t - k);
      FrontIsBest(v, zhang, t, ts, t - k);
    }
  }

  // ----- the tables

  /** The cells of cur up to r (exclusive) in the class of mod are row entries. */
  ghost predicate ClassDone(next: seq<Cost>, coin: int, zhang: nat, mod: int, r: int, cur: seq<Cost>)
    requires coin > 0
  {
    |cur| == |next| && forall b :: 0 <= b < |cur| && b < r && b % coin == mod ==>
        IsRowEntry(next, coin, zhang, b, cur[b])
  }

  ghost predicate SameElsewhere(coin: int, mod: int, before: seq<Cost>, cur: seq<Cost>)
    requires coin > 0
  {
    |cur| == |before| && forall b :: 0 <= b < |cur| && b % coin != mod ==> cur[b] == before[b]
  }

  lemma ClassGrows(next: seq<Cost>, coin: int, zhang: nat, mod: int, r: int, before: seq<Cost>, cur: seq<Cost>, c: Cost)
    requires 0 <= mod < coin && 0 <= r < |next| && r % coin == mod
    requires ClassDone(next, coin, zhang, mod, r, cur) && SameElsewhere(coin, mod, before, cur)
    requires IsRowEntry(next, coin, zhang, r, c)
    ensures ClassDone(next, coin, zhang, mod, r + coin, cur[r := c]) && SameElsewhere(coin, mod, before, cur[r := c])
  {
    forall b | 0 <= b < |cur| && b < r + coin && b % coin == mod
      ensures IsRowEntry(next, coin, zhang, b, cur[r := c][b])
    {
      if b >= r {
        NextOfClass(coin, mod, r, b);
      }
    }
  }

  /** compensate: the coins paid between two amounts of a class. */
  function Compensate(pre: int, cur: int, coin: int): int
    requires coin > 0
  {
    (cur - pre) / coin
  }

  /** The inner while loop: drops from the tail what the new amount makes useless. */
  method PopWorse(dp: array2<Cost>, i: nat, coin: int, r: int, w0: seq<int>, ghost next: seq<Cost>, ghost mod: int,
                  ghost t: nat, ghost ts: seq<int>, ghost zhang: nat) returns (w: seq<int>)
    requires i + 1 < dp.Length0 && coin > 0 && 0 <= mod && 0 <= r < dp.Length1 && next == RowOf(dp, i + 1)
    requires r == At(coin, mod, t) && t > 0 && Window(Along(next, coin, mod), zhang, t - 1, ts)
    requires |w0| == |ts| && forall a :: 0 <= a < |ts| ==> w0[a] == At(coin, mod, ts[a])
    ensures w <= w0
    ensures forall a :: |w| <= a < |ts| ==> Dominates(Along(next, coin, mod), t, ts[a])
    ensures w != [] ==> !Dominates(Along(next, coin, mod), t, ts[|w| - 1])
  {
    ghost var v := Along(next, coin, mod);
    w := w0;
    BeforeLast(v, zhang, t - 1, ts);
    while w != []
      invariant w <= w0 && forall a :: |w| <= a < |ts| ==> Dominates(v, t, ts[a])
      decreases |w|
    {
      var last := w[|w| - 1];
      ghost var p := ts[|w| - 1];
      StepsApart(coin, mod, p, t);
      StepsApart(coin, mod, 0, p);
      assert 0 <= last < r && v(p) == next[last] == dp[i + 1, last];
      if dp[i + 1, last].Unreachable?
         || (dp[i + 1, r].Finite? && dp[i + 1, last].n + Compensate(last, r, coin) >= dp[i + 1, r].n) {
        assert Dominates(v, t, p);
        w := w[..|w| - 1];
      } else {
        assert !Dominates(v, t, p);
        break;
      }
    }
  }

  /** One step of a class: move the window to r and read the cell off the deque's head. */
  method SlideStep(dp: array2<Cost>, i: nat, coin: int, zhang: nat, r: int, w0: seq<int>, ghost next: seq<Cost>,
                   ghost mod: int, ghost t: nat, ghost ts0: seq<int>) returns (w: seq<int>, c: Cost, ghost ts: seq<int>)
    requires i + 1 < dp.Length0 && coin > 0 && 0 <= mod < coin && 0 <= r < dp.Length1 && next == RowOf(dp, i + 1)
    requires r == At(coin, mod, t) && t > 0 && Window(Along(next, coin, mod), zhang, t - 1, ts0)
    requires |w0| == |ts0| && forall a :: 0 <= a < |ts0| ==> w0[a] == At(coin, mod, ts0[a])
    ensures Window(Along(next, coin, mod), zhang, t, ts)
    ensures |w| == |ts| && forall a :: 0 <= a < |ts| ==> w[a] == At(coin, mod, ts[a])
    ensures IsRowEntry(next, coin, zhang, r, c)
  {
    hide Window, IsRowEntry, Along, At, Dominates, Strict;
    w := PopWorse(dp, i, coin, r, w0, next, mod, t, ts0, zhang);
    WindowHolds(Along(next, coin, mod), zhang, t - 1, ts0);
    ghost var k, pushed := |w|, ts0[..|w|] + [t];
    w := w + [r];
    assert forall a :: 0 <= a <= k ==> w[a] == At(coin, mod, pushed[a]);
    var overdue := r - coin * (zhang + 1);
    ExpiredPosition(coin, zhang, mod, t, pushed[0]);
    if overdue == w[0] {
      w := w[1..];
    }
    ts := if pushed[0] == t - zhang - 1 then pushed[1..] else pushed;
    SlideKeepsWindow(Along(next, coin, mod), zhang, t, ts0, k, ts);
    WindowHolds(Along(next, coin, mod), zhang, t, ts);
    HeadIsEntry(next, coin, zhang, mod, t, ts);
    StepsApart(coin, mod, ts[0], t);
    assert w[0] == At(coin, mod, ts[0]) && dp[i + 1, w[0]] == next[w[0]];
    c := dp[i + 1, w[0]].Plus(Compensate(w[0], r, coin));
  }

  /** One remainder class of one row. */
  method SlideClass(dp: array2<Cost>, i: nat, coin: int, zhang: nat, mod: int, ghost next: seq<Cost>)
    requires i + 1 < dp.Length0 && coin > 0 && 0 <= mod < coin && mod < dp.Length1 && next == RowOf(dp, i + 1)
    modifies dp
    ensures ClassDone(next, coin, zhang, mod, dp.Length1, RowOf(dp, i))
    ensures SameElsewhere(coin, mod, old(RowOf(dp, i)), RowOf(dp, i))
    ensures forall a :: 0 <= a < dp.Length0 && a != i ==> RowOf(dp, a) == old(RowOf(dp, a))
  {
    ghost var before := RowOf(dp, i);
    var w := [mod];
    ghost var t: nat, ts := 0, [0];
    WindowStarts(Along(next, coin, mod), zhang);
    HeadIsEntry(next, coin, zhang, mod, 0, ts);
    Remainder(coin, mod, 0);
    ClassStarts(next, coin, zhang, mod, before, dp[i + 1, mod]);
    Write(dp, i, mod, dp[i + 1, mod]);
    var r := mod + coin;
    while r < dp.Length1
      invariant mod <= r == At(coin, mod, t + 1)
      invariant forall a :: 0 <= a < dp.Length0 && a != i ==> RowOf(dp, a) == old(RowOf(dp, a))
      invariant Window(Along(next, coin, mod), zhang, t, ts)
      invariant |w| == |ts| && forall a :: 0 <= a < |ts| ==> w[a] == At(coin, mod, ts[a])
      invariant ClassDone(next, coin, zhang, mod, r, RowOf(dp, i)) && SameElsewhere(coin, mod, before, RowOf(dp, i))
      decreases dp.Length1 - r
    {
      t := t + 1;
      var c;
      w, c, ts := SlideStep(dp, i, coin, zhang, r, w, next, mod, t, ts);
      Remainder(coin, mod, t);
      ClassGrows(next, coin, zhang, mod, r, before, RowOf(dp, i), c);
      Write(dp, i, r, c);
      StepsApart(coin, mod, 0, t);
      r := r + coin;
    }
  }

  lemma ClassStarts(next: seq<Cost>, coin: int, zhang: nat, mod: int, before: seq<Cost>, c: Cost)
    requires 0 <= mod < coin && mod < |next| == |before| && IsRowEntry(next, coin, zhang, mod, c)
    ensures ClassDone(next, coin, zhang, mod, mod + coin, before[mod := c])
        && SameElsewhere(coin, mod, before, before[mod := c])
  {
    Remainder(coin, mod, 0);
    forall b | 0 <= b < |next| && b < mod && b % coin == mod ensures false {
      Below(coin, mod, b);
    }
    ClassGrows(next, coin, zhang, mod, mod, before, before, c);
  }

  lemma Below(coin: int, mod: int, b: int)
    requires 0 <= b < mod < coin
    ensures b % coin != mod
  {
    ModIsUnique(b, coin, 0, b);
  }

  /**
   A whole row through deques, one remainder class after another.  A value that is not positive
   has no classes, so its row stays as it is.
  */
  method SlideRow(dp: array2<Cost>, i: nat, coin: int, zhang: nat, ghost next: seq<Cost>)
    requires i + 1 < dp.Length0 && next == RowOf(dp, i + 1)
    modifies dp
    ensures coin > 0 ==> RowDone(next, coin, zhang, dp.Length1, RowOf(dp, i))
    ensures coin <= 0 ==> RowOf(dp, i) == old(RowOf(dp, i))
    ensures forall a :: 0 <= a < dp.Length0 && a != i ==> RowOf(dp, a) == old(RowOf(dp, a))
  {
    var classes := if dp.Length1 < coin then dp.Length1 else coin;
    var mod := 0;
    while mod < classes
      invariant 0 <= mod && (coin > 0 ==> mod <= classes)
      invariant forall a :: 0 <= a < dp.Length0 && a != i ==> RowOf(dp, a) == old(RowOf(dp, a))
      invariant coin <= 0 ==> RowOf(dp, i) == old(RowOf(dp, i))
      invariant coin > 0 ==> forall m :: 0 <= m < mod ==> ClassDone(next, coin, zhang, m, dp.Length1, RowOf(dp, i))
    {
      ghost var before := RowOf(dp, i);
      SlideClass(dp, i, coin, zhang, mod, next);
      forall m | 0 <= m < mod ensures ClassDone(next, coin, zhang, m, dp.Length1, RowOf(dp, i)) {
        OtherClassKept(next, coin, zhang, m, mod, before, RowOf(dp, i));
      }
      mod := mod + 1;
    }
    if coin > 0 {
      ClassesMakeRow(next, coin, zhang, classes, RowOf(dp, i));
    }
  }

  ghost predicate RowDone(next: seq<Cost>, coin: int, zhang: nat, bound: int, cur: seq<Cost>)
    requires coin >= 0
  {
    |cur| == |next| && forall r :: 0 <= r < |cur| && r < bound ==> IsRowEntry(next, coin, zhang, r, cur[r])
  }

  lemma OtherClassKept(next: seq<Cost>, coin: int, zhang: nat, m: int, mod: int, before: seq<Cost>, cur: seq<Cost>)
    requires coin > 0 && m != mod && SameElsewhere(coin, mod, before, cur)
    requires ClassDone(next, coin, zhang, m, |next|, before)
    ensures ClassDone(next, coin, zhang, m, |next|, cur)
  {
  }

  lemma ClassesMakeRow(next: seq<Cost>, coin: int, zhang: nat, classes: int, cur: seq<Cost>)
    requires coin > 0 && classes == (if |next| < coin then |next| else coin) && |cur| == |next|
    requires forall m :: 0 <= m < classes ==> ClassDone(next, coin, zhang, m, |next|, cur)
    ensures RowDone(next, coin, zhang, |next|, cur)
  {
    forall r | 0 <= r < |cur| ensures IsRowEntry(next, coin, zhang, r, cur[r]) {
      if r < coin {
        ModIsUnique(r, coin, 0, r);
      }
      assert ClassDone(next, coin, zhang, r % coin, |next|, cur);
    }
  }

  // ----- the enumerated row

  /** c is the least over the usable numbers of coins below a bound. */
  ghost predicate BestBelow(next: seq<Cost>, coin: int, zhang: nat, r: int, bound: nat, c: Cost) {
    && (exists k: nat :: k < bound && Usable(coin, zhang, r, k) && c == UsingOr(next, coin, r, k))
    && forall k: nat :: k < bound && Usable(coin, zhang, r, k) ==> c.Leq(UsingOr(next, coin, r, k))
  }

  lemma OneMoreChoice(next: seq<Cost>, coin: int, zhang: nat, r: int, k: nat, c: Cost)
    requires coin >= 0 && 0 <= r < |next| && k <= zhang && BestBelow(next, coin, zhang, r, k, c)
    ensures BestBelow(next, coin, zhang, r, k + 1, if k * coin <= r then Min(c, next[r - k * coin].Beyond(k)) else c)
  {
    TimesNotNegative(k, coin);
    if k * coin <= r {
      assert Usable(coin, zhang, r, k) && UsingOr(next, coin, r, k) == next[r - k * coin].Beyond(k);
    }
    var k0: nat :| k0 < k && Usable(coin, zhang, r, k0) && c == UsingOr(next, coin, r, k0);
    assert k0 < k + 1;
  }

  lemma AllChoices(next: seq<Cost>, coin: int, zhang: nat, r: int, k: nat, c: Cost)
    requires coin >= 0 && 0 <= r < |next| && BestBelow(next, coin, zhang, r, k, c)
    requires k > zhang || k * coin >= |next|
    ensures IsRowEntry(next, coin, zhang, r, c)
  {
    forall j: nat | Usable(coin, zhang, r, j) ensures j < k {
      if j >= k {
        CostsMore(j, k, coin);
      }
    }
  }

  lemma CostsMore(j: nat, k: nat, coin: int)
    requires coin >= 0 && j >= k
    ensures j * coin >= k * coin
  {
    assert (j - k) * coin >= 0;
    assert j * coin == (j - k) * coin + k * coin;
  }

  method EnumerateCell(dp: array2<Cost>, i: nat, coin: int, zhang: nat, rest: nat, ghost next: seq<Cost>)
      returns (best: Cost)
    requires i + 1 < dp.Length0 && coin >= 0 && rest < dp.Length1 && next == RowOf(dp, i + 1)
    ensures IsRowEntry(next, coin, zhang, rest, best)
  {
    best := dp[i + 1, rest];
    assert Usable(coin, zhang, rest, 0) && UsingOr(next, coin, rest, 0) == best;
    assert BestBelow(next, coin, zhang, rest, 1, best);
    var k: nat := 1;
    while k * coin < dp.Length1 && k <= zhang
      invariant 1 <= k <= zhang + 1 && BestBelow(next, coin, zhang, rest, k, best)
      decreases zhang + 1 - k
    {
      OneMoreChoice(next, coin, zhang, rest, k, best);
      if rest - k * coin >= 0 {
        TimesNotNegative(k, coin);
        var other := dp[i + 1, rest - k * coin];
        if other.Finite? {
          best := Min(best, other.Plus(k));
        }
      }
      k := k + 1;
    }
    AllChoices(next, coin, zhang, rest, k, best);
  }

  method EnumerateRow(dp: array2<Cost>, i: nat, coin: int, zhang: nat, ghost next: seq<Cost>)
    requires i + 1 < dp.Length0 && coin >= 0 && next == RowOf(dp, i + 1)
    modifies dp
    ensures RowDone(next, coin, zhang, dp.Length1, RowOf(dp, i))
    ensures forall a :: 0 <= a < dp.Length0 && a != i ==> RowOf(dp, a) == old(RowOf(dp, a))
  {
    for rest := 0 to dp.Length1
      invariant forall a :: 0 <= a < dp.Length0 && a != i ==> RowOf(dp, a) == old(RowOf(dp, a))
      invariant RowDone(next, coin, zhang, rest, RowOf(dp, i))
    {
      var best := EnumerateCell(dp, i, coin, zhang, rest, next);
      Write(dp, i, rest, best);
    }
  }

  // ----- grouping equal coins

  /** The coins of the values from i on. */
  ghost function Purse(coins: seq<int>, zhangs: seq<nat>, i: nat): multiset<int>
    requires |coins| == |zhangs| && i <= |coins|
    decreases |coins| - i
  {
    if i == |coins| then multiset{} else Purse(coins, zhangs, i + 1)[coins[i] := zhangs[i]]
  }

  ghost predicate Grouped(coins: seq<int>, zhangs: seq<nat>) {
    |coins| == |zhangs| && forall i, j :: 0 <= i < j < |coins| ==> coins[i] != coins[j]
  }

  lemma {:induction false} PurseCounts(coins: seq<int>, zhangs: seq<nat>, i: nat)
    requires Grouped(coins, zhangs) && i <= |coins|
    ensures forall j :: 0 <= j < i ==> Purse(coins, zhangs, i)[coins[j]] == 0
    ensures forall j :: i <= j < |coins| ==> Purse(coins, zhangs, i)[coins[j]] == zhangs[j]
    ensures forall x :: x !in coins ==> Purse(coins, zhangs, i)[x] == 0
    decreases |coins| - i
  {
    if i < |coins| {
      PurseCounts(coins, zhangs, i + 1);
    }
  }

  /** getInfo: the distinct values, in the map's arbitrary order, with their counts. */
  method GetInfo(arr: seq<int>) returns (coins: seq<int>, zhangs: seq<nat>)
    ensures Grouped(coins, zhangs) && Purse(coins, zhangs, 0) == multiset(arr)
    ensures forall i :: 0 <= i < |coins| ==> zhangs[i] > 0
  {
    var counts: map<int, nat> := map[];
    for i := 0 to |arr|
      invariant forall x :: x in counts <==> x in multiset(arr[..i])
      invariant forall x :: x in counts ==> counts[x] == multiset(arr[..i])[x]
    {
      assert arr[..i + 1] == arr[..i] + [arr[i]];
      counts := counts[arr[i] := if arr[i] in counts then counts[arr[i]] + 1 else 1];
    }
    assert arr[..|arr|] == arr;
    coins, zhangs := [], [];
    var left := counts.Keys;
    while left != {}
      invariant left <= counts.Keys && |coins| == |zhangs|
      invariant forall x :: x in counts && x !in left <==> x in coins
      invariant forall i :: 0 <= i < |coins| ==> coins[i] in counts && zhangs[i] == counts[coins[i]]
      invariant forall i, j :: 0 <= i < j < |coins| ==> coins[i] != coins[j]
      decreases left
    {
      assert (forall x :: x !in left) ==> left == {};
      var coin :| coin in left;
      coins, zhangs := coins + [coin], zhangs + [counts[coin]];
      left := left - {coin};
    }
    PurseIsArray(arr, counts, coins, zhangs);
  }

  lemma PurseIsArray(arr: seq<int>, counts: map<int, nat>, coins: seq<int>, zhangs: seq<nat>)
    requires |coins| == |zhangs|
    requires forall x :: x in counts <==> x in multiset(arr)
    requires forall x :: x in counts ==> counts[x] == multiset(arr)[x]
    requires forall x :: x in counts <==> x in coins
    requires forall i :: 0 <= i < |coins| ==> coins[i] in counts && zhangs[i] == counts[coins[i]]
    requires forall i, j :: 0 <= i < j < |coins| ==> coins[i] != coins[j]
    ensures Grouped(coins, zhangs) && Purse(coins, zhangs, 0) == multiset(arr)
  {
    PurseCounts(coins, zhangs, 0);
    var purse, m := Purse(coins, zhangs, 0), multiset(arr);
    forall x ensures purse[x] == m[x] {
      if x in coins {
        var i :| 0 <= i < |coins| && coins[i] == x;
        assert purse[coins[i]] == zhangs[i];
      } else {
        assert x !in counts;
      }
    }
    assert purse == m;
  }

  /** The values kept are the array's. */
  lemma PurseValues(arr: seq<int>, coins: seq<int>, zhangs: seq<nat>)
    requires Grouped(coins, zhangs) && Purse(coins, zhangs, 0) == multiset(arr)
    requires forall i :: 0 <= i < |coins| ==> zhangs[i] > 0
    ensures forall x :: x in coins <==> x in arr
    ensures forall i :: 0 <= i < |coins| ==> coins[i] in multiset(arr)
  {
    PurseCounts(coins, zhangs, 0);
    forall x ensures x in coins <==> x in multiset(arr) {
      if x in coins {
        var i :| 0 <= i < |coins| && coins[i] == x;
        assert Purse(coins, zhangs, 0)[coins[i]] == zhangs[i];
      }
    }
    assert forall x :: x in arr <==> x in multiset(arr);
    assert forall i :: 0 <= i < |coins| ==> coins[i] in coins;
  }

  // ----- where the enumerating table reads

  /** Filling a row, the amount rest makes the program look at rest - k * coin. */
  ghost predicate Reads(coin: int, zhang: nat, aim: int, rest: int, k: int) {
    0 <= rest <= aim && 1 <= k <= zhang && k * coin <= aim && rest - k * coin >= 0
  }

  /** It looks at no amount past the last column. */
  ghost predicate StaysInside(coins: seq<int>, zhangs: seq<nat>, aim: int)
    requires |coins| == |zhangs|
  {
    forall i, rest, k :: 0 <= i < |coins| && Reads(coins[i], zhangs[i], aim, rest, k) ==> rest - k * coins[i] <= aim
  }

  /** So the enumerating table runs through exactly on arrays without negative values. */
  lemma StaysInsideIffNonNegative(arr: seq<int>, coins: seq<int>, zhangs: seq<nat>, aim: int)
    requires aim >= 0 && Grouped(coins, zhangs) && Purse(coins, zhangs, 0) == multiset(arr)
    requires forall i :: 0 <= i < |coins| ==> zhangs[i] > 0
    ensures StaysInside(coins, zhangs, aim) <==> NonNegative(multiset(arr))
  {
    PurseValues(arr, coins, zhangs);
    if NonNegative(multiset(arr)) {
      forall i, rest, k | 0 <= i < |coins| && Reads(coins[i], zhangs[i], aim, rest, k)
        ensures rest - k * coins[i] <= aim
      {
        TimesNotNegative(k, coins[i]);
      }
    } else {
      var x :| x in multiset(arr) && x < 0;
      assert x in arr;
      var i :| 0 <= i < |coins| && coins[i] == x;
      assert Reads(coins[i], zhangs[i], aim, aim, 1);
    }
  }

  // ----- the two programs

  lemma RowStep(coins: seq<int>, zhangs: seq<nat>, i: nat, next: seq<Cost>, cur: seq<Cost>)
    requires Grouped(coins, zhangs) && i < |coins| && forall j :: i <= j < |coins| ==> coins[j] >= 0
    requires IsRow(Purse(coins, zhangs, i + 1), next) && RowDone(next, coins[i], zhangs[i], |next|, cur)
    ensures IsRow(Purse(coins, zhangs, i), cur)
  {
    var m := Purse(coins, zhangs, i + 1);
    PurseCounts(coins, zhangs, i + 1);
    PurseNonNegative(coins, zhangs, i + 1);
    forall r | 0 <= r < |cur| ensures IsLeast(Purse(coins, zhangs, i), r, cur[r]) {
      RowEntryIsLeast(m, next, coins[i], zhangs[i], r, cur[r]);
    }
  }

  lemma {:induction false} PurseNonNegative(coins: seq<int>, zhangs: seq<nat>, i: nat)
    requires |coins| == |zhangs| && i <= |coins| && forall j :: i <= j < |coins| ==> coins[j] >= 0
    ensures NonNegative(Purse(coins, zhangs, i))
    decreases |coins| - i
  {
    if i < |coins| {
      PurseNonNegative(coins, zhangs, i + 1);
    }
  }

  method BaseRow(dp: array2<Cost>, n: nat)
    requires n < dp.Length0 && dp.Length1 > 0
    modifies dp
    ensures IsRow(multiset{}, RowOf(dp, n))
    ensures forall a :: 0 <= a < dp.Length0 && a != n ==> RowOf(dp, a) == old(RowOf(dp, a))
  {
    dp[n, 0] := Finite(0);
    for i := 1 to dp.Length1
      invariant dp[n, 0] == Finite(0) && forall j :: 1 <= j < i ==> dp[n, j] == Unreachable
      invariant forall a, j :: 0 <= a < dp.Length0 && a != n && 0 <= j < dp.Length1 ==> dp[a, j] == old(dp[a, j])
    {
      dp[n, i] := Unreachable;
    }
    forall r | 0 <= r < dp.Length1 ensures IsLeast(multiset{}, r, RowOf(dp, n)[r]) {
      NothingPays(multiset{}, r);
    }
  }

  /** For an aim of 0 both the tables and the recursion need no coin. */
  lemma ZeroIsFree(arr: seq<int>)
    ensures IsLeast(multiset(arr), 0, Finite(0)) && Process(arr, 0, 0) == Finite(0)
  {
    ProcessOfNothing(arr, 0, 0);
    SumOfNone();
    assert Pays(multiset(arr), multiset{}, 0, 0);
    assert Payable(multiset(arr), 0, 0);
  }

  lemma SumOfNone()
    ensures Sum(multiset{}) == 0
  {
  }

  lemma AnswerIsProcess(arr: seq<int>, aim: nat, result: Cost)
    requires NonNegative(multiset(arr)) && IsLeast(multiset(arr), aim, result)
    ensures result == Process(arr, 0, aim)
  {
    assert arr[0..] == arr;
    ProcessIsLeast(arr, 0, aim);
    LeastIsUnique(multiset(arr), aim, result, Process(arr, 0, aim));
  }

  /**
   The enumerating table.  Below zero it answers 0 coins where the recursion finds nothing.  For
   a positive aim it needs values that are not negative, to stay inside its rows.
  */
  method GetMinZhangDp(arr: seq<int>, aim: int) returns (result: Cost)
    requires aim >= 1 ==> NonNegative(multiset(arr))
    ensures aim >= 0 ==> IsLeast(multiset(arr), aim, result)
    ensures aim < 0 ==> result == Finite(0)
    ensures result == Process(arr, 0, aim) <==> aim >= 0
  {
    if aim < 1 {
      ZeroIsFree(arr);
      return Finite(0);
    }
    var coins, zhangs := GetInfo(arr);
    var n := |coins|;
    var dp := new Cost[n + 1, aim + 1]((i, j) => Finite(0));
    BaseRow(dp, n);
    var index := n;
    PurseValues(arr, coins, zhangs);
    while index > 0
      invariant 0 <= index <= n && IsRow(Purse(coins, zhangs, index), RowOf(dp, index))
    {
      index := index - 1;
      ghost var next := RowOf(dp, index + 1);
      EnumerateRow(dp, index, coins[index], zhangs[index], next);
      RowStep(coins, zhangs, index, next, RowOf(dp, index));
    }
    result := dp[0, aim];
    assert result == RowOf(dp, 0)[aim];
    AnswerIsProcess(arr, aim, result);
  }

  // ----- the deque form, with values that are not positive

  /** A row of zeros, as Java allocates it. */
  ghost predicate IsFree(row: seq<Cost>) {
    forall r :: 0 <= r < |row| ==> row[r] == Finite(0)
  }

  ghost predicate AllPositive(coins: seq<int>, i: int) {
    forall j :: 0 <= i <= j < |coins| ==> coins[j] > 0
  }

  /** The rows from i on: right while all values are positive, free of charge after one that is not. */
  ghost predicate Slid(coins: seq<int>, zhangs: seq<nat>, i: nat, row: seq<Cost>)
    requires |coins| == |zhangs| && i <= |coins|
  {
    if AllPositive(coins, i) then IsRow(Purse(coins, zhangs, i), row) else IsFree(row)
  }

  lemma FreeStaysFree(next: seq<Cost>, coin: int, zhang: nat, cur: seq<Cost>)
    requires coin > 0 && IsFree(next) && RowDone(next, coin, zhang, |next|, cur)
    ensures IsFree(cur)
  {
    forall r | 0 <= r < |cur| ensures cur[r] == Finite(0) {
      assert IsRowEntry(next, coin, zhang, r, cur[r]);
      assert Usable(coin, zhang, r, 0) && UsingOr(next, coin, r, 0) == Finite(0);
    }
  }

  lemma SlidStep(coins: seq<int>, zhangs: seq<nat>, i: nat, next: seq<Cost>, before: seq<Cost>, cur: seq<Cost>)
    requires Grouped(coins, zhangs) && i < |coins| && Slid(coins, zhangs, i + 1, next) && IsFree(before)
    requires if coins[i] > 0 then RowDone(next, coins[i], zhangs[i], |next|, cur) else cur == before
    ensures Slid(coins, zhangs, i, cur)
  {
    if AllPositive(coins, i) {
      RowStep(coins, zhangs, i, next, cur);
    } else if coins[i] > 0 {
      assert !AllPositive(coins, i + 1);
      FreeStaysFree(next, coins[i], zhangs[i], cur);
    }
  }

  /**
   The table with one deque per remainder class.  For an aim of 0 it answers what the recursion
   answers, for a positive aim exactly when every value is positive: otherwise it answers 0.
  */
  method GetMinZhangDpWindow(arr: seq<int>, aim: int) returns (result: Cost)
    ensures aim >= 1 && (forall x :: x in arr ==> x > 0) ==> IsLeast(multiset(arr), aim, result)
    ensures aim < 1 || (exists x :: x in arr && x <= 0) ==> result == Finite(0)
    ensures result == Process(arr, 0, aim) <==> aim == 0 || (aim > 0 && forall x :: x in arr ==> x > 0)
  {
    if aim < 1 {
      ZeroIsFree(arr);
      return Finite(0);
    }
    var coins, zhangs := GetInfo(arr);
    var n := |coins|;
    var dp := new Cost[n + 1, aim + 1]((i, j) => Finite(0));
    BaseRow(dp, n);
    var index := n;
    while index > 0
      invariant 0 <= index <= n && Slid(coins, zhangs, index, RowOf(dp, index))
      invariant forall a :: 0 <= a < index ==> IsFree(RowOf(dp, a))
    {
      index := index - 1;
      ghost var next, before := RowOf(dp, index + 1), RowOf(dp, index);
      SlideRow(dp, index, coins[index], zhangs[index], next);
      SlidStep(coins, zhangs, index, next, before, RowOf(dp, index));
    }
    result := dp[0, aim];
    assert result == RowOf(dp, 0)[aim];
    PurseValues(arr, coins, zhangs);
    SlidAnswers(arr, coins, zhangs, aim, RowOf(dp, 0), result);
  }

  lemma SlidAnswers(arr: seq<int>, coins: seq<int>, zhangs: seq<nat>, aim: int, row: seq<Cost>, result: Cost)
    requires Grouped(coins, zhangs) && Purse(coins, zhangs, 0) == multiset(arr) && Slid(coins, zhangs, 0, row)
    requires 0 < aim < |row| && result == row[aim] && forall x :: x in coins <==> x in arr
    ensures (forall x :: x in arr ==> x > 0) ==> IsLeast(multiset(arr), aim, result)
    ensures (exists x :: x in arr && x <= 0) ==> result == Finite(0)
    ensures result == Process(arr, 0, aim) <==> forall x :: x in arr ==> x > 0
  {
    assert forall x :: x in arr <==> x in multiset(arr);
    if forall x :: x in arr ==> x > 0 {
      forall j | 0 <= j < |coins| ensures coins[j] > 0 {
        assert coins[j] in coins;
      }
      AnswerIsProcess(arr, aim, result);
    } else {
      var x :| x in arr && x <= 0;
      assert x in coins;
      assert !AllPositive(coins, 0);
      ProcessOfNothing(arr, 0, aim);
    }
  }
}
