/**
 The fewest coins of a given purse that pay an exact amount: the take-or-skip recursion, and
 how a table over coin values gets one row from the next.
*/
module BoundedCoins {

  /** Integer.MAX_VALUE stands for "cannot be paid"; adding to it would wrap around. */
  datatype Cost = Finite(n: nat) | Unreachable {
    function Plus(k: nat): Cost
      requires Unreachable? ==> k == 0
    {
      if Finite? then Finite(n + k) else Unreachable
    }

    ghost function Beyond(k: nat): Cost {
      if Finite? then Finite(n + k) else Unreachable
    }

    ghost predicate AtMost(c: nat) {
      Finite? && n <= c
    }

    predicate Leq(that: Cost) {
      that.Unreachable? || (Finite? && n <= that.n)
    }
  }

  function Min(a: Cost, b: Cost): Cost {
    if a.Leq(b) then a else b
  }

  // ----- the reference: choosing a part of a multiset of coins

  ghost function Sum(m: multiset<int>): int
    decreases |m|
  {
    if m == multiset{} then 0 else
      NonEmpty(m);
      var x :| x in m;
      x + Sum(m - multiset{x})
  }

  lemma NonEmpty(m: multiset<int>)
    requires m != multiset{}
    ensures exists x :: x in m
  {
    assert (forall x :: x !in m) ==> m == multiset{};
  }

  lemma {:induction false} SumWithout(m: multiset<int>, x: int)
    requires x in m
    ensures Sum(m) == x + Sum(m - multiset{x})
    decreases |m|
  {
    NonEmpty(m);
    var y :| y in m && Sum(m) == y + Sum(m - multiset{y});
    if x != y {
      SumWithout(m - multiset{y}, x);
      SumWithout(m - multiset{x}, y);
      assert m - multiset{y} - multiset{x} == m - multiset{x} - multiset{y};
    }
  }

  lemma SumWith(m: multiset<int>, x: int)
    ensures Sum(m + multiset{x}) == x + Sum(m)
  {
    SumWithout(m + multiset{x}, x);
    assert m + multiset{x} - multiset{x} == m;
  }

  /** Some c coins out of m pay exactly `rest`. */
  ghost predicate Pays(m: multiset<int>, s: multiset<int>, rest: int, c: nat) {
    s <= m && Sum(s) == rest && |s| == c
  }

  ghost predicate Payable(m: multiset<int>, rest: int, c: nat) {
    exists s :: Pays(m, s, rest, c)
  }

  ghost predicate IsLeast(m: multiset<int>, rest: int, cost: Cost) {
    && (cost.Finite? ==> Payable(m, rest, cost.n))
    && forall c :: Payable(m, rest, c) ==> cost.AtMost(c)
  }

  lemma LeastIsUnique(m: multiset<int>, rest: int, a: Cost, b: Cost)
    requires IsLeast(m, rest, a) && IsLeast(m, rest, b)
    ensures a == b
  {
  }

  ghost predicate NonNegative(m: multiset<int>) {
    forall x :: x in m ==> x >= 0
  }

  lemma {:induction false} SumNotNegative(s: multiset<int>)
    requires NonNegative(s)
    ensures Sum(s) >= 0
    decreases |s|
  {
    if s != multiset{} {
      NonEmpty(s);
      var x :| x in s;
      SumWithout(s, x);
      SumNotNegative(s - multiset{x});
    }
  }

  lemma OneMoreTimes(k: int, x: int)
    ensures k * x == (k - 1) * x + x
  {
  }

  lemma DropOne(s: multiset<int>, x: int, k: nat, t: multiset<int>)
    requires 0 < k <= s[x] && t == s[x := s[x] - k]
    ensures |s| == 1 + |s - multiset{x}| && t == (s - multiset{x})[x := (s - multiset{x})[x] - (k - 1)]
  {
    assert s == (s - multiset{x}) + multiset{x};
  }

  /** Removing k coins of one value. */
  lemma {:induction false} SumDropping(s: multiset<int>, x: int, k: nat, t: multiset<int>)
    requires k <= s[x] && t == s[x := s[x] - k]
    ensures Sum(s) == k * x + Sum(t) && |s| == k + |t|
    decreases k
  {
    hide Sum;
    if k == 0 {
      assert t == s;
    } else {
      DropOne(s, x, k, t);
      SumWithout(s, x);
      SumDropping(s - multiset{x}, x, k - 1, t);
      OneMoreTimes(k, x);
    }
  }

  // ----- the take-or-skip recursion

  function Process(arr: seq<int>, index: nat, rest: int): Cost
    requires index <= |arr|
    decreases |arr| - index
  {
    if rest < 0 then Unreachable
    else if index == |arr| then (if rest == 0 then Finite(0) else Unreachable)
    else
      var p1 := Process(arr, index + 1, rest);
      var p2 := Process(arr, index + 1, rest - arr[index]);
      Min(p1, if p2.Finite? then p2.Plus(1) else p2)
  }

  lemma NothingPays(m: multiset<int>, rest: int)
    requires NonNegative(m) && (rest < 0 || m == multiset{})
    ensures IsLeast(m, rest, if rest == 0 then Finite(0) else Unreachable)
  {
    forall s, c | Pays(m, s, rest, c) ensures rest >= 0 && s == multiset{} {
      SumNotNegative(s);
    }
    if rest == 0 {
      assert Pays(m, multiset{}, 0, 0);
    }
  }

  /** The purse with one more coin: skip it, or take it. */
  lemma OneMoreCoin(m: multiset<int>, x: int, rest: int, skip: Cost, take: Cost)
    requires IsLeast(m, rest, skip) && IsLeast(m, rest - x, take)
    ensures IsLeast(m + multiset{x}, rest, Min(skip, take.Beyond(1)))
  {
    var best := Min(skip, take.Beyond(1));
    if skip.Finite? {
      var s :| Pays(m, s, rest, skip.n);
      assert Pays(m + multiset{x}, s, rest, skip.n);
    }
    if take.Finite? {
      var s :| Pays(m, s, rest - x, take.n);
      SumWith(s, x);
      assert Pays(m + multiset{x}, s + multiset{x}, rest, take.n + 1);
    }
    forall c: nat | Payable(m + multiset{x}, rest, c) ensures best.AtMost(c) {
      var s :| Pays(m + multiset{x}, s, rest, c);
      OneMoreCoinBest(m, x, rest, skip, take, s, c);
    }
  }

  lemma OneMoreCoinBest(m: multiset<int>, x: int, rest: int, skip: Cost, take: Cost, s: multiset<int>, c: nat)
    requires IsLeast(m, rest, skip) && IsLeast(m, rest - x, take) && Pays(m + multiset{x}, s, rest, c)
    ensures Min(skip, take.Beyond(1)).AtMost(c)
  {
    MinAtMost(skip, take.Beyond(1), c);
    if s <= m {
      assert Pays(m, s, rest, c);
      assert Payable(m, rest, c);
    } else {
      TakesIt(m, x, rest, s, c);
    }
  }

  lemma MinAtMost(a: Cost, b: Cost, c: nat)
    ensures Min(a, b).AtMost(c) <==> a.AtMost(c) || b.AtMost(c)
  {
  }

  lemma TakesIt(m: multiset<int>, x: int, rest: int, s: multiset<int>, c: nat)
    requires Pays(m + multiset{x}, s, rest, c) && !(s <= m)
    ensures c > 0 && Payable(m, rest - x, c - 1)
  {
    SumWithout(s, x);
    assert Pays(m, s - multiset{x}, rest - x, c - 1);
  }

  lemma NonNegativeTail(arr: seq<int>, index: nat)
    requires index < |arr| && NonNegative(multiset(arr[index..]))
    ensures NonNegative(multiset(arr[index + 1..]))
  {
    var rest := multiset(arr[index + 1..]);
    assert arr[index..] == [arr[index]] + arr[index + 1..];
    forall x | x in rest ensures x >= 0 {
      assert x in multiset(arr[index..]);
    }
  }

  lemma {:induction false} ProcessIsLeast(arr: seq<int>, index: nat, rest: int)
    requires index <= |arr| && NonNegative(multiset(arr[index..]))
    ensures IsLeast(multiset(arr[index..]), rest, Process(arr, index, rest))
    decreases |arr| - index
  {
    if rest < 0 || index == |arr| {
      NothingPays(multiset(arr[index..]), rest);
    } else {
      assert arr[index..] == [arr[index]] + arr[index + 1..];
      assert multiset(arr[index + 1..]) + multiset{arr[index]} == multiset(arr[index..]);
      NonNegativeTail(arr, index);
      ProcessIsLeast(arr, index + 1, rest);
      ProcessIsLeast(arr, index + 1, rest - arr[index]);
      OneMoreCoin(multiset(arr[index + 1..]), arr[index], rest,
                  Process(arr, index + 1, rest), Process(arr, index + 1, rest - arr[index]));
    }
  }

  /** Paying nothing takes no coin, paying something takes one, whatever the coins are worth. */
  lemma {:induction false} ProcessOfNothing(arr: seq<int>, index: nat, rest: int)
    requires index <= |arr|
    ensures rest == 0 ==> Process(arr, index, rest) == Finite(0)
    ensures rest != 0 ==> Process(arr, index, rest) != Finite(0)
    decreases |arr| - index
  {
    if index < |arr| && rest >= 0 {
      ProcessOfNothing(arr, index + 1, rest);
    }
  }

  // ----- one table row from the next: k coins of one value and the rest from the others

  /** Using k coins of this value to pay r. */
  ghost predicate Usable(coin: int, zhang: int, r: int, k: nat) {
    k <= zhang && k * coin <= r
  }

  ghost function Using(next: seq<Cost>, coin: int, r: int, k: nat): Cost
    requires 0 <= r - k * coin < |next|
  {
    next[r - k * coin].Beyond(k)
  }

  /** c is the least over every usable number of coins of this value. */
  ghost predicate IsRowEntry(next: seq<Cost>, coin: int, zhang: int, r: int, c: Cost)
    requires coin >= 0 && 0 <= r < |next|
  {
    && (exists k: nat :: Usable(coin, zhang, r, k) && c == UsingOr(next, coin, r, k))
    && forall k: nat :: Usable(coin, zhang, r, k) ==> c.Leq(UsingOr(next, coin, r, k))
  }

  ghost function UsingOr(next: seq<Cost>, coin: int, r: int, k: nat): Cost
  {
    if 0 <= r - k * coin < |next| then Using(next, coin, r, k) else Unreachable
  }

  ghost predicate IsRow(m: multiset<int>, row: seq<Cost>) {
    forall r :: 0 <= r < |row| ==> IsLeast(m, r, row[r])
  }

  lemma EntryIsPayable(m: multiset<int>, next: seq<Cost>, coin: int, zhang: nat, r: int, k: nat, left: int)
    requires coin >= 0 && m[coin] == 0 && Usable(coin, zhang, r, k) && left == r - k * coin && left < |next|
    requires IsLeast(m, left, next[left]) && next[left].Finite?
    ensures Payable(m[coin := zhang], r, next[left].n + k)
  {
    var s :| Pays(m, s, left, next[left].n);
    PayWithMore(m, s, coin, zhang, left, k, next[left].n);
  }

  lemma EntryIsBest(m: multiset<int>, next: seq<Cost>, coin: int, zhang: nat, r: int, c: Cost, s: multiset<int>, q: nat)
    requires NonNegative(m) && coin >= 0 && m[coin] == 0 && 0 <= r < |next|
    requires IsRow(m, next) && IsRowEntry(next, coin, zhang, r, c) && Pays(m[coin := zhang], s, r, q)
    ensures c.AtMost(q)
  {
    var k, left := s[coin], r - s[coin] * coin;
    PayWithout(m, s, coin, zhang, r, q);
    TimesNotNegative(k, coin);
    assert Usable(coin, zhang, r, k) && 0 <= left < |next|;
    assert Payable(m, left, q - k);
    assert IsLeast(m, left, next[left]) && c.Leq(UsingOr(next, coin, r, k));
    assert next[left].AtMost(q - k);
    hide IsRow, IsRowEntry, Pays, Payable, Usable, NonNegative, IsLeast;
  }

  lemma TimesNotNegative(k: nat, x: int)
    requires x >= 0
    ensures k * x >= 0
  {
  }

  /** A row entry is exactly the least for the purse with these coins added. */
  lemma RowEntryIsLeast(m: multiset<int>, next: seq<Cost>, coin: int, zhang: nat, r: int, c: Cost)
    requires NonNegative(m) && coin >= 0 && m[coin] == 0 && 0 <= r < |next|
    requires IsRow(m, next) && IsRowEntry(next, coin, zhang, r, c)
    ensures IsLeast(m[coin := zhang], r, c)
  {
    if c.Finite? {
      var k: nat :| Usable(coin, zhang, r, k) && c == UsingOr(next, coin, r, k);
      EntryIsPayable(m, next, coin, zhang, r, k, r - k * coin);
    }
    forall q: nat | Payable(m[coin := zhang], r, q) ensures c.AtMost(q) {
      var s :| Pays(m[coin := zhang], s, r, q);
      EntryIsBest(m, next, coin, zhang, r, c, s, q);
    }
  }

  lemma PayWithMore(m: multiset<int>, s: multiset<int>, coin: int, zhang: nat, left: int, k: nat, c: nat)
    requires m[coin] == 0 && Pays(m, s, left, c) && k <= zhang
    ensures Pays(m[coin := zhang], s[coin := k], left + k * coin, c + k)
  {
    assert s[coin := k][coin := 0] == s;
    SumDropping(s[coin := k], coin, k, s);
  }

  lemma PayWithout(m: multiset<int>, s: multiset<int>, coin: int, zhang: nat, r: int, c: nat)
    requires NonNegative(m) && coin >= 0 && m[coin] == 0 && Pays(m[coin := zhang], s, r, c)
    ensures var k := s[coin];
            k <= zhang && k <= c && k * coin <= r && Pays(m, s[coin := 0], r - k * coin, c - k)
  {
    SumDropping(s, coin, s[coin], s[coin := 0]);
    SumNotNegative(s[coin := 0]);
  }
}
