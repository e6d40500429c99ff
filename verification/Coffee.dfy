/**
 Serving n people coffee on machines of different speeds and cleaning the cups, by one
 washer or by drying: always using the machine that finishes first, then choosing wash or dry
 cup by cup, is as fast as the best of all assignments and all orders of washing.
*/
module Coffee {
  import opened Sorting
  import opened Wrappers
  import opened Numbers
  import opened Tables

  // ----- cleaning the cups

  /** The better of washing a cup and letting it dry, given how the rest goes in each case. */
  function Better(ready: nat, a: nat, b: nat, free: nat, restIfWashed: nat, restIfDried: nat): nat {
    Min(Max(Max(ready, free) + a, restIfWashed), Max(ready + b, restIfDried))
  }

  /** When all cups from index on are clean, choosing the better of wash and dry for each. */
  function BestTime(drink: seq<nat>, a: nat, b: nat, index: nat, free: nat): nat
    requires index <= |drink|
    decreases |drink| - index
  {
    if index == |drink| then 0 else
      Better(drink[index], a, b, free,
             BestTime(drink, a, b, index + 1, Max(drink[index], free) + a),
             BestTime(drink, a, b, index + 1, free))
  }

  lemma BestTimeStep(drink: seq<nat>, a: nat, b: nat, index: nat, free: nat)
    requires index < |drink|
    ensures BestTime(drink, a, b, index, free)
         == Better(drink[index], a, b, free, BestTime(drink, a, b, index + 1, Max(drink[index], free) + a),
                   BestTime(drink, a, b, index + 1, free))
  {
    hide Better, Max, Min;
  }

  lemma BestTimeEnd(drink: seq<nat>, a: nat, b: nat, free: nat)
    ensures BestTime(drink, a, b, |drink|, free) == 0
  {
  }

  /** The exhaustive search, carrying the latest cleaning time so far. */
  function ForceWash(drinks: seq<nat>, a: nat, b: nat, index: nat, washLine: nat, time: nat): nat
    requires index <= |drinks|
    decreases |drinks| - index
  {
    if index == |drinks| then time else
      var wash := Max(drinks[index], washLine) + a;
      var dry := drinks[index] + b;
      Min(ForceWash(drinks, a, b, index + 1, wash, Max(wash, time)),
          ForceWash(drinks, a, b, index + 1, washLine, Max(dry, time)))
  }

  lemma ForceWashStep(drinks: seq<nat>, a: nat, b: nat, index: nat, line: nat, time: nat)
    requires index < |drinks|
    ensures var wash := Max(drinks[index], line) + a;
            var dry := drinks[index] + b;
            && ForceWash(drinks, a, b, index, line, time)
            == Min(ForceWash(drinks, a, b, index + 1, wash, Max(wash, time)),
                   ForceWash(drinks, a, b, index + 1, line, Max(dry, time)))
  {
    hide Max, Min;
  }

  lemma ForceWashEnd(drinks: seq<nat>, a: nat, b: nat, line: nat, time: nat)
    ensures ForceWash(drinks, a, b, |drinks|, line, time) == time
  {
  }

  lemma {:induction false} ForceWashIsBestTime(drinks: seq<nat>, a: nat, b: nat, index: nat, line: nat, time: nat)
    requires index <= |drinks|
    ensures ForceWash(drinks, a, b, index, line, time) == Max(time, BestTime(drinks, a, b, index, line))
    decreases |drinks| - index
  {
    hide ForceWash, BestTime;
    if index == |drinks| {
      ForceWashEnd(drinks, a, b, line, time);
      BestTimeEnd(drinks, a, b, line);
    } else {
      var wash, dry := Max(drinks[index], line) + a, drinks[index] + b;
      ForceWashStep(drinks, a, b, index, line, time);
      BestTimeStep(drinks, a, b, index, line);
      ForceWashIsBestTime(drinks, a, b, index + 1, wash, Max(wash, time));
      ForceWashIsBestTime(drinks, a, b, index + 1, line, Max(dry, time));
    }
  }

  /** When everything is clean if plan says which cups are washed. */
  ghost function PlanTime(drink: seq<nat>, a: nat, b: nat, free: nat, plan: seq<bool>): nat
    requires |plan| == |drink|
    decreases |drink|
  {
    if drink == [] then 0
    else if plan[0] then
      var done := Max(drink[0], free) + a;
      Max(done, PlanTime(drink[1..], a, b, done, plan[1..]))
    else Max(drink[0] + b, PlanTime(drink[1..], a, b, free, plan[1..]))
  }

  lemma PlanStep(drink: seq<nat>, a: nat, b: nat, free: nat, wash: bool, plan: seq<bool>)
    requires drink != [] && |plan| + 1 == |drink|
    ensures var done := Max(drink[0], free) + a;
            PlanTime(drink, a, b, free, [wash] + plan) ==
            if wash then Max(done, PlanTime(drink[1..], a, b, done, plan))
            else Max(drink[0] + b, PlanTime(drink[1..], a, b, free, plan))
  {
    hide Max;
    assert ([wash] + plan)[1..] == plan;
  }

  /** BestTime is the least over all wash-or-dry plans, and some plan reaches it. */
  lemma {:induction false} SomePlanIsBest(drink: seq<nat>, a: nat, b: nat, index: nat, free: nat)
      returns (plan: seq<bool>)
    requires index <= |drink|
    ensures |plan| == |drink| - index
    ensures PlanTime(drink[index..], a, b, free, plan) == BestTime(drink, a, b, index, free)
    decreases |drink| - index
  {
    hide BestTime;
    if index == |drink| {
      BestTimeEnd(drink, a, b, free);
      plan := [];
    } else {
      hide PlanTime;
      assert drink[index..][1..] == drink[index + 1..];
      var done := Max(drink[index], free) + a;
      var washed := SomePlanIsBest(drink, a, b, index + 1, done);
      var dried := SomePlanIsBest(drink, a, b, index + 1, free);
      BestTimeStep(drink, a, b, index, free);
      PlanStep(drink[index..], a, b, free, true, washed);
      PlanStep(drink[index..], a, b, free, false, dried);
      var left := drink[index..];
      if PlanTime(left, a, b, free, [true] + washed) <= PlanTime(left, a, b, free, [false] + dried) {
        plan := [true] + washed;
      } else {
        plan := [false] + dried;
      }
    }
  }

  lemma {:induction false} NoPlanIsFaster(drink: seq<nat>, a: nat, b: nat, index: nat, free: nat, plan: seq<bool>)
    requires index <= |drink| && |plan| == |drink| - index
    ensures BestTime(drink, a, b, index, free) <= PlanTime(drink[index..], a, b, free, plan)
    decreases |drink| - index
  {
    hide BestTime, PlanTime;
    if index == |drink| {
      BestTimeEnd(drink, a, b, free);
    } else {
      assert drink[index..][1..] == drink[index + 1..] && plan == [plan[0]] + plan[1..];
      BestTimeStep(drink, a, b, index, free);
      PlanStep(drink[index..], a, b, free, plan[0], plan[1..]);
      NoPlanIsFaster(drink, a, b, index + 1, if plan[0] then Max(drink[index], free) + a else free, plan[1..]);
    }
  }

  // ----- washing in any order

  /** When the last of these cups is washed, one after the other in the given order. */
  ghost function WashTime(wash: seq<nat>, a: nat, free: nat): nat {
    if wash == [] then 0 else
      var done := Max(wash[0], free) + a;
      Max(done, WashTime(wash[1..], a, done))
  }

  /** When the last of these cups is dry. */
  ghost function DryTime(dry: seq<nat>, b: nat): nat {
    if dry == [] then 0 else Max(dry[0] + b, DryTime(dry[1..], b))
  }

  ghost function CleanTime(wash: seq<nat>, dry: seq<nat>, a: nat, b: nat): nat {
    Max(WashTime(wash, a, 0), DryTime(dry, b))
  }

  lemma WashStep(x: nat, rest: seq<nat>, a: nat, free: nat)
    ensures var done := Max(x, free) + a;
            WashTime([x] + rest, a, free) == Max(done, WashTime(rest, a, done))
  {
    assert ([x] + rest)[1..] == rest;
  }

  lemma {:induction false} WashMonotone(wash: seq<nat>, a: nat, free: nat, free': nat)
    requires free <= free'
    ensures WashTime(wash, a, free) <= WashTime(wash, a, free')
  {
    if wash != [] {
      WashMonotone(wash[1..], a, Max(wash[0], free) + a, Max(wash[0], free') + a);
    }
  }

  /** Of two cups washed one after the other, the one ready earlier should come first. */
  lemma EarlierFirst(x: nat, y: nat, rest: seq<nat>, a: nat, free: nat)
    requires x <= y
    ensures WashTime([x] + ([y] + rest), a, free) <= WashTime([y] + ([x] + rest), a, free)
  {
    hide WashTime;
    var first, second := Max(x, free) + a, Max(y, free) + a;
    WashStep(x, [y] + rest, a, free);
    WashStep(y, rest, a, first);
    WashStep(y, [x] + rest, a, free);
    WashStep(x, rest, a, second);
    WashMonotone(rest, a, Max(y, first) + a, Max(x, second) + a);
  }

  lemma {:induction false} InsertWashes(x: nat, s: seq<nat>, a: nat, free: nat)
    ensures WashTime(Insert(x, s), a, free) <= WashTime([x] + s, a, free)
    decreases |s|
  {
    if s != [] && x > s[0] {
      var y, rest := s[0], s[1..];
      InsertWashes(x, rest, a, Max(y, free) + a);
      PassedOver(x, y, rest, Insert(x, rest), a, free);
      assert s == [y] + rest;
      hide *;
    }
  }

  lemma PassedOver(x: nat, y: nat, rest: seq<nat>, inserted: seq<nat>, a: nat, free: nat)
    requires y <= x && WashTime(inserted, a, Max(y, free) + a) <= WashTime([x] + rest, a, Max(y, free) + a)
    ensures WashTime([y] + inserted, a, free) <= WashTime([x] + ([y] + rest), a, free)
  {
    hide *;
    WashStep(y, inserted, a, free);
    WashStep(y, [x] + rest, a, free);
    EarlierFirst(y, x, rest, a, free);
  }

  /** No order of washing the chosen cups beats the order in which they are ready. */
  lemma {:induction false} ReadyOrderIsFastest(wash: seq<nat>, a: nat, free: nat)
    ensures WashTime(Sort(wash), a, free) <= WashTime(wash, a, free)
    decreases |wash|
  {
    if wash != [] {
      var x, rest := wash[0], wash[1..];
      ReadyOrderIsFastest(rest, a, Max(x, free) + a);
      assert Sort(wash) == Insert(x, Sort(rest)) && wash == [x] + rest;
      hide *;
      OneMoreWashed(x, rest, Sort(rest), a, free);
    }
  }

  lemma OneMoreWashed(x: nat, rest: seq<nat>, ready: seq<nat>, a: nat, free: nat)
    requires WashTime(ready, a, Max(x, free) + a) <= WashTime(rest, a, Max(x, free) + a)
    ensures WashTime(Insert(x, ready), a, free) <= WashTime([x] + rest, a, free)
  {
    hide *;
    InsertWashes(x, ready, a, free);
    WashStep(x, ready, a, free);
    WashStep(x, rest, a, free);
  }

  /** The cups a plan washes, and those it leaves to dry. */
  ghost function Picked(drink: seq<nat>, plan: seq<bool>, wash: bool): seq<nat>
    requires |plan| == |drink|
  {
    if drink == [] then []
    else if plan[0] == wash then [drink[0]] + Picked(drink[1..], plan[1..], wash)
    else Picked(drink[1..], plan[1..], wash)
  }

  lemma {:induction false} PickedAll(drink: seq<nat>, plan: seq<bool>)
    requires |plan| == |drink|
    ensures multiset(Picked(drink, plan, true)) + multiset(Picked(drink, plan, false)) == multiset(drink)
  {
    if drink != [] {
      assert drink == [drink[0]] + drink[1..];
      PickedAll(drink[1..], plan[1..]);
    }
  }

  lemma {:induction false} PlanWashesAndDries(drink: seq<nat>, a: nat, b: nat, free: nat, plan: seq<bool>)
    requires |plan| == |drink|
    ensures PlanTime(drink, a, b, free, plan)
         == Max(WashTime(Picked(drink, plan, true), a, free), DryTime(Picked(drink, plan, false), b))
    decreases |drink|
  {
    if drink != [] {
      var rest, more := drink[1..], plan[1..];
      if plan[0] {
        PlanWashesAndDries(rest, a, b, Max(drink[0], free) + a, more);
        WashStep(drink[0], Picked(rest, more, true), a, free);
      } else {
        PlanWashesAndDries(rest, a, b, free, more);
        assert ([drink[0]] + Picked(rest, more, false))[1..] == Picked(rest, more, false);
      }
    }
  }

  /** Any part of the cups, in the order in which they are ready, is what some plan washes. */
  lemma {:induction false} PlanFor(drink: seq<nat>, wash: seq<nat>) returns (plan: seq<bool>)
    requires Ascending(drink) && Ascending(wash) && multiset(wash) <= multiset(drink)
    ensures |plan| == |drink| && Picked(drink, plan, true) == wash
    decreases |drink|
  {
    if drink == [] {
      plan := [];
      NothingLeft(wash);
    } else {
      hide Picked, Ascending;
      var x, rest := drink[0], drink[1..];
      var here := wash != [] && wash[0] == x;
      TailAscends(drink);
      TailAscends(wash);
      FirstCup(drink, wash);
      var more := PlanFor(rest, if here then wash[1..] else wash);
      plan := [here] + more;
      PickFirst(drink, here, more);
    }
  }

  lemma NothingLeft(wash: seq<nat>)
    requires multiset(wash) <= multiset{}
    ensures wash == []
  {
    assert |multiset(wash)| == 0;
  }

  lemma TailAscends(s: seq<nat>)
    requires Ascending(s)
    ensures s != [] ==> Ascending(s[1..])
  {
  }

  lemma PickFirst(drink: seq<nat>, wash: bool, more: seq<bool>)
    requires drink != [] && |more| + 1 == |drink|
    ensures Picked(drink, [wash] + more, true)
         == (if wash then [drink[0]] else []) + Picked(drink[1..], more, true)
  {
    assert ([wash] + more)[1..] == more;
  }

  lemma FirstCup(drink: seq<nat>, wash: seq<nat>)
    requires drink != [] && Ascending(drink) && Ascending(wash) && multiset(wash) <= multiset(drink)
    ensures wash != [] && wash[0] == drink[0] ==> multiset(wash[1..]) <= multiset(drink[1..])
    ensures !(wash != [] && wash[0] == drink[0]) ==> multiset(wash) <= multiset(drink[1..])
  {
    assert drink == [drink[0]] + drink[1..];
    assert wash != [] ==> wash == [wash[0]] + wash[1..];
    if wash != [] && wash[0] == drink[0] {
      OneLess(multiset(wash[1..]), multiset(drink[1..]), drink[0]);
    } else if wash != [] {
      FirstIsLeast(drink, wash[0]);
      NotAmong(wash, drink[0]);
    }
  }

  lemma OneLess(m: multiset<nat>, n: multiset<nat>, x: nat)
    requires multiset{x} + m <= multiset{x} + n
    ensures m <= n
  {
    forall y ensures m[y] <= n[y] {
      assert (multiset{x} + m)[y] <= (multiset{x} + n)[y];
    }
  }

  lemma SameWithout(m: multiset<nat>, x: multiset<nat>, y: multiset<nat>)
    requires m + x == m + y
    ensures x == y
  {
    forall e ensures x[e] == y[e] {
      assert (m + x)[e] == (m + y)[e];
    }
  }

  lemma FirstIsLeast(drink: seq<nat>, x: nat)
    requires drink != [] && Ascending(drink) && x in multiset(drink)
    ensures drink[0] <= x
  {
  }

  lemma NotAmong(wash: seq<nat>, x: nat)
    requires wash != [] && Ascending(wash) && x < wash[0]
    ensures x !in multiset(wash)
  {
  }

  ghost predicate DryBy(dry: multiset<nat>, b: nat, t: nat) {
    forall x :: x in dry ==> x + b <= t
  }

  lemma OneMoreDry(x: nat, dry: multiset<nat>, b: nat, t: nat)
    ensures DryBy(multiset{x} + dry, b, t) <==> x + b <= t && DryBy(dry, b, t)
  {
    if DryBy(multiset{x} + dry, b, t) {
      assert x in multiset{x} + dry;
      forall y | y in dry ensures y + b <= t {
        assert y in multiset{x} + dry;
      }
    }
  }

  lemma {:induction false} DryAtMost(dry: seq<nat>, b: nat, t: nat)
    ensures DryTime(dry, b) <= t <==> DryBy(multiset(dry), b, t)
  {
    if dry != [] {
      assert dry == [dry[0]] + dry[1..];
      DryAtMost(dry[1..], b, t);
      OneMoreDry(dry[0], multiset(dry[1..]), b, t);
      hide DryBy;
      assert multiset(dry) == multiset{dry[0]} + multiset(dry[1..]);
    }
  }

  lemma DryAnyOrder(dry: seq<nat>, other: seq<nat>, b: nat)
    requires multiset(dry) == multiset(other)
    ensures DryTime(dry, b) == DryTime(other, b)
  {
    hide *;
    DryAtMost(dry, b, DryTime(dry, b));
    DryAtMost(other, b, DryTime(dry, b));
    DryAtMost(dry, b, DryTime(other, b));
    DryAtMost(other, b, DryTime(other, b));
  }

  /** Whatever cups are washed in whatever order, choosing for each in the order they are ready is as fast. */
  lemma NoWashingIsFaster(drinks: seq<nat>, wash: seq<nat>, dry: seq<nat>, a: nat, b: nat)
    requires multiset(wash) + multiset(dry) == multiset(drinks)
    ensures BestTime(Sort(drinks), a, b, 0, 0) <= CleanTime(wash, dry, a, b)
  {
    var s := Sort(drinks);
    hide BestTime, PlanTime, WashTime, DryTime, Picked, Sort;
    var plan := PlanFor(s, Sort(wash));
    PickedAll(s, plan);
    SameWithout(multiset(wash), multiset(Picked(s, plan, false)), multiset(dry));
    DryAnyOrder(Picked(s, plan, false), dry, b);
    ReadyOrderIsFastest(wash, a, 0);
    PlanWashesAndDries(s, a, b, 0, plan);
    NoPlanIsFaster(s, a, b, 0, 0, plan);
    assert s[0..] == s;
  }

  /** And choosing so is one way of washing and drying them. */
  lemma SomeWashingIsBest(drinks: seq<nat>, a: nat, b: nat) returns (wash: seq<nat>, dry: seq<nat>)
    ensures multiset(wash) + multiset(dry) == multiset(drinks)
    ensures CleanTime(wash, dry, a, b) == BestTime(Sort(drinks), a, b, 0, 0)
  {
    var s := Sort(drinks);
    hide BestTime, PlanTime, WashTime, DryTime, Picked, Sort;
    var plan := SomePlanIsBest(s, a, b, 0, 0);
    assert s[0..] == s;
    wash, dry := Picked(s, plan, true), Picked(s, plan, false);
    PickedAll(s, plan);
    PlanWashesAndDries(s, a, b, 0, plan);
  }

  ghost predicate NoLater(d: seq<nat>, e: seq<nat>) {
    |d| == |e| && forall i :: 0 <= i < |d| ==> d[i] <= e[i]
  }

  /** Earlier drinks and an earlier free washer never clean later. */
  lemma {:induction false} BestTimeMonotone(d: seq<nat>, e: seq<nat>, a: nat, b: nat, index: nat, free: nat, free': nat)
    requires NoLater(d, e) && free <= free' && index <= |d|
    ensures BestTime(d, a, b, index, free) <= BestTime(e, a, b, index, free')
    decreases |d| - index
  {
    hide BestTime, Better;
    if index == |d| {
      BestTimeEnd(d, a, b, free);
      BestTimeEnd(e, a, b, free');
    } else {
      var x, y := d[index], e[index];
      var s, t := Max(x, free) + a, Max(y, free') + a;
      BestTimeMonotone(d, e, a, b, index + 1, s, t);
      BestTimeMonotone(d, e, a, b, index + 1, free, free');
      var w, w' := BestTime(d, a, b, index + 1, s), BestTime(e, a, b, index + 1, t);
      var r, r' := BestTime(d, a, b, index + 1, free), BestTime(e, a, b, index + 1, free');
      BestTimeStep(d, a, b, index, free);
      BestTimeStep(e, a, b, index, free');
      BetterMonotone(x, y, a, b, free, free', w, w', r, r');
    }
  }

  lemma BetterMonotone(x: nat, y: nat, a: nat, b: nat, free: nat, free': nat, w: nat, w': nat, r: nat, r': nat)
    requires x <= y && free <= free' && w <= w' && r <= r'
    ensures Better(x, a, b, free, w, r) <= Better(y, a, b, free', w', r')
  {
  }

  // ----- making the coffee

  /** n coffees of w minutes each. */
  ghost function Rounds(w: nat, n: nat): nat {
    if n == 0 then 0 else Rounds(w, n - 1) + w
  }

  lemma {:induction false} RoundsMonotone(w: nat, m: nat, n: nat)
    requires m <= n
    ensures Rounds(w, m) <= Rounds(w, n)
  {
    if m < n {
      RoundsMonotone(w, m, n - 1);
    }
  }

  /** When machine i has finished everything `choices` gave it. */
  ghost function Busy(arr: seq<nat>, choices: seq<nat>, i: nat): nat
    requires i < |arr|
  {
    Rounds(arr[i], multiset(choices)[i])
  }

  ghost predicate Assigns(arr: seq<nat>, choices: seq<nat>) {
    forall k :: 0 <= k < |choices| ==> choices[k] < |arr|
  }

  /** When each person's coffee is ready, in serving order. */
  ghost function Drinks(arr: seq<nat>, choices: seq<nat>): (d: seq<nat>)
    requires Assigns(arr, choices)
    ensures |d| == |choices|
  {
    if choices == [] then [] else
      var front, i := choices[..|choices| - 1], choices[|choices| - 1];
      Drinks(arr, front) + [Busy(arr, front, i) + arr[i]]
  }

  /** An assignment of machines to n people that extends `given`, and the cups washed, in any order, or left to dry. */
  ghost predicate Solves(arr: seq<nat>, given: seq<nat>, n: nat, ch: seq<nat>, wash: seq<nat>, dry: seq<nat>) {
    Extends(arr, given, n, ch) && multiset(wash) + multiset(dry) == multiset(Drinks(arr, ch))
  }

  /**
   x is the least cleaning time over all assignments that extend `given`, all choices of the cups
   to wash and all orders of washing them.
  */
  ghost predicate IsLeastFrom(arr: seq<nat>, given: seq<nat>, n: nat, a: nat, b: nat, x: Option<nat>) {
    && (x.Some? ==> exists ch, wash, dry ::
         Solves(arr, given, n, ch, wash, dry) && CleanTime(wash, dry, a, b) == x.value)
    && forall ch, wash, dry :: Solves(arr, given, n, ch, wash, dry) ==>
         x.Some? && x.value <= CleanTime(wash, dry, a, b)
  }

  ghost predicate Extends(arr: seq<nat>, given: seq<nat>, n: nat, ch: seq<nat>) {
    Assigns(arr, ch) && |ch| == n && given <= ch
  }

  // ----- the greedy assignment is pointwise earliest

  /** At every point the machine that finishes first was used. */
  ghost predicate Greedy(arr: seq<nat>, g: seq<nat>) {
    && Assigns(arr, g)
    && forall k, i :: 0 <= k < |g| && 0 <= i < |arr| ==> Soonest(arr, g, k, i)
  }

  ghost predicate Soonest(arr: seq<nat>, g: seq<nat>, k: nat, i: nat)
    requires k < |g| && i < |arr| && Assigns(arr, g)
  {
    Busy(arr, g[..k], g[k]) + arr[g[k]] <= Busy(arr, g[..k], i) + arr[i]
  }

  lemma {:induction false} DrinkAt(arr: seq<nat>, ch: seq<nat>, k: nat)
    requires Assigns(arr, ch) && k < |ch|
    ensures Drinks(arr, ch)[k] == Busy(arr, ch[..k], ch[k]) + arr[ch[k]]
    decreases |ch|
  {
    if k < |ch| - 1 {
      DrinkAt(arr, ch[..|ch| - 1], k);
      assert ch[..|ch| - 1][..k] == ch[..k];
    }
  }

  /** The machines whose coffees were ready before d. */
  ghost function Early(arr: seq<nat>, ch: seq<nat>, d: int): multiset<nat>
    requires Assigns(arr, ch)
  {
    if ch == [] then multiset{} else
      var front, i := ch[..|ch| - 1], ch[|ch| - 1];
      Early(arr, front, d) + if Busy(arr, front, i) + arr[i] < d then multiset{i} else multiset{}
  }

  lemma LastUse(ch: seq<nat>)
    requires ch != []
    ensures multiset(ch) == multiset(ch[..|ch| - 1]) + multiset{ch[|ch| - 1]}
  {
    assert ch == ch[..|ch| - 1] + [ch[|ch| - 1]];
  }

  lemma FewerUses(n: nat, c: nat, w: nat, d: int)
    requires Rounds(w, n) + w < d <= Rounds(w, c) + w
    ensures n + 1 <= c
  {
    if c <= n {
      RoundsMonotone(w, c, n);
    }
  }

  /** If every machine, used cap times, is busy until d, no assignment is early more often. */
  lemma {:induction false} EarlyWithinCaps(arr: seq<nat>, ch: seq<nat>, d: int, cap: multiset<nat>)
    requires Assigns(arr, ch)
    requires forall i :: 0 <= i < |arr| ==> d <= Rounds(arr[i], cap[i]) + arr[i]
    ensures Early(arr, ch, d) <= cap && Early(arr, ch, d) <= multiset(ch)
    decreases |ch|
  {
    if ch != [] {
      var front, i := ch[..|ch| - 1], ch[|ch| - 1];
      EarlyWithinCaps(arr, front, d, cap);
      LastUse(ch);
      if Busy(arr, front, i) + arr[i] < d {
        FewerUses(multiset(front)[i], cap[i], arr[i], d);
      }
    }
  }

  lemma {:induction false} CountAppend(s: seq<nat>, x: nat, d: int)
    ensures CountBelow(s + [x], d) == CountBelow(s, d) + if x < d then 1 else 0
  {
    if s == [] {
      assert (s + [x])[1..] == [];
    } else {
      assert (s + [x])[1..] == s[1..] + [x];
      CountAppend(s[1..], x, d);
    }
  }

  lemma EarlyStep(arr: seq<nat>, ch: seq<nat>, d: int)
    requires Assigns(arr, ch) && ch != []
    ensures var front, i := ch[..|ch| - 1], ch[|ch| - 1];
            var ready := Busy(arr, front, i) + arr[i];
            && Drinks(arr, ch) == Drinks(arr, front) + [ready]
            && |Early(arr, ch, d)| == |Early(arr, front, d)| + if ready < d then 1 else 0
  {
    hide Busy;
  }

  lemma {:induction false} EarlyCounts(arr: seq<nat>, ch: seq<nat>, d: int)
    requires Assigns(arr, ch)
    ensures |Early(arr, ch, d)| == CountBelow(Drinks(arr, ch), d)
    decreases |ch|
  {
    if ch != [] {
      hide Early, Drinks, CountBelow, Busy;
      var front, i := ch[..|ch| - 1], ch[|ch| - 1];
      EarlyStep(arr, ch, d);
      EarlyCounts(arr, front, d);
      CountAppend(Drinks(arr, front), Busy(arr, front, i) + arr[i], d);
    }
  }

  /** The j-th greedy coffee is no later than the j-th of any assignment, sorted. */
  lemma GreedyIsEarliest(arr: seq<nat>, g: seq<nat>, ch: seq<nat>, j: nat)
    requires Greedy(arr, g) && Assigns(arr, ch) && j < |g| == |ch|
    ensures |Sort(Drinks(arr, ch))| == |ch| && Drinks(arr, g)[j] <= Sort(Drinks(arr, ch))[j]
  {
    var d, s := Drinks(arr, g)[j], Sort(Drinks(arr, ch));
    SortKeepsLength(Drinks(arr, ch));
    DrinkAt(arr, g, j);
    var cap := multiset(g[..j]);
    forall i | 0 <= i < |arr| ensures d <= Rounds(arr[i], cap[i]) + arr[i] {
      assert Soonest(arr, g, j, i);
    }
    EarlyWithinCaps(arr, ch, d, cap);
    EarlyCounts(arr, ch, d);
    SubmultisetIsSmaller(Early(arr, ch, d), cap);
    SortCounts(Drinks(arr, ch), d);
    if s[j] < d {
      SortedBelow(s, j, d);
    }
  }

  lemma SubmultisetIsSmaller(m: multiset<nat>, n: multiset<nat>)
    requires m <= n
    ensures |m| <= |n|
  {
    assert n == m + (n - m);
  }

  lemma GreedyAscends(arr: seq<nat>, g: seq<nat>, k: nat)
    requires Greedy(arr, g) && k + 1 < |g|
    ensures Drinks(arr, g)[k] <= Drinks(arr, g)[k + 1]
  {
    DrinkAt(arr, g, k);
    DrinkAt(arr, g, k + 1);
    var i := g[k + 1];
    assert Soonest(arr, g, k, i);
    assert g[..k + 1] == g[..k] + [g[k]];
    RoundsMonotone(arr[i], multiset(g[..k])[i], multiset(g[..k + 1])[i]);
  }

  lemma {:induction false} AscendsBetween(s: seq<nat>, i: nat, j: nat)
    requires forall k :: 0 <= k && k + 1 < |s| ==> s[k] <= s[k + 1]
    requires i <= j < |s|
    ensures s[i] <= s[j]
    decreases j
  {
    if i < j {
      AscendsBetween(s, i, j - 1);
      assert s[j - 1] <= s[j - 1 + 1];
    }
  }

  lemma GreedyIsSorted(arr: seq<nat>, g: seq<nat>)
    requires Greedy(arr, g)
    ensures Sort(Drinks(arr, g)) == Drinks(arr, g)
  {
    var s := Drinks(arr, g);
    forall k | 0 <= k && k + 1 < |s| ensures s[k] <= s[k + 1] {
      GreedyAscends(arr, g, k);
    }
    forall i, j | 0 <= i < j < |s| ensures s[i] <= s[j] {
      AscendsBetween(s, i, j);
    }
    SortOfSorted(s);
  }

  /** Cleaning after greedy service takes the least time over all assignments and all ways of washing. */
  lemma GreedyIsLeast(arr: seq<nat>, g: seq<nat>, a: nat, b: nat)
    requires Greedy(arr, g)
    ensures IsLeastFrom(arr, [], |g|, a, b, Some(BestTime(Drinks(arr, g), a, b, 0, 0)))
  {
    var d := Drinks(arr, g);
    GreedyIsSorted(arr, g);
    hide BestTime, Greedy, CleanTime, Sort;
    var wash, dry := SomeWashingIsBest(d, a, b);
    assert Solves(arr, [], |g|, g, wash, dry);
    forall ch, wash, dry | Solves(arr, [], |g|, ch, wash, dry)
      ensures BestTime(d, a, b, 0, 0) <= CleanTime(wash, dry, a, b)
    {
      NoAssignmentIsFaster(arr, g, ch, a, b);
      NoWashingIsFaster(Drinks(arr, ch), wash, dry, a, b);
    }
  }

  lemma NoAssignmentIsFaster(arr: seq<nat>, g: seq<nat>, ch: seq<nat>, a: nat, b: nat)
    requires Greedy(arr, g) && Assigns(arr, ch) && |ch| == |g|
    ensures BestTime(Drinks(arr, g), a, b, 0, 0) <= BestTime(Sort(Drinks(arr, ch)), a, b, 0, 0)
  {
    hide BestTime, Sort, Drinks;
    var d, s := Drinks(arr, g), Sort(Drinks(arr, ch));
    SortKeepsLength(Drinks(arr, ch));
    forall j | 0 <= j < |d| ensures d[j] <= s[j] {
      GreedyIsEarliest(arr, g, ch, j);
    }
    BestTimeMonotone(d, s, a, b, 0, 0, 0);
  }

  // ----- the greedy programs

  datatype Machine = Machine(timePoint: nat, workTime: nat)

  function Finish(m: Machine): nat {
    m.timePoint + m.workTime
  }

  /** A machine of the queue that would finish soonest; ties are broken arbitrarily. */
  predicate IsFirst(queue: seq<Machine>, i: nat) {
    i < |queue| && forall j :: 0 <= j < |queue| ==> Finish(queue[i]) <= Finish(queue[j])
  }

  lemma {:induction false} FirstExists(queue: seq<Machine>) returns (i: nat)
    requires queue != []
    ensures IsFirst(queue, i)
  {
    i := 0;
    if |queue| > 1 {
      var k := FirstExists(queue[1..]);
      i := if Finish(queue[0]) <= Finish(queue[k + 1]) then 0 else k + 1;
      assert forall j :: 1 <= j < |queue| ==> queue[j] == queue[1..][j - 1];
    }
  }

  ghost predicate QueueIs(arr: seq<nat>, choices: seq<nat>, queue: seq<Machine>) {
    && |queue| == |arr|
    && forall i :: 0 <= i < |arr| ==> queue[i] == Machine(Busy(arr, choices, i), arr[i])
  }

  lemma BusyNext(arr: seq<nat>, choices: seq<nat>, i: nat, j: nat)
    requires i < |arr| && j < |arr|
    ensures Busy(arr, choices + [i], j) == Busy(arr, choices, j) + if i == j then arr[j] else 0
  {
  }

  lemma ServeNext(arr: seq<nat>, g: seq<nat>, queue: seq<Machine>, i: nat)
    requires Greedy(arr, g) && QueueIs(arr, g, queue) && IsFirst(queue, i)
    ensures Greedy(arr, g + [i]) && Drinks(arr, g + [i]) == Drinks(arr, g) + [Finish(queue[i])]
    ensures QueueIs(arr, g + [i], queue[i := Machine(Finish(queue[i]), arr[i])])
  {
    hide Busy;
    var h := g + [i];
    assert h[..|h| - 1] == g;
    forall j | 0 <= j < |arr| {
      BusyNext(arr, g, i, j);
    }
    forall k, j | 0 <= k < |h| && 0 <= j < |arr| ensures Soonest(arr, h, k, j) {
      if k < |g| {
        assert h[..k] == g[..k];
        assert Soonest(arr, g, k, j);
      }
    }
  }

  /** Serves n people, each from the machine that finishes first. */
  method Serve(arr: seq<nat>, n: nat) returns (drink: array<nat>, ghost g: seq<nat>)
    requires n > 0 ==> arr != []
    ensures fresh(drink) && |g| == n && Greedy(arr, g) && drink[..] == Drinks(arr, g)
  {
    var queue := seq(|arr|, i requires 0 <= i < |arr| => Machine(0, arr[i]));
    drink := new nat[n];
    g := [];
    for k := 0 to n
      invariant |g| == k && Greedy(arr, g) && QueueIs(arr, g, queue) && drink[..k] == Drinks(arr, g)
    {
      ghost var _ := FirstExists(queue);
      var i: nat :| i < |queue| && IsFirst(queue, i);
      ServeNext(arr, g, queue, i);
      drink[k] := Finish(queue[i]);
      queue := queue[i := Machine(Finish(queue[i]), queue[i].workTime)];
      g := g + [i];
      assert drink[..k + 1] == drink[..k] + [drink[k]];
    }
    assert drink[..n] == drink[..];
  }

  method MinTime(arr: seq<nat>, n: nat, a: nat, b: nat) returns (time: nat)
    requires n > 0 ==> arr != []
    ensures IsLeastFrom(arr, [], n, a, b, Some(time))
  {
    ghost var g;
    var drink;
    drink, g := Serve(arr, n);
    time := BestTime(drink[..], a, b, 0, 0);
    GreedyIsLeast(arr, g, a, b);
  }

  // ----- the washing table

  /** When the washer is free if it washes the first `index` cups: no entry beyond this is needed. */
  ghost function AllWashed(drink: seq<nat>, a: nat, index: nat): nat
    requires index <= |drink|
  {
    if index == 0 then 0 else Max(drink[index - 1], AllWashed(drink, a, index - 1)) + a
  }

  lemma {:induction false} AllWashedGrows(drink: seq<nat>, a: nat, i: nat, j: nat)
    requires i <= j <= |drink|
    ensures AllWashed(drink, a, i) <= AllWashed(drink, a, j)
  {
    if i < j {
      AllWashedGrows(drink, a, i, j - 1);
    }
  }

  /** The entries of a row that can be reached are right; the others are never read for the answer. */
  ghost predicate RowOk(drink: seq<nat>, a: nat, b: nat, index: nat, row: seq<nat>)
    requires index <= |drink|
  {
    forall free :: 0 <= free < |row| && free <= AllWashed(drink, a, index) ==>
        row[free] == BestTime(drink, a, b, index, free)
  }

  method FillRow(dp: array2<nat>, drink: seq<nat>, a: nat, b: nat, index: nat)
    requires dp.Length0 == |drink| + 1 && dp.Length1 == AllWashed(drink, a, |drink|) + 1 && index < |drink|
    requires RowOk(drink, a, b, index + 1, RowOf(dp, index + 1))
    modifies dp
    ensures RowOk(drink, a, b, index, RowOf(dp, index))
  {
    hide BestTime, Better;
    ghost var next := RowOf(dp, index + 1);
    AllWashedGrows(drink, a, index + 1, |drink|);
    for free := 0 to dp.Length1
      invariant RowOf(dp, index + 1) == next
      invariant RowOk(drink, a, b, index, RowOf(dp, index)[..free])
    {
      var selfClean := Max(drink[index], free) + a;
      ghost var before := RowOf(dp, index);
      if selfClean < dp.Length1 {
        CellIsBestTime(drink, a, b, index, free, next);
        assert dp[index + 1, selfClean] == next[selfClean] && dp[index + 1, free] == next[free];
        Write(dp, index, free, Better(drink[index], a, b, free, dp[index + 1, selfClean], dp[index + 1, free]));
      }
      assert RowOf(dp, index)[..free + 1] == before[..free] + [RowOf(dp, index)[free]];
    }
    assert RowOf(dp, index)[..dp.Length1] == RowOf(dp, index);
  }

  lemma CellIsBestTime(drink: seq<nat>, a: nat, b: nat, index: nat, free: nat, next: seq<nat>)
    requires index < |drink| && |next| == AllWashed(drink, a, |drink|) + 1
    requires RowOk(drink, a, b, index + 1, next) && free <= Max(drink[index], free) + a < |next|
    ensures free <= AllWashed(drink, a, index) ==>
              Better(drink[index], a, b, free, next[Max(drink[index], free) + a], next[free])
                  == BestTime(drink, a, b, index, free)
  {
    hide BestTime, Better;
    BestTimeStep(drink, a, b, index, free);
  }

  /** dp: the washing table, without the recursion. */
  method Dp(drink: seq<nat>, a: nat, b: nat) returns (time: nat)
    ensures time == BestTime(drink, a, b, 0, 0)
  {
    var n, maxFree := |drink|, 0;
    for i := 0 to n
      invariant maxFree == AllWashed(drink, a, i)
    {
      maxFree := Max(drink[i], maxFree) + a;
    }
    var dp := new nat[n + 1, maxFree + 1]((i, j) => 0);
    var index := n;
    while index > 0
      invariant 0 <= index <= n && RowOk(drink, a, b, index, RowOf(dp, index))
    {
      index := index - 1;
      FillRow(dp, drink, a, b, index);
    }
    time := dp[0, 0];
    assert RowOf(dp, 0)[0] == time;
  }

  method MinTime1(arr: seq<nat>, n: nat, a: nat, b: nat) returns (time: nat)
    requires n > 0 ==> arr != []
    ensures IsLeastFrom(arr, [], n, a, b, Some(time))
  {
    ghost var g;
    var drink;
    drink, g := Serve(arr, n);
    time := Dp(drink[..], a, b);
    GreedyIsLeast(arr, g, a, b);
  }

  // ----- the exhaustive program

  /** Splitting the extensions of `given` by the next machine used. */
  ghost predicate IsLeastBelow(arr: seq<nat>, given: seq<nat>, n: nat, a: nat, b: nat, bound: nat, x: Option<nat>) {
    && (x.Some? ==> exists ch, wash, dry ::
         Solves(arr, given, n, ch, wash, dry) && CleanTime(wash, dry, a, b) == x.value)
    && forall ch, wash, dry :: Solves(arr, given, n, ch, wash, dry) && |given| < n && ch[|given|] < bound ==>
         x.Some? && x.value <= CleanTime(wash, dry, a, b)
  }

  lemma NextMachine(arr: seq<nat>, given: seq<nat>, n: nat, a: nat, b: nat, i: nat, x: Option<nat>, y: Option<nat>)
    requires |given| < n && i < |arr| && IsLeastBelow(arr, given, n, a, b, i, x)
    requires IsLeastFrom(arr, given + [i], n, a, b, y)
    ensures IsLeastBelow(arr, given, n, a, b, i + 1, Least(x, y))
  {
    hide CleanTime;
    if y.Some? {
      var ch, wash, dry :| Solves(arr, given + [i], n, ch, wash, dry) && CleanTime(wash, dry, a, b) == y.value;
      assert Solves(arr, given, n, ch, wash, dry);
    }
    forall ch, wash, dry | Solves(arr, given, n, ch, wash, dry) && ch[|given|] < i + 1
      ensures Least(x, y).Some? && Least(x, y).value <= CleanTime(wash, dry, a, b)
    {
      if ch[|given|] == i {
        assert Solves(arr, given + [i], n, ch, wash, dry);
      }
    }
  }

  lemma NoMachineYet(arr: seq<nat>, given: seq<nat>, n: nat, a: nat, b: nat)
    ensures IsLeastBelow(arr, given, n, a, b, 0, None)
  {
  }

  lemma EveryMachine(arr: seq<nat>, given: seq<nat>, n: nat, a: nat, b: nat, x: Option<nat>)
    requires |given| < n && IsLeastBelow(arr, given, n, a, b, |arr|, x)
    ensures IsLeastFrom(arr, given, n, a, b, x)
  {
    hide CleanTime;
  }

  /** With everyone served, the exhaustive washing search takes the least time over all ways of washing. */
  lemma NobodyLeft(arr: seq<nat>, given: seq<nat>, a: nat, b: nat)
    requires Assigns(arr, given)
    ensures IsLeastFrom(arr, given, |given|, a, b, Some(ForceWash(Sort(Drinks(arr, given)), a, b, 0, 0, 0)))
  {
    var d := Drinks(arr, given);
    ForceWashIsBestTime(Sort(d), a, b, 0, 0, 0);
    hide BestTime, ForceWash, Sort, CleanTime;
    var wash, dry := SomeWashingIsBest(d, a, b);
    assert Solves(arr, given, |given|, given, wash, dry);
    forall ch, wash, dry | Solves(arr, given, |given|, ch, wash, dry)
      ensures BestTime(Sort(d), a, b, 0, 0) <= CleanTime(wash, dry, a, b)
    {
      assert ch == given;
      NoWashingIsFaster(d, wash, dry, a, b);
    }
  }

  ghost predicate TimesAre(arr: seq<nat>, given: seq<nat>, times: seq<nat>) {
    |times| == |arr| && forall i :: 0 <= i < |arr| ==> times[i] == Busy(arr, given, i)
  }

  /** Tries every machine for person kth, undoing each trial; None when there is no machine at all. */
  method ForceMake(arr: seq<nat>, times: array<nat>, kth: nat, drink: array<nat>, a: nat, b: nat, ghost given: seq<nat>)
      returns (time: Option<nat>)
    requires times != drink && kth == |given| <= drink.Length && Assigns(arr, given)
    requires TimesAre(arr, given, times[..]) && drink[..kth] == Drinks(arr, given)
    requires forall k :: kth <= k < drink.Length ==> drink[k] == 0
    modifies times, drink
    ensures IsLeastFrom(arr, given, drink.Length, a, b, time)
    ensures times[..] == old(times[..]) && drink[..] == old(drink[..])
    decreases drink.Length - kth
  {
    if kth == drink.Length {
      assert drink[..kth] == drink[..];
      NobodyLeft(arr, given, a, b);
      return Some(ForceWash(Sort(drink[..]), a, b, 0, 0, 0));
    }
    time := None;
    NoMachineYet(arr, given, drink.Length, a, b);
    hide IsLeastFrom, IsLeastBelow, Drinks, TimesAre, ForceWash, Sort;
    for i := 0 to |arr|
      invariant times[..] == old(times[..]) && drink[..] == old(drink[..])
      invariant IsLeastBelow(arr, given, drink.Length, a, b, i, time)
    {
      var pre := times[i];
      assert drink[..kth] == old(drink[..])[..kth] == old(drink[..kth]);
      drink[kth] := pre + arr[i];
      times[i] := pre + arr[i];
      OneMoreCup(arr, given, i, old(times[..]), drink[..kth]);
      assert drink[..kth + 1] == drink[..kth] + [pre + arr[i]];
      assert times[..] == old(times[..])[i := pre + arr[i]];
      var trial := ForceMake(arr, times, kth + 1, drink, a, b, given + [i]);
      NextMachine(arr, given, drink.Length, a, b, i, time, trial);
      time := Least(time, trial);
      drink[kth] := 0;
      assert drink[..] == old(drink[..]);
      times[i] := pre;
    }
    EveryMachine(arr, given, drink.Length, a, b, time);
  }

  lemma OneMoreCup(arr: seq<nat>, given: seq<nat>, i: nat, times: seq<nat>, drinks: seq<nat>)
    requires Assigns(arr, given) && i < |arr| && TimesAre(arr, given, times) && drinks == Drinks(arr, given)
    ensures Assigns(arr, given + [i]) && TimesAre(arr, given + [i], times[i := times[i] + arr[i]])
    ensures Drinks(arr, given + [i]) == drinks + [times[i] + arr[i]]
  {
    hide Busy;
    assert (given + [i])[..|given|] == given;
    forall j | 0 <= j < |arr| ensures times[i := times[i] + arr[i]][j] == Busy(arr, given + [i], j) {
      BusyNext(arr, given, i, j);
    }
  }

  method Right(arr: seq<nat>, n: nat, a: nat, b: nat) returns (time: Option<nat>)
    ensures IsLeastFrom(arr, [], n, a, b, time)
  {
    var times := new nat[|arr|](i => 0);
    var drink := new nat[n](_ => 0);
    assert drink[..0] == [];
    time := ForceMake(arr, times, 0, drink, a, b, []);
  }

  /** The greedy answers and the exhaustive one are the same number. */
  lemma LeastIsUnique(arr: seq<nat>, n: nat, a: nat, b: nat, x: Option<nat>, y: Option<nat>)
    requires IsLeastFrom(arr, [], n, a, b, x) && IsLeastFrom(arr, [], n, a, b, y)
    ensures x == y
  {
    hide CleanTime;
  }
}
