/**
 Joining strings into the lexicographically least whole: sorting by the comparator that
 compares a + b with b + a is right because, on non-empty strings, it is a total preorder.
*/
module LowestConcatenation {

  /** A UTF-16 code unit. */
  type Unit = c: int | 0 <= c < 0x1_0000 witness 0
  type Str = seq<Unit>

  // ----- String.compareTo

  function CompareTo(x: Str, y: Str): int {
    if x == [] || y == [] then |x| - |y|
    else if x[0] != y[0] then x[0] - y[0]
    else CompareTo(x[1..], y[1..])
  }

  predicate NotAfter(x: Str, y: Str) {
    CompareTo(x, y) <= 0
  }

  /** x is a prefix of y, or smaller at the first difference. */
  ghost predicate Precedes(x: Str, y: Str) {
    exists k :: PrecedesAt(x, y, k)
  }

  ghost predicate PrecedesAt(x: Str, y: Str, k: int) {
    0 <= k <= |x| && k <= |y| && x[..k] == y[..k] && (k == |x| || (k < |y| && x[k] < y[k]))
  }

  lemma SameHeads(x: Str, y: Str, k: int)
    requires x != [] && y != []
    ensures PrecedesAt(x, y, k) && k > 0 ==> x[0] == y[0]
  {
    if PrecedesAt(x, y, k) && k > 0 {
      assert x[0] == x[..k][0] && y[0] == y[..k][0];
    }
  }

  /** compareTo is the dictionary order. */
  lemma {:induction false} CompareIsDictionary(x: Str, y: Str)
    ensures NotAfter(x, y) <==> Precedes(x, y)
  {
    if x == [] {
      assert PrecedesAt(x, y, 0);
    } else if y == [] {
      assert forall k :: !PrecedesAt(x, y, k);
    } else if x[0] != y[0] {
      forall k ensures PrecedesAt(x, y, k) <==> k == 0 && x[0] < y[0] {
        SameHeads(x, y, k);
      }
      assert x[0] < y[0] ==> PrecedesAt(x, y, 0);
    } else {
      CompareIsDictionary(x[1..], y[1..]);
      if Precedes(x, y) {
        var k :| PrecedesAt(x, y, k);
        assert x[1..][..k - 1] == x[..k][1..] && y[1..][..k - 1] == y[..k][1..];
        assert PrecedesAt(x[1..], y[1..], k - 1);
      }
      if Precedes(x[1..], y[1..]) {
        var k :| PrecedesAt(x[1..], y[1..], k);
        assert x[..k + 1] == [x[0]] + x[1..][..k] && y[..k + 1] == [y[0]] + y[1..][..k];
        assert PrecedesAt(x, y, k + 1);
      }
    }
  }

  // ----- strings of equal length compare as numbers in base 65536

  ghost function Pow(n: nat): nat {
    if n == 0 then 1 else 0x1_0000 * Pow(n - 1)
  }

  ghost function Value(x: Str): nat {
    if x == [] then 0 else x[0] * Pow(|x| - 1) + Value(x[1..])
  }

  lemma {:induction false} PowPositive(n: nat)
    ensures Pow(n) >= 1 && (n > 0 ==> Pow(n) > 1)
  {
    if n > 0 {
      PowPositive(n - 1);
    }
  }

  lemma {:induction false} PowAdds(m: nat, n: nat)
    ensures Pow(m + n) == Pow(m) * Pow(n)
  {
    if m > 0 {
      PowAdds(m - 1, n);
      hide Pow;
      PowStep(m);
      PowStep(m + n);
      Reassociate(0x1_0000, Pow(m - 1), Pow(n));
    }
  }

  lemma PowStep(n: nat)
    requires n > 0
    ensures Pow(n) == 0x1_0000 * Pow(n - 1)
  {
  }

  lemma Reassociate(a: int, b: int, c: int)
    ensures (a * b) * c == a * (b * c)
  {
  }

  lemma {:induction false} ValueBound(x: Str)
    ensures Value(x) < Pow(|x|)
  {
    if x != [] {
      ValueBound(x[1..]);
      PowStep(|x|);
      hide Pow;
      Digit(x[0], Pow(|x| - 1));
    }
  }

  lemma Digit(d: int, p: nat)
    requires 0 <= d < 0x1_0000
    ensures d * p + p <= 0x1_0000 * p
  {
    assert 0x1_0000 * p == d * p + p + (0xFFFF - d) * p;
  }

  lemma {:induction false} ValueConcat(x: Str, y: Str)
    ensures Value(x + y) == Value(x) * Pow(|y|) + Value(y)
  {
    if x == [] {
      assert x + y == y;
    } else {
      assert (x + y)[1..] == x[1..] + y;
      ValueConcat(x[1..], y);
      PowAdds(|x| - 1, |y|);
      var p, q := Pow(|x| - 1), Pow(|y|);
      Reassociate(x[0], p, q);
      assert (x[0] * p + Value(x[1..])) * q == (x[0] * p) * q + Value(x[1..]) * q;
    }
  }

  /** For equal lengths, comparing is comparing values. */
  lemma {:induction false} CompareIsValue(x: Str, y: Str)
    requires |x| == |y|
    ensures NotAfter(x, y) <==> Value(x) <= Value(y)
    ensures CompareTo(x, y) == 0 <==> x == y
  {
    if x != [] {
      CompareIsValue(x[1..], y[1..]);
      ValueBound(x[1..]);
      ValueBound(y[1..]);
      FirstDigit(x[0], y[0], Pow(|x| - 1), Value(x[1..]), Value(y[1..]));
      assert x == [x[0]] + x[1..] && y == [y[0]] + y[1..];
    }
  }

  lemma FirstDigit(a: int, b: int, p: nat, v: nat, w: nat)
    requires v < p && w < p
    ensures a < b ==> a * p + v < b * p + w
    ensures a > b ==> a * p + v > b * p + w
  {
    if a < b {
      AtLeastOnce(b - a, p);
      assert b * p == a * p + (b - a) * p;
    } else if a > b {
      AtLeastOnce(a - b, p);
      assert a * p == b * p + (a - b) * p;
    }
  }

  lemma AtLeastOnce(n: nat, p: nat)
    requires n >= 1
    ensures n * p >= p
  {
    assert n * p == (n - 1) * p + p;
  }

  // ----- the comparator

  function Compare(a: Str, b: Str): int {
    CompareTo(a + b, b + a)
  }

  predicate Before(a: Str, b: Str) {
    Compare(a, b) <= 0
  }

  lemma TimesOneLess(v: int, p: int)
    ensures v * (p - 1) == v * p - v
  {
  }

  /** a goes before b exactly when the repeating fraction a a a ... is no greater than b b b ... */
  lemma BeforeIsFraction(a: Str, b: Str)
    ensures Before(a, b) <==> Value(a) * (Pow(|b|) - 1) <= Value(b) * (Pow(|a|) - 1)
  {
    hide Value, Pow, CompareTo;
    CompareIsValue(a + b, b + a);
    ValueConcat(a, b);
    ValueConcat(b, a);
    TimesOneLess(Value(a), Pow(|b|));
    TimesOneLess(Value(b), Pow(|a|));
  }

  lemma Total(a: Str, b: Str)
    ensures Before(a, a) && (Before(a, b) || Before(b, a))
  {
    hide Value, Pow;
    BeforeIsFraction(a, a);
    BeforeIsFraction(a, b);
    BeforeIsFraction(b, a);
  }

  lemma CrossMultiply(a: nat, b: nat, c: nat, p: nat, q: nat, r: nat)
    requires a * q <= b * p && b * r <= c * q && q > 0
    ensures a * r <= c * p
  {
    assert (a * q) * r <= (b * p) * r;
    assert (b * r) * p <= (c * q) * p;
    assert (a * r) * q <= (c * p) * q;
    Cancel(a * r, c * p, q);
  }

  lemma Cancel(x: int, y: int, q: int)
    requires x * q <= y * q && q > 0
    ensures x <= y
  {
  }

  lemma Transitive(a: Str, b: Str, c: Str)
    requires b != [] && Before(a, b) && Before(b, c)
    ensures Before(a, c)
  {
    hide Value, Pow;
    BeforeIsFraction(a, b);
    BeforeIsFraction(b, c);
    BeforeIsFraction(a, c);
    PowPositive(|a|);
    PowPositive(|b|);
    PowPositive(|c|);
    CrossMultiply(Value(a), Value(b), Value(c), Pow(|a|) - 1, Pow(|b|) - 1, Pow(|c|) - 1);
  }

  /** The comparator is transitive through b exactly when b is not empty. */
  lemma TransitiveIffNotEmpty(b: Str)
    ensures (forall a, c :: Before(a, b) && Before(b, c) ==> Before(a, c)) <==> b != []
  {
    if b == [] {
      var a: Str, c: Str := [1], [0];
      assert a + b == a == b + a && c + b == c == b + c;
      CompareIsValue(a, a);
      CompareIsValue(c, c);
      assert (a + c)[0] == 1 && (c + a)[0] == 0;
      assert Before(a, b) && Before(b, c) && !Before(a, c);
    } else {
      forall a, c | Before(a, b) && Before(b, c) ensures Before(a, c) {
        Transitive(a, b, c);
      }
    }
  }

  // ----- concatenations and their permutations

  ghost function Concat(ss: seq<Str>): Str {
    if ss == [] then [] else ss[0] + Concat(ss[1..])
  }

  ghost predicate IsPermutation(p: seq<Str>, s: seq<Str>) {
    multiset(p) == multiset(s)
  }

  ghost predicate IsConcatenation(s: seq<Str>, t: Str) {
    exists p :: IsPermutation(p, s) && Concat(p) == t
  }

  /** r is the least concatenation over all orders of the strings. */
  ghost predicate IsLowest(s: seq<Str>, r: Str) {
    IsConcatenation(s, r) && forall t :: IsConcatenation(s, t) ==> NotAfter(r, t)
  }

  ghost predicate InOrder(s: seq<Str>) {
    forall i, j :: 0 <= i < j < |s| ==> Before(s[i], s[j])
  }

  ghost predicate NoneEmpty(s: seq<Str>) {
    forall i :: 0 <= i < |s| ==> s[i] != []
  }

  lemma {:induction false} ConcatAppend(p: seq<Str>, q: seq<Str>)
    ensures Concat(p + q) == Concat(p) + Concat(q)
  {
    if p == [] {
      assert p + q == q;
    } else {
      assert (p + q)[1..] == p[1..] + q;
      ConcatAppend(p[1..], q);
    }
  }

  /** Concatenations compared by value, having equal length. */
  ghost predicate AtMost(p: seq<Str>, q: seq<Str>) {
    |Concat(p)| == |Concat(q)| && Value(Concat(p)) <= Value(Concat(q))
  }

  lemma TimesAtMost(x: nat, y: nat, z: nat)
    requires x <= y
    ensures x * z <= y * z
  {
  }

  lemma SameTail(p: Str, q: Str, t: Str)
    requires |p| == |q| && Value(p) <= Value(q)
    ensures Value(p + t) <= Value(q + t)
  {
    hide *;
    ValueConcat(p, t);
    ValueConcat(q, t);
    TimesAtMost(Value(p), Value(q), Pow(|t|));
  }

  lemma SameHead(h: Str, p: Str, q: Str)
    requires |p| == |q| && Value(p) <= Value(q)
    ensures Value(h + p) <= Value(h + q)
  {
    hide Value;
    ValueConcat(h, p);
    ValueConcat(h, q);
  }

  lemma ConcatFour(u: seq<Str>, a: Str, b: Str, v: seq<Str>)
    ensures Concat(u + [a, b] + v) == Concat(u) + (a + b + Concat(v))
  {
    ConcatAppend(u, [a, b] + v);
    assert u + [a, b] + v == u + ([a, b] + v);
    assert ([a, b] + v)[1..] == [b] + v && ([b] + v)[1..] == v;
    assert a + (b + Concat(v)) == a + b + Concat(v);
  }

  /** Exchanging two neighbours that are out of order never makes the whole greater. */
  lemma SwapNeighbours(u: seq<Str>, a: Str, b: Str, v: seq<Str>)
    requires Before(b, a)
    ensures AtMost(u + [b, a] + v, u + [a, b] + v)
  {
    hide Concat, Value;
    ConcatFour(u, a, b, v);
    ConcatFour(u, b, a, v);
    CompareIsValue(b + a, a + b);
    SameTail(b + a, a + b, Concat(v));
    SameHead(Concat(u), b + a + Concat(v), a + b + Concat(v));
  }

  ghost function MovedFront(p: seq<Str>, k: nat): seq<Str>
    requires k < |p|
  {
    [p[k]] + p[..k] + p[k + 1..]
  }

  lemma {:induction false} MoveFront(p: seq<Str>, k: nat)
    requires k < |p| && forall i :: 0 <= i < k ==> Before(p[k], p[i])
    ensures AtMost(MovedFront(p, k), p)
    decreases k
  {
    if k == 0 {
      assert MovedFront(p, k) == p;
    } else {
      var u, v := p[..k - 1], p[k + 1..];
      var q := u + [p[k], p[k - 1]] + v;
      assert p == u + [p[k - 1], p[k]] + v;
      SwapNeighbours(u, p[k - 1], p[k], v);
      MoveFront(q, k - 1);
      assert MovedFront(q, k - 1) == MovedFront(p, k);
    }
  }

  lemma WithoutFirst(s: seq<Str>, p: seq<Str>) returns (k: nat)
    requires s != [] && IsPermutation(p, s)
    ensures k < |p| && p[k] == s[0] && IsPermutation(p[..k] + p[k + 1..], s[1..])
  {
    assert s == [s[0]] + s[1..];
    assert s[0] in multiset(p);
    k :| k < |p| && p[k] == s[0];
    assert p == p[..k] + [p[k]] + p[k + 1..];
    assert multiset(p[..k] + p[k + 1..]) == multiset(p) - multiset{p[k]};
    assert multiset(s[1..]) == multiset(s) - multiset{s[0]};
  }

  lemma PermutationElement(s: seq<Str>, p: seq<Str>, i: nat)
    requires IsPermutation(p, s) && i < |p|
    ensures p[i] in s
  {
    assert p[i] in multiset(p);
  }

  /** An ordered sequence concatenates to no more than any permutation of it. */
  lemma {:induction false} OrderedIsLeast(s: seq<Str>, p: seq<Str>)
    requires InOrder(s) && IsPermutation(p, s)
    ensures AtMost(s, p)
    decreases |s|
  {
    if s == [] {
      assert |multiset(p)| == 0;
    } else {
      var k := WithoutFirst(s, p);
      var rest := p[..k] + p[k + 1..];
      forall i | 0 <= i < k ensures Before(p[k], p[i]) {
        PermutationElement(s, p, i);
        Total(s[0], s[0]);
        var j :| 0 <= j < |s| && s[j] == p[i];
      }
      MoveFront(p, k);
      OrderedIsLeast(s[1..], rest);
      HeadThenRest(s, p, k, rest);
    }
  }

  lemma HeadThenRest(s: seq<Str>, p: seq<Str>, k: nat, rest: seq<Str>)
    requires s != [] && k < |p| && p[k] == s[0] && rest == p[..k] + p[k + 1..]
    requires AtMost(s[1..], rest) && AtMost(MovedFront(p, k), p)
    ensures AtMost(s, p)
  {
    hide Value;
    assert MovedFront(p, k) == [s[0]] + rest && ([s[0]] + rest)[1..] == rest;
    SameHead(s[0], Concat(s[1..]), Concat(rest));
  }

  lemma OrderedIsLowest(s: seq<Str>, given: seq<Str>)
    requires InOrder(s) && IsPermutation(s, given)
    ensures IsLowest(given, Concat(s))
  {
    forall t | IsConcatenation(given, t) ensures NotAfter(Concat(s), t) {
      var p :| IsPermutation(p, given) && Concat(p) == t;
      OrderedIsLeast(s, p);
      CompareIsValue(Concat(s), Concat(p));
    }
  }

  /** Exchanging two neighbours that are strictly out of order makes the whole less. */
  lemma SwapIsLess(u: seq<Str>, a: Str, b: Str, v: seq<Str>)
    requires !Before(a, b)
    ensures !NotAfter(Concat(u + [a, b] + v), Concat(u + [b, a] + v))
  {
    hide Concat, Value;
    ConcatFour(u, a, b, v);
    ConcatFour(u, b, a, v);
    CompareIsValue(a + b, b + a);
    LessBeforeTail(b + a, a + b, Concat(v));
    LessAfterHead(Concat(u), b + a + Concat(v), a + b + Concat(v));
    CompareIsValue(Concat(u + [a, b] + v), Concat(u + [b, a] + v));
  }

  lemma LessBeforeTail(p: Str, q: Str, t: Str)
    requires |p| == |q| && Value(p) < Value(q)
    ensures Value(p + t) < Value(q + t)
  {
    hide *;
    ValueConcat(p, t);
    ValueConcat(q, t);
    PowPositive(|t|);
    TimesLess(Value(p), Value(q), Pow(|t|));
  }

  lemma TimesLess(x: nat, y: nat, z: nat)
    requires x < y && z > 0
    ensures x * z < y * z
  {
  }

  lemma LessAfterHead(h: Str, p: Str, q: Str)
    requires |p| == |q| && Value(p) < Value(q)
    ensures Value(h + p) < Value(h + q)
  {
    hide Value;
    ValueConcat(h, p);
    ValueConcat(h, q);
  }

  /** No element has to go before the one in front of it. */
  ghost predicate NeighboursInOrder(p: seq<Str>) {
    forall k :: 0 <= k && k + 1 < |p| ==> Before(p[k], p[k + 1])
  }

  lemma {:induction false} NeighboursSuffice(s: seq<Str>)
    requires NoneEmpty(s) && NeighboursInOrder(s)
    ensures InOrder(s)
  {
    hide Before;
    if s != [] {
      var front, last := s[..|s| - 1], s[|s| - 1];
      NeighboursSuffice(front);
      forall i | 0 <= i < |s| - 1 ensures Before(s[i], last) {
        if i < |s| - 2 {
          assert Before(front[i], front[|s| - 2]);
          Transitive(s[i], s[|s| - 2], last);
        }
      }
      OneMoreInOrder(front, last);
      assert s == front + [last];
    }
  }

  lemma OneMoreInOrder(s: seq<Str>, x: Str)
    requires InOrder(s) && forall i :: 0 <= i < |s| ==> Before(s[i], x)
    ensures InOrder(s + [x])
  {
    hide Before;
  }

  lemma OutOfOrder(s: seq<Str>) returns (k: nat)
    requires NoneEmpty(s) && !InOrder(s)
    ensures k + 1 < |s| && !Before(s[k], s[k + 1])
  {
    hide Before, InOrder, NoneEmpty;
    if NeighboursInOrder(s) {
      NeighboursSuffice(s);
    }
    k :| 0 <= k && k + 1 < |s| && !Before(s[k], s[k + 1]);
  }

  /** Non-empty strings concatenate to the least string exactly when they are in order. */
  lemma LowestIffInOrder(s: seq<Str>)
    requires NoneEmpty(s)
    ensures IsLowest(s, Concat(s)) <==> InOrder(s)
  {
    hide Before, Concat, NotAfter, IsLowest, InOrder, NoneEmpty;
    if InOrder(s) {
      OrderedIsLowest(s, s);
    } else {
      var k := OutOfOrder(s);
      OutOfOrderIsNotLowest(s, k);
    }
  }

  lemma SwapIsConcatenation(u: seq<Str>, a: Str, b: Str, v: seq<Str>)
    ensures IsConcatenation(u + [a, b] + v, Concat(u + [b, a] + v))
  {
    hide Concat;
    assert IsPermutation(u + [b, a] + v, u + [a, b] + v);
  }

  lemma OutOfOrderIsNotLowest(s: seq<Str>, k: nat)
    requires k + 1 < |s| && !Before(s[k], s[k + 1])
    ensures !IsLowest(s, Concat(s))
  {
    hide Before, Concat, NotAfter, IsPermutation, IsConcatenation;
    var a, b, u, v := s[k], s[k + 1], s[..k], s[k + 2..];
    var t := u + [b, a] + v;
    assert s == u + [a, b] + v;
    SwapIsLess(u, a, b, v);
    SwapIsConcatenation(u, a, b, v);
  }

  // ----- sorting in place by the comparator

  /** What sorting s by the comparator may leave, all that is asked of the library's sort. */
  ghost predicate Sorts(p: seq<Str>, s: seq<Str>) {
    IsPermutation(p, s) && NeighboursInOrder(p)
  }

  /** The first n elements have no neighbours out of order. */
  ghost predicate OrderedTo(p: seq<Str>, n: int) {
    0 <= n <= |p| && forall k {:trigger p[k]} :: 0 < k < n ==> Before(p[k - 1], p[k])
  }

  /** Up to i only the element at j may have to go further to the front. */
  ghost predicate Sinking(p: seq<Str>, i: int, j: int) {
    && 0 <= j <= i < |p|
    && (forall k {:trigger p[k]} :: 0 < k <= i && k != j ==> Before(p[k - 1], p[k]))
    && (0 < j < i ==> Before(p[j - 1], p[j + 1]))
  }

  ghost function Swapped(p: seq<Str>, j: nat): (q: seq<Str>)
    requires 0 < j < |p|
    ensures |q| == |p|
  {
    p[j := p[j - 1]][j - 1 := p[j]]
  }

  lemma SwapSinks(p: seq<Str>, i: int, j: int)
    requires Sinking(p, i, j) && j > 0 && !Before(p[j - 1], p[j])
    ensures Sinking(Swapped(p, j), i, j - 1)
  {
    Total(p[j - 1], p[j]);
    hide Before;
  }

  lemma SwapPermutes(p: seq<Str>, j: int)
    requires 0 < j < |p|
    ensures IsPermutation(Swapped(p, j), p)
  {
  }

  lemma SinkStarts(p: seq<Str>, i: int)
    requires OrderedTo(p, i) && i < |p|
    ensures Sinking(p, i, i)
  {
    hide Before;
  }

  lemma SinkEnds(p: seq<Str>, i: int, j: int)
    requires Sinking(p, i, j) && (j > 0 ==> Before(p[j - 1], p[j]))
    ensures OrderedTo(p, i + 1)
  {
    hide Before;
  }

  /** Brings element i to its place among those before it. */
  method InsertInPlace(arr: array<Str>, i: nat)
    requires i < arr.Length && OrderedTo(arr[..], i)
    modifies arr
    ensures OrderedTo(arr[..], i + 1) && IsPermutation(arr[..], old(arr[..]))
  {
    hide Before, OrderedTo, Sinking, IsPermutation;
    ghost var s := arr[..];
    SamePermutation(s);
    SinkStarts(s, i);
    var j := i;
    while j > 0 && !Before(arr[j - 1], arr[j])
      invariant 0 <= j <= i && Sinking(arr[..], i, j) && IsPermutation(arr[..], s)
    {
      ghost var p := arr[..];
      SwapSinks(p, i, j);
      SwapPermutes(p, j);
      arr[j - 1], arr[j] := arr[j], arr[j - 1];
      assert arr[..] == Swapped(p, j);
      PermutationOfPermutation(arr[..], p, s);
      j := j - 1;
    }
    SinkEnds(arr[..], i, j);
  }

  lemma SamePermutation(s: seq<Str>)
    ensures IsPermutation(s, s)
  {
  }

  lemma PermutationOfPermutation(q: seq<Str>, p: seq<Str>, s: seq<Str>)
    requires IsPermutation(q, p) && IsPermutation(p, s)
    ensures IsPermutation(q, s)
  {
  }

  lemma OrderedThrough(p: seq<Str>)
    requires OrderedTo(p, |p|)
    ensures NeighboursInOrder(p)
  {
    hide Before;
    forall k | 0 <= k && k + 1 < |p| ensures Before(p[k], p[k + 1]) {
      assert p[k + 1] == p[k + 1];
    }
  }

  /** Stands for the library's sort: callers know no more of it than what `Sorts` says. */
  method SortInPlace(arr: array<Str>)
    modifies arr
    ensures Sorts(arr[..], old(arr[..]))
  {
    hide Before, OrderedTo, IsPermutation, NeighboursInOrder;
    ghost var s := arr[..];
    SamePermutation(s);
    NothingOrdered(s);
    for i := 0 to arr.Length
      invariant OrderedTo(arr[..], i) && IsPermutation(arr[..], s)
    {
      ghost var p := arr[..];
      InsertInPlace(arr, i);
      PermutationOfPermutation(arr[..], p, s);
    }
    OrderedThrough(arr[..]);
  }

  lemma NothingOrdered(p: seq<Str>)
    ensures OrderedTo(p, 0)
  {
  }

  // ----- an order exists

  ghost function Insert(x: Str, s: seq<Str>): (r: seq<Str>)
    ensures |r| == |s| + 1
  {
    if s == [] || Before(s[|s| - 1], x) then s + [x]
    else Insert(x, s[..|s| - 1]) + [s[|s| - 1]]
  }

  ghost function Sorted(s: seq<Str>): (r: seq<Str>)
    ensures |r| == |s|
  {
    if s == [] then [] else Insert(s[|s| - 1], Sorted(s[..|s| - 1]))
  }

  lemma {:induction false} InsertPermutes(x: Str, s: seq<Str>)
    ensures multiset(Insert(x, s)) == multiset(s) + multiset{x}
    decreases |s|
  {
    if !(s == [] || Before(s[|s| - 1], x)) {
      hide Before;
      assert s == s[..|s| - 1] + [s[|s| - 1]];
      InsertPermutes(x, s[..|s| - 1]);
    }
  }

  lemma {:induction false} SortedPermutes(s: seq<Str>)
    ensures IsPermutation(Sorted(s), s)
    decreases |s|
  {
    if s != [] {
      assert s == s[..|s| - 1] + [s[|s| - 1]];
      SortedPermutes(s[..|s| - 1]);
      InsertPermutes(s[|s| - 1], Sorted(s[..|s| - 1]));
    }
  }

  /** Everything inserted goes before what x goes before: this is where transitivity matters. */
  lemma {:induction false} InsertOrdered(x: Str, s: seq<Str>)
    requires InOrder(s) && NoneEmpty(s) && x != []
    ensures InOrder(Insert(x, s)) && NoneEmpty(Insert(x, s))
    ensures forall e :: e in Insert(x, s) <==> e in s || e == x
    decreases |s|
  {
    hide Before;
    if s != [] {
      var front, last := s[..|s| - 1], s[|s| - 1];
      assert s == front + [last];
      if Before(last, x) {
        forall i | 0 <= i < |s| ensures Before(s[i], x) {
          if i < |s| - 1 {
            Transitive(s[i], last, x);
          }
        }
      } else {
        InsertOrdered(x, front);
        Total(last, x);
        var t := Insert(x, front);
        forall i | 0 <= i < |t| ensures Before(t[i], last) {
          assert t[i] in front || t[i] == x;
        }
      }
    }
  }

  lemma {:induction false} SortedInOrder(s: seq<Str>)
    requires NoneEmpty(s)
    ensures InOrder(Sorted(s)) && NoneEmpty(Sorted(s))
    decreases |s|
  {
    if s != [] {
      SortedInOrder(s[..|s| - 1]);
      InsertOrdered(s[|s| - 1], Sorted(s[..|s| - 1]));
    }
  }

  // ----- empty strings

  /** The strings that are not empty, in order. */
  ghost function Kept(s: seq<Str>): (k: seq<Str>)
    ensures NoneEmpty(k)
  {
    if s == [] then []
    else Kept(s[..|s| - 1]) + if s[|s| - 1] == [] then [] else [s[|s| - 1]]
  }

  lemma {:induction false} KeptElements(s: seq<Str>)
    ensures multiset(Kept(s)) == multiset(s)[[] := 0]
    ensures forall e :: e in Kept(s) <==> e in s && e != []
    decreases |s|
  {
    if s != [] {
      var front, last := s[..|s| - 1], s[|s| - 1];
      assert s == front + [last];
      KeptElements(front);
    }
  }

  lemma {:induction false} KeptWhole(s: seq<Str>)
    requires NoneEmpty(s)
    ensures Kept(s) == s
    decreases |s|
  {
    if s != [] {
      var front, last := s[..|s| - 1], s[|s| - 1];
      assert s == front + [last];
      assert forall i :: 0 <= i < |front| ==> front[i] == s[i];
      KeptWhole(front);
    }
  }

  lemma {:induction false} KeptConcat(s: seq<Str>)
    ensures Concat(Kept(s)) == Concat(s)
    decreases |s|
  {
    if s != [] {
      var front, last := s[..|s| - 1], s[|s| - 1];
      assert s == front + [last];
      KeptConcat(front);
      ConcatAppend(front, [last]);
      ConcatAppend(Kept(front), [last]);
      ConcatOne(last);
      assert Kept(front) + [] == Kept(front);
    }
  }

  lemma ConcatOne(x: Str)
    ensures Concat([x]) == x
  {
    var s: seq<Str> := [x];
    assert s[1..] == [];
    assert Concat(s) == x + Concat(s[1..]);
  }

  lemma {:induction false} KeptAppend(s: seq<Str>, t: seq<Str>)
    ensures Kept(s + t) == Kept(s) + Kept(t)
    decreases |t|
  {
    if t == [] {
      assert s + t == s;
    } else {
      assert (s + t)[..|s + t| - 1] == s + t[..|t| - 1];
      KeptAppend(s, t[..|t| - 1]);
    }
  }

  /** Empty strings do not change which concatenations there are. */
  lemma SameConcatenations(s: seq<Str>, t: Str)
    ensures IsConcatenation(s, t) <==> IsConcatenation(Kept(s), t)
  {
    hide Concat, Kept;
    if IsConcatenation(s, t) {
      var p :| IsPermutation(p, s) && Concat(p) == t;
      WithoutEmpties(s, p);
    }
    if IsConcatenation(Kept(s), t) {
      var p :| IsPermutation(p, Kept(s)) && Concat(p) == t;
      WithEmpties(s, p);
    }
  }

  lemma WithoutEmpties(s: seq<Str>, p: seq<Str>)
    requires IsPermutation(p, s)
    ensures IsPermutation(Kept(p), Kept(s)) && Concat(Kept(p)) == Concat(p)
  {
    hide Concat, Kept;
    KeptElements(s);
    KeptElements(p);
    KeptConcat(p);
  }

  lemma WithEmpties(s: seq<Str>, p: seq<Str>)
    requires IsPermutation(p, Kept(s))
    ensures IsConcatenation(s, Concat(p))
  {
    hide Concat, Kept;
    var e := Empties(multiset(s)[[]]);
    EmptiesAre(multiset(s)[[]]);
    KeptElements(s);
    ConcatAppend(p, e);
    hide Empties;
    assert multiset(p + e) == multiset(p) + multiset(e);
    assert IsPermutation(p + e, s);
  }

  ghost function Empties(n: nat): seq<Str> {
    if n == 0 then [] else Empties(n - 1) + [[]]
  }

  lemma {:induction false} EmptiesAre(n: nat)
    ensures Concat(Empties(n)) == [] && multiset(Empties(n)) == multiset{}[[] := n]
  {
    if n > 0 {
      EmptiesAre(n - 1);
      ConcatAppend(Empties(n - 1), [[]]);
      ConcatOne([]);
    }
  }

  lemma LowestOfKept(s: seq<Str>, r: Str)
    ensures IsLowest(s, r) <==> IsLowest(Kept(s), r)
  {
    hide IsConcatenation;
    forall t ensures IsConcatenation(s, t) <==> IsConcatenation(Kept(s), t) {
      SameConcatenations(s, t);
    }
  }

  /** An empty string compares as equal to everything. */
  lemma EmptyStops(x: Str)
    ensures Before([], x) && Before(x, [])
  {
    assert [] + x == x == x + [];
    SameIsNotAfter(x);
  }

  lemma {:induction false} SameIsNotAfter(x: Str)
    ensures NotAfter(x, x)
  {
    if x != [] {
      SameIsNotAfter(x[1..]);
    }
  }

  lemma LowestOfPermutation(s: seq<Str>, t: seq<Str>, r: Str)
    requires IsPermutation(t, s)
    ensures IsLowest(s, r) <==> IsLowest(t, r)
  {
    assert forall x :: IsConcatenation(s, x) <==> IsConcatenation(t, x);
  }

  /** Strings in any order concatenate to the least string exactly when the non-empty ones are in order. */
  lemma LowestIffKeptInOrder(s: seq<Str>, p: seq<Str>)
    requires IsPermutation(p, s)
    ensures IsLowest(s, Concat(p)) <==> InOrder(Kept(p))
  {
    hide Concat, InOrder, IsLowest, Kept;
    KeptConcat(p);
    LowestOfPermutation(s, p, Concat(p));
    LowestOfKept(p, Concat(p));
    LowestIffInOrder(Kept(p));
  }

  /** No two of the strings are out of order, whichever comes first. */
  ghost predicate AllTie(s: seq<Str>) {
    forall x, y :: x in s && y in s ==> Before(x, y)
  }

  lemma SameElements(s: seq<Str>, p: seq<Str>)
    requires IsPermutation(p, s)
    ensures forall x :: x in p <==> x in s
  {
    assert forall x :: x in p <==> x in multiset(p);
    assert forall x :: x in s <==> x in multiset(s);
  }

  lemma SortedIsLowest(s: seq<Str>, p: seq<Str>)
    requires Sorts(p, s) && (NoneEmpty(s) || AllTie(s))
    ensures IsLowest(s, Concat(p))
  {
    hide Before, Concat, IsLowest;
    SameElements(s, p);
    if NoneEmpty(s) {
      forall i | 0 <= i < |p| ensures p[i] != [] {
        assert p[i] in p;
      }
      NeighboursSuffice(p);
    }
    OrderedIsLowest(p, s);
  }

  lemma {:induction false} EmptiesAreEmpty(n: nat)
    ensures forall i :: 0 <= i < |Empties(n)| ==> Empties(n)[i] == []
  {
    if n > 0 {
      EmptiesAreEmpty(n - 1);
    }
  }

  lemma EmptiesInOrder(e: seq<Str>)
    requires forall i :: 0 <= i < |e| ==> e[i] == []
    ensures NeighboursInOrder(e)
  {
    EmptyStops([]);
  }

  /** An empty string may stand between any two. */
  lemma JoinedByEmpty(p: seq<Str>, q: seq<Str>)
    requires NeighboursInOrder(p) && NeighboursInOrder(q) && (p == [] || q == [] || p[|p| - 1] == [] || q[0] == [])
    ensures NeighboursInOrder(p + q)
  {
    hide Before;
    if p != [] && q != [] {
      EmptyStops(p[|p| - 1]);
      EmptyStops(q[0]);
    }
  }

  lemma OneEmptyThen(x: Str)
    ensures NeighboursInOrder([x, []])
  {
    EmptyStops(x);
  }

  lemma InOrderNeighbours(q: seq<Str>)
    requires InOrder(q)
    ensures NeighboursInOrder(q)
  {
    hide Before;
  }

  /** x, an empty string, q in order, and the other empty strings: no neighbours out of order. */
  ghost function Hidden(x: Str, q: seq<Str>, n: nat): seq<Str> {
    [x, []] + q + Empties(n)
  }

  lemma HiddenInOrder(x: Str, q: seq<Str>, n: nat)
    requires InOrder(q)
    ensures NeighboursInOrder(Hidden(x, q, n))
  {
    hide Before, NeighboursInOrder, InOrder;
    OneEmptyThen(x);
    InOrderNeighbours(q);
    JoinedByEmpty([x, []], q);
    EmptiesAreEmpty(n);
    EmptiesInOrder(Empties(n));
    JoinedByEmpty([x, []] + q, Empties(n));
  }

  lemma {:induction false} KeptOfEmpties(e: seq<Str>)
    requires forall i :: 0 <= i < |e| ==> e[i] == []
    ensures Kept(e) == []
    decreases |e|
  {
    if e != [] {
      KeptOfEmpties(e[..|e| - 1]);
    }
  }

  lemma KeptOfHidden(x: Str, q: seq<Str>, n: nat)
    requires x != [] && NoneEmpty(q)
    ensures Kept(Hidden(x, q, n)) == [x] + q
  {
    hide Kept;
    EmptiesAreEmpty(n);
    KeptOfEmpties(Empties(n));
    KeptAppend([x, []] + q, Empties(n));
    KeptAppend([x, []], q);
    KeptWhole(q);
    KeptAppend([x], [[]]);
    KeptWhole([x]);
    KeptOfEmpties([[]]);
    assert [x] + [[]] == [x, []];
  }

  lemma TakeOut(k: seq<Str>, i: nat, rest: seq<Str>)
    requires i < |k| && NoneEmpty(k) && rest == k[..i] + k[i + 1..]
    ensures NoneEmpty(rest) && multiset(rest) + multiset{k[i]} == multiset(k)
  {
    assert k == k[..i] + [k[i]] + k[i + 1..];
  }

  /** All of s but x and one empty string, in order. */
  lemma Others(s: seq<Str>, x: Str) returns (q: seq<Str>, n: nat)
    requires x in s && x != [] && [] in s
    ensures InOrder(q) && NoneEmpty(q)
    ensures IsPermutation(Hidden(x, q, n), s)
  {
    hide Before, Kept, Sorted, Empties, InOrder, NoneEmpty, Hidden;
    var k := Kept(s);
    KeptElements(s);
    var i :| 0 <= i < |k| && k[i] == x;
    var rest := k[..i] + k[i + 1..];
    TakeOut(k, i, rest);
    SortedInOrder(rest);
    SortedPermutes(rest);
    q, n := Sorted(rest), multiset(s)[[]] - 1;
    HiddenElements(x, q, n);
    PutBack(multiset(s), multiset(k), multiset(Hidden(x, q, n)), n);
  }

  lemma PutBack(s: multiset<Str>, k: multiset<Str>, h: multiset<Str>, n: nat)
    requires k == s[[] := 0] && s[[]] == n + 1 && h == k + multiset{}[[] := n + 1]
    ensures h == s
  {
  }

  lemma HiddenElements(x: Str, q: seq<Str>, n: nat)
    ensures multiset(Hidden(x, q, n)) == multiset(q) + multiset{x} + multiset{}[[] := n + 1]
  {
    EmptiesAre(n);
    hide Empties;
  }

  /** Behind an empty string a sort may leave an earlier string unnoticed. */
  lemma EmptyMayHide(s: seq<Str>) returns (p: seq<Str>)
    requires !NoneEmpty(s) && !AllTie(s)
    ensures Sorts(p, s) && !IsLowest(s, Concat(p))
  {
    var x, y :| x in s && y in s && !Before(x, y);
    EmptyStops(x);
    EmptyStops(y);
    assert x != [] && y != [] && [] in s;
    hide Before, IsLowest, Concat, Kept, InOrder;
    var q, n := Others(s, x);
    p := Hidden(x, q, n);
    HiddenInOrder(x, q, n);
    KeptOfHidden(x, q, n);
    LowestIffKeptInOrder(s, p);
    KeptElements(s);
    KeptElements(p);
    SameElements(s, p);
    assert y in Kept(p);
    Total(x, y);
    NotBeforeAll(x, q, y);
  }

  lemma NotBeforeAll(x: Str, q: seq<Str>, y: Str)
    requires y in [x] + q && !Before(x, y) && Before(x, x)
    ensures !InOrder([x] + q)
  {
    hide Before;
    var i :| 0 <= i < |[x] + q| && ([x] + q)[i] == y;
    assert i > 0 && ([x] + q)[0] == x;
  }

  /**
   Whatever a sort may leave concatenates to the least string if and only if there is no empty
   string or no two strings are out of order.
  */
  lemma AlwaysLowestIff(s: seq<Str>)
    ensures (forall p :: Sorts(p, s) ==> IsLowest(s, Concat(p))) <==> NoneEmpty(s) || AllTie(s)
  {
    hide Before, Sorts, IsLowest, Concat, NoneEmpty, AllTie;
    if NoneEmpty(s) || AllTie(s) {
      forall p | Sorts(p, s) ensures IsLowest(s, Concat(p)) {
        SortedIsLowest(s, p);
      }
    } else {
      var p := EmptyMayHide(s);
    }
  }

  /**
   Sorts, then appends the strings in order; null or empty input gives the empty string.  The
   outcome is the least one if and only if the sort left the non-empty strings in order, which it
   must do if none is empty or no two are out of order.
  */
  method GetLowestLexicography(arr: array?<Str>) returns (r: Str)
    modifies arr
    ensures arr == null ==> r == []
    ensures arr != null ==> Sorts(arr[..], old(arr[..])) && r == Concat(arr[..])
    ensures arr != null ==> (IsLowest(old(arr[..]), r) <==> InOrder(Kept(arr[..])))
    ensures arr != null && (NoneEmpty(old(arr[..])) || AllTie(old(arr[..]))) ==> IsLowest(old(arr[..]), r)
  {
    if arr == null || arr.Length < 1 {
      if arr != null {
        assert arr[..] == [];
        Outcome(arr[..], arr[..]);
      }
      return [];
    }
    ghost var s := arr[..];
    SortInPlace(arr);
    r := [];
    hide Sorts, IsLowest, NoneEmpty, AllTie, InOrder, Kept;
    for i := 0 to arr.Length
      invariant Sorts(arr[..], s) && r == Concat(arr[..i])
    {
      assert arr[..i + 1] == arr[..i] + [arr[i]];
      ConcatAppend(arr[..i], [arr[i]]);
      ConcatOne(arr[i]);
      r := r + arr[i];
    }
    assert arr[..arr.Length] == arr[..];
    Outcome(s, arr[..]);
  }

  lemma Outcome(s: seq<Str>, p: seq<Str>)
    requires Sorts(p, s)
    ensures IsLowest(s, Concat(p)) <==> InOrder(Kept(p))
    ensures NoneEmpty(s) || AllTie(s) ==> IsLowest(s, Concat(p))
  {
    LowestIffKeptInOrder(s, p);
    if NoneEmpty(s) || AllTie(s) {
      SortedIsLowest(s, p);
    }
  }

  /** The shortest failure: "b", "" and "a" have no neighbours out of order and may stay as they are. */
  lemma EmptyStringSpoilsTheOrder(s: seq<Str>)
    requires s == [[98], [], [97]]
    ensures Sorts(s, s) && !IsLowest(s, Concat(s))
  {
    var x: Str, y: Str := [98], [97];
    OneOutOfOrder(x, y);
    var q := [y];
    hide Before, Kept, IsLowest, Concat, NeighboursInOrder, InOrder;
    OneInOrder(y);
    HiddenInOrder(x, q, 0);
    KeptOfHidden(x, q, 0);
    assert s == [x, []] + q + [] == Hidden(x, q, 0);
    LowestIffKeptInOrder(s, s);
    Total(x, y);
    NotBeforeAll(x, q, y);
  }

  lemma OneInOrder(y: Str)
    ensures InOrder([y])
  {
  }

  lemma OneOutOfOrder(x: Str, y: Str)
    requires x == [98] && y == [97]
    ensures !Before(x, y)
  {
    assert (x + y)[0] == 98 && (y + x)[0] == 97;
  }

  // ----- the exhaustive program

  function Without(s: seq<Str>, i: nat): seq<Str>
    requires i < |s|
  {
    s[..i] + s[i + 1..]
  }

  /** Every concatenation of a permutation, tried first string by first string. */
  method Process(strs: seq<Str>) returns (ans: set<Str>)
    ensures forall t :: t in ans <==> IsConcatenation(strs, t)
    decreases |strs|
  {
    if strs == [] {
      forall t {
        EmptyPermutation(t);
      }
      return {[]};
    }
    ans := {};
    for i := 0 to |strs|
      invariant forall t :: t in ans <==> StartsBelow(strs, i, t)
    {
      var next := Process(Without(strs, i));
      ghost var before := ans;
      ans := ans + set cur | cur in next :: strs[i] + cur;
      forall t ensures t in ans <==> StartsBelow(strs, i + 1, t) {
        OneMoreStart(strs, i, next, before, ans, t);
      }
    }
    forall t ensures StartsBelow(strs, |strs|, t) <==> IsConcatenation(strs, t) {
      AllStarts(strs, t);
    }
  }

  /** t is a concatenation starting with one of the first n strings. */
  ghost predicate StartsBelow(strs: seq<Str>, n: nat, t: Str)
    requires n <= |strs|
  {
    exists i, q :: 0 <= i < n && StartsWith(strs, i, q, t)
  }

  ghost predicate StartsWith(strs: seq<Str>, i: nat, q: seq<Str>, t: Str)
    requires i < |strs|
  {
    IsPermutation(q, Without(strs, i)) && t == strs[i] + Concat(q)
  }

  lemma OneMoreStart(strs: seq<Str>, i: nat, next: set<Str>, before: set<Str>, ans: set<Str>, t: Str)
    requires i < |strs| && (t in before <==> StartsBelow(strs, i, t))
    requires forall u :: u in next <==> IsConcatenation(Without(strs, i), u)
    requires ans == before + set cur | cur in next :: strs[i] + cur
    ensures t in ans <==> StartsBelow(strs, i + 1, t)
  {
    if t in ans && t !in before {
      var cur :| cur in next && t == strs[i] + cur;
      var p :| IsPermutation(p, Without(strs, i)) && Concat(p) == cur;
      assert StartsWith(strs, i, p, t);
    }
    if StartsBelow(strs, i + 1, t) && t !in before {
      var j, q :| 0 <= j < i + 1 && StartsWith(strs, j, q, t);
      assert j == i && Concat(q) in next;
    }
  }

  lemma EmptyPermutation(t: Str)
    ensures IsConcatenation([], t) <==> t == []
  {
    assert IsPermutation([], []) && Concat([]) == [];
    forall p | IsPermutation(p, []) ensures p == [] {
      assert |multiset(p)| == 0;
    }
  }

  lemma AllStarts(strs: seq<Str>, t: Str)
    requires strs != []
    ensures StartsBelow(strs, |strs|, t) <==> IsConcatenation(strs, t)
  {
    if StartsBelow(strs, |strs|, t) {
      var i, q :| 0 <= i < |strs| && StartsWith(strs, i, q, t);
      FirstThenRest(strs, i, q);
    }
    if IsConcatenation(strs, t) {
      var p :| IsPermutation(p, strs) && Concat(p) == t;
      assert p != [] by {
        assert |multiset(p)| == |multiset(strs)|;
      }
      var i := WithoutFirst(p, strs);
      assert StartsWith(strs, i, p[1..], t);
    }
  }

  lemma FirstThenRest(strs: seq<Str>, i: nat, q: seq<Str>)
    requires i < |strs| && IsPermutation(q, Without(strs, i))
    ensures IsPermutation([strs[i]] + q, strs) && Concat([strs[i]] + q) == strs[i] + Concat(q)
  {
    assert strs == strs[..i] + [strs[i]] + strs[i + 1..];
    assert multiset(Without(strs, i)) == multiset(strs) - multiset{strs[i]};
    assert ([strs[i]] + q)[1..] == q;
  }

  /** The first string of the exhaustive set is the same answer. */
  method LowestString1(strs: seq<Str>) returns (r: Str)
    ensures IsLowest(strs, r)
  {
    var ans := Process(strs);
    assert IsPermutation(strs, strs);
    assert IsConcatenation(strs, Concat(strs));
    forall x, y | x in ans && y in ans ensures |x| == |y| {
      ConcatenationLength(strs, x);
      ConcatenationLength(strs, y);
    }
    r := First(ans);
  }

  /** TreeSet.first. */
  method First(ans: set<Str>) returns (r: Str)
    requires ans != {} && forall x, y :: x in ans && y in ans ==> |x| == |y|
    ensures r in ans && forall t :: t in ans ==> NotAfter(r, t)
  {
    hide CompareTo;
    r :| r in ans;
    var left := ans - {r};
    CompareIsValue(r, r);
    while left != {}
      invariant left <= ans && r in ans
      invariant forall t :: t in ans && t !in left ==> NotAfter(r, t)
      decreases left
    {
      var t :| t in left;
      CompareIsValue(t, r);
      if NotAfter(t, r) {
        forall u | u in ans && u !in left ensures NotAfter(t, u) {
          CompareIsValue(r, u);
          CompareIsValue(t, u);
        }
        CompareIsValue(t, t);
        r := t;
      } else {
        CompareIsValue(r, t);
      }
      left := left - {t};
    }
  }

  /** The answer is unique, so the greedy and the exhaustive one are the same string. */
  lemma LowestIsUnique(s: seq<Str>, x: Str, y: Str)
    requires IsLowest(s, x) && IsLowest(s, y)
    ensures x == y
  {
    hide CompareTo, Value, IsConcatenation;
    ConcatenationLength(s, x);
    ConcatenationLength(s, y);
    assert NotAfter(x, y) && NotAfter(y, x);
    CompareIsValue(x, y);
    CompareIsValue(y, x);
    SameValue(x, y);
  }

  lemma {:induction false} SameValue(x: Str, y: Str)
    requires |x| == |y| && Value(x) == Value(y)
    ensures x == y
  {
    if x != [] {
      ValueBound(x[1..]);
      ValueBound(y[1..]);
      FirstDigit(x[0], y[0], Pow(|x| - 1), Value(x[1..]), Value(y[1..]));
      SameValue(x[1..], y[1..]);
      assert x == [x[0]] + x[1..] && y == [y[0]] + y[1..];
    }
  }

  lemma ConcatenationLength(s: seq<Str>, t: Str)
    requires IsConcatenation(s, t)
    ensures |t| == |Concat(s)|
  {
    var p :| IsPermutation(p, s) && Concat(p) == t;
    SameLength(p, s);
  }

  lemma {:induction false} SameLength(p: seq<Str>, q: seq<Str>)
    requires IsPermutation(p, q)
    ensures |Concat(p)| == |Concat(q)|
    decreases |p|
  {
    if p == [] {
      assert |multiset(q)| == 0;
    } else {
      var k := WithoutFirst(p, q);
      SameLength(p[1..], q[..k] + q[k + 1..]);
      ConcatAppend(q[..k], q[k + 1..]);
      ConcatAppend(q[..k], q[k..]);
      assert q == q[..k] + q[k..];
      assert q[k..][1..] == q[k + 1..];
    }
  }
}
