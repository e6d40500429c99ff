/** Sorting a list of naturals: the specification of the library sorts the programs call. */
module Sorting {

  ghost predicate Ascending(s: seq<nat>) {
    forall i, j :: 0 <= i < j < |s| ==> s[i] <= s[j]
  }

  function Insert(x: nat, s: seq<nat>): (r: seq<nat>)
    ensures multiset(r) == multiset(s) + multiset{x}
  {
    if s == [] || x <= s[0] then [x] + s
    else
      assert s == [s[0]] + s[1..];
      [s[0]] + Insert(x, s[1..])
  }

  lemma {:induction false} InsertAscending(x: nat, s: seq<nat>)
    requires Ascending(s)
    ensures Ascending(Insert(x, s))
    decreases |s|
  {
    if s != [] && x > s[0] {
      InsertAscending(x, s[1..]);
      InsertElements(x, s[1..]);
      InFront(s[0], Insert(x, s[1..]));
    }
  }

  lemma InsertElements(x: nat, s: seq<nat>)
    ensures forall y :: y in Insert(x, s) ==> y == x || y in s
  {
    hide Insert;
    forall y | y in Insert(x, s) ensures y == x || y in s {
      assert y in multiset(Insert(x, s));
    }
  }

  lemma InFront(x: nat, s: seq<nat>)
    requires Ascending(s) && forall y :: y in s ==> x <= y
    ensures Ascending([x] + s)
  {
    var t := [x] + s;
    forall i, j | 0 <= i < j < |t| ensures t[i] <= t[j] {
      assert t[j] == s[j - 1] && s[j - 1] in s;
    }
  }

  function Sort(s: seq<nat>): (r: seq<nat>)
    ensures multiset(r) == multiset(s) && Ascending(r)
  {
    if s == [] then [] else
      assert s == [s[0]] + s[1..];
      InsertAscending(s[0], Sort(s[1..]));
      Insert(s[0], Sort(s[1..]))
  }

  lemma SortKeepsElements(s: seq<nat>)
    ensures forall x :: x in s <==> x in Sort(s)
  {
    assert forall x :: x in s <==> x in multiset(s);
    assert forall x :: x in Sort(s) <==> x in multiset(Sort(s));
  }

  /** How many elements are below d. */
  ghost function CountBelow(s: seq<int>, d: int): nat {
    if s == [] then 0 else (if s[0] < d then 1 else 0) + CountBelow(s[1..], d)
  }

  lemma {:induction false} CountConcat(s: seq<int>, t: seq<int>, d: int)
    ensures CountBelow(s + t, d) == CountBelow(s, d) + CountBelow(t, d)
  {
    if s == [] {
      assert s + t == t;
    } else {
      assert (s + t)[1..] == s[1..] + t;
      CountConcat(s[1..], t, d);
    }
  }

  lemma Removed(t: seq<int>, k: nat, d: int)
    requires k < |t|
    ensures multiset(t[..k] + t[k + 1..]) == multiset(t) - multiset{t[k]}
    ensures CountBelow(t, d) == CountBelow(t[..k] + t[k + 1..], d) + if t[k] < d then 1 else 0
  {
    var u, v := t[..k], t[k + 1..];
    assert t == u + ([t[k]] + v);
    CountConcat(u, v, d);
    CountConcat(u, [t[k]] + v, d);
    assert ([t[k]] + v)[1..] == v;
  }

  /** Counts do not depend on the order. */
  lemma {:induction false} CountPermutes(s: seq<int>, t: seq<int>, d: int)
    requires multiset(s) == multiset(t)
    ensures CountBelow(s, d) == CountBelow(t, d) && |s| == |t|
    decreases |s|
  {
    hide CountBelow;
    assert |multiset(s)| == |multiset(t)|;
    if s == [] {
      assert t == [];
    } else {
      assert s[0] in multiset(t);
      var k :| 0 <= k < |t| && t[k] == s[0];
      Removed(s, 0, d);
      Removed(t, k, d);
      CountPermutes(s[..0] + s[1..], t[..k] + t[k + 1..], d);
    }
  }

  /** Nothing from k on is below d. */
  lemma {:induction false} CountAtMost(s: seq<int>, k: nat, d: int)
    requires k <= |s| && forall i :: k <= i < |s| ==> s[i] >= d
    ensures CountBelow(s, d) <= k
  {
    if s != [] {
      CountAtMost(s[1..], if k > 0 then k - 1 else 0, d);
    }
  }

  /** Everything before k is below d. */
  lemma {:induction false} CountAtLeast(s: seq<int>, k: nat, d: int)
    requires k <= |s| && forall i :: 0 <= i < k ==> s[i] < d
    ensures k <= CountBelow(s, d) <= |s|
  {
    if s != [] {
      CountAtLeast(s[1..], if k > 0 then k - 1 else 0, d);
    }
  }

  lemma {:induction false} InsertCounts(x: nat, s: seq<nat>, d: int)
    ensures CountBelow(Insert(x, s), d) == CountBelow(s, d) + if x < d then 1 else 0
  {
    if s == [] || x <= s[0] {
      assert ([x] + s)[1..] == s;
    } else {
      InsertCounts(x, s[1..], d);
      assert Insert(x, s)[1..] == Insert(x, s[1..]);
    }
  }

  lemma {:induction false} SortCounts(s: seq<nat>, d: int)
    ensures CountBelow(Sort(s), d) == CountBelow(s, d)
  {
    if s != [] {
      SortCounts(s[1..], d);
      InsertCounts(s[0], Sort(s[1..]), d);
    }
  }

  lemma {:induction false} SortedBelow(s: seq<nat>, j: nat, d: int)
    requires Ascending(s) && j < |s| && s[j] < d
    ensures CountBelow(s, d) >= j + 1
    decreases j
  {
    if j > 0 {
      SortedBelow(s[1..], j - 1, d);
    }
  }

  lemma {:induction false} SortOfSorted(s: seq<nat>)
    requires Ascending(s)
    ensures Sort(s) == s
  {
    if s != [] {
      SortOfSorted(s[1..]);
      assert s == [s[0]] + s[1..];
      assert |s| > 1 ==> s[0] <= s[1];
    }
  }

  lemma SortKeepsLength(s: seq<nat>)
    ensures |Sort(s)| == |s|
  {
    assert |multiset(Sort(s))| == |multiset(s)|;
  }
}
