/**
 Spelling a word with letters cut from stickers: trying every useful sticker, trying only
 stickers that hold the first letter still missing, and remembering solved words.
*/
module Stickers {
  import opened Wrappers
  import opened Letters

  ghost function Times(w: Word, c: Letter): nat {
    multiset(w)[c]
  }

  // ----- plans

  ghost predicate Within(plan: seq<nat>, n: nat) {
    forall i :: 0 <= i < |plan| ==> plan[i] < n
  }

  /** How often the planned stickers, repeats included, hold letter c. */
  ghost function Supply(stickers: seq<Word>, plan: seq<nat>, c: Letter): nat
    requires Within(plan, |stickers|)
  {
    if plan == [] then 0 else Times(stickers[plan[0]], c) + Supply(stickers, plan[1..], c)
  }

  ghost predicate Covers(stickers: seq<Word>, plan: seq<nat>, target: Word) {
    && Within(plan, |stickers|)
    && forall c :: Times(target, c) <= Supply(stickers, plan, c)
  }

  ghost predicate Coverable(stickers: seq<Word>, target: Word, n: nat) {
    exists plan {:trigger Covers(stickers, plan, target)} :: |plan| == n && Covers(stickers, plan, target)
  }

  /** The least number of stickers, or none when no number of them spells the word. */
  ghost predicate IsLeast(stickers: seq<Word>, target: Word, best: Option<nat>) {
    && (best.Some? ==> Coverable(stickers, target, best.value))
    && forall n :: Coverable(stickers, target, n) ==> best.Some? && best.value <= n
  }

  /** What is left of a word after cutting a sticker, in any order. */
  ghost predicate IsRest(target: Word, sticker: Word, rest: Word) {
    forall c ::
      Times(rest, c) == if Times(target, c) > Times(sticker, c) then Times(target, c) - Times(sticker, c) else 0
  }

  lemma LeastIsUnique(stickers: seq<Word>, target: Word, x: Option<nat>, y: Option<nat>)
    requires IsLeast(stickers, target, x) && IsLeast(stickers, target, y)
    ensures x == y
  {
  }

  /** Words with the same letters need the same stickers. */
  lemma LeastOfAnagrams(stickers: seq<Word>, v: Word, w: Word, best: Option<nat>)
    requires multiset(v) == multiset(w) && IsLeast(stickers, v, best)
    ensures IsLeast(stickers, w, best)
  {
    assert forall plan :: Covers(stickers, plan, v) <==> Covers(stickers, plan, w);
    assert forall n :: Coverable(stickers, v, n) <==> Coverable(stickers, w, n);
  }

  lemma OneMoreSticker(stickers: seq<Word>, target: Word, i: nat, rest: Word, n: nat)
    requires i < |stickers| && IsRest(target, stickers[i], rest) && Coverable(stickers, rest, n)
    ensures Coverable(stickers, target, n + 1)
  {
    var plan :| |plan| == n && Covers(stickers, plan, rest);
    var more := [i] + plan;
    forall c ensures Times(target, c) <= Supply(stickers, more, c) {
      assert more[1..] == plan;
      assert Times(rest, c) <= Supply(stickers, plan, c);
    }
    assert Covers(stickers, more, target);
  }

  lemma {:induction false} SupplyWithout(stickers: seq<Word>, plan: seq<nat>, k: nat, c: Letter)
    requires k < |plan| && Within(plan, |stickers|)
    ensures Within(plan[..k] + plan[k + 1..], |stickers|)
    ensures Supply(stickers, plan, c) == Times(stickers[plan[k]], c) + Supply(stickers, plan[..k] + plan[k + 1..], c)
  {
    var less := plan[..k] + plan[k + 1..];
    if k == 0 {
      assert less == plan[1..];
    } else {
      SupplyWithout(stickers, plan[1..], k - 1, c);
      assert less[1..] == plan[1..][..k - 1] + plan[1..][k..];
    }
  }

  /** A planned sticker can be cut first. */
  lemma CutFirst(stickers: seq<Word>, target: Word, plan: seq<nat>, k: nat, rest: Word)
    requires Covers(stickers, plan, target) && k < |plan| && IsRest(target, stickers[plan[k]], rest)
    ensures Coverable(stickers, rest, |plan| - 1)
  {
    var less := plan[..k] + plan[k + 1..];
    forall c ensures Times(rest, c) <= Supply(stickers, less, c) {
      SupplyWithout(stickers, plan, k, c);
      assert Times(target, c) <= Supply(stickers, plan, c);
    }
    assert Covers(stickers, less, rest);
  }

  lemma {:induction false} SomeSupplies(stickers: seq<Word>, plan: seq<nat>, c: Letter) returns (k: nat)
    requires Within(plan, |stickers|) && Supply(stickers, plan, c) > 0
    ensures k < |plan| && Times(stickers[plan[k]], c) > 0
  {
    if Times(stickers[plan[0]], c) > 0 {
      k := 0;
    } else {
      k := SomeSupplies(stickers, plan[1..], c);
      k := k + 1;
    }
  }

  lemma RestIsNotLonger(target: Word, sticker: Word, rest: Word)
    requires IsRest(target, sticker, rest)
    ensures |rest| <= |target|
  {
    forall c: Letter ensures multiset(rest)[c] <= multiset(target)[c] {
      assert Times(rest, c) <= Times(target, c);
    }
    NotMore(rest, target);
  }

  lemma NotMore(v: Word, w: Word)
    requires forall c: Letter :: multiset(v)[c] <= multiset(w)[c]
    ensures |v| <= |w|
  {
    assert multiset(v) <= multiset(w);
    assert |multiset(w) - multiset(v)| == |multiset(w)| - |multiset(v)|;
  }

  /** Cutting a sticker that holds a missing letter shortens the word. */
  lemma RestIsShorter(target: Word, sticker: Word, rest: Word, c: Letter)
    requires IsRest(target, sticker, rest) && Times(sticker, c) > 0 && Times(target, c) > 0
    ensures |rest| < |target|
  {
    RestIsNotLonger(target, sticker, rest);
    assert Times(rest, c) < Times(target, c);
    if |rest| == |target| {
      forall d: Letter ensures multiset(rest)[d] <= multiset(target)[d] {
        assert Times(rest, d) <= Times(target, d);
      }
      Same(rest, target);
      assert false;
    }
  }

  lemma Same(v: Word, w: Word)
    requires |v| == |w| && forall c: Letter :: multiset(v)[c] <= multiset(w)[c]
    ensures multiset(v) == multiset(w)
  {
    var more := multiset(w) - multiset(v);
    assert multiset(v) <= multiset(w);
    assert |more| == 0;
    assert multiset(w) == multiset(v) + more;
  }

  // ----- what a loop over the stickers knows

  /** Everything below i that holds c has been tried: best is a bound on and, if some, a reachable rest. */
  ghost predicate Tried(stickers: seq<Word>, target: Word, c: Letter, i: nat, best: Option<nat>) {
    && i <= |stickers|
    && (best.Some? ==> Coverable(stickers, target, best.value + 1))
    && forall j {:trigger stickers[j]} :: 0 <= j < i && Times(stickers[j], c) > 0 ==>
        TriedOne(stickers, target, j, best)
  }

  ghost predicate TriedOne(stickers: seq<Word>, target: Word, j: nat, best: Option<nat>)
    requires j < |stickers|
  {
    forall rest, n {:trigger Coverable(stickers, rest, n), IsRest(target, stickers[j], rest)} ::
      IsRest(target, stickers[j], rest) && Coverable(stickers, rest, n) ==> best.Some? && best.value <= n
  }

  function AddOne(x: Option<nat>): Option<nat> {
    if x.None? then None else Some(x.value + 1)
  }

  lemma Skip(stickers: seq<Word>, target: Word, c: Letter, i: nat, best: Option<nat>)
    requires Tried(stickers, target, c, i, best) && i < |stickers| && Times(stickers[i], c) == 0
    ensures Tried(stickers, target, c, i + 1, best)
  {
  }

  lemma SameRest(target: Word, sticker: Word, v: Word, w: Word)
    requires IsRest(target, sticker, v) && IsRest(target, sticker, w)
    ensures multiset(v) == multiset(w)
  {
    forall c: Letter ensures multiset(v)[c] == multiset(w)[c] {
      assert Times(v, c) == Times(w, c);
    }
  }

  lemma TryOne(stickers: seq<Word>, target: Word, j: nat, rest: Word, found: Option<nat>)
    requires j < |stickers| && IsRest(target, stickers[j], rest) && IsLeast(stickers, rest, found)
    ensures TriedOne(stickers, target, j, found)
    ensures found.Some? ==> Coverable(stickers, target, found.value + 1)
  {
    forall other, n | IsRest(target, stickers[j], other) && Coverable(stickers, other, n)
      ensures found.Some? && found.value <= n
    {
      SameRest(target, stickers[j], other, rest);
      LeastOfAnagrams(stickers, rest, other, found);
    }
    if found.Some? {
      OneMoreSticker(stickers, target, j, rest, found.value);
    }
  }

  lemma TryNext(stickers: seq<Word>, target: Word, c: Letter, i: nat, best: Option<nat>, rest: Word, found: Option<nat>)
    requires Tried(stickers, target, c, i, best)
    requires i < |stickers| && IsRest(target, stickers[i], rest) && IsLeast(stickers, rest, found)
    ensures Tried(stickers, target, c, i + 1, Least(best, found))
  {
    TryOne(stickers, target, i, rest, found);
    hide IsRest, Coverable, IsLeast;
  }

  /** Trying every sticker that holds one given missing letter is enough. */
  lemma OneLetterSuffices(stickers: seq<Word>, target: Word, c: Letter, best: Option<nat>)
    requires Times(target, c) > 0 && Tried(stickers, target, c, |stickers|, best)
    ensures IsLeast(stickers, target, AddOne(best))
  {
    forall n | Coverable(stickers, target, n) ensures best.Some? && best.value + 1 <= n {
      var plan :| |plan| == n && Covers(stickers, plan, target);
      assert Times(target, c) <= Supply(stickers, plan, c);
      var k := SomeSupplies(stickers, plan, c);
      var rest := RestExists(target, stickers[plan[k]], LetterAt(25));
      CutFirst(stickers, target, plan, k, rest);
      assert TriedOne(stickers, target, plan[k], best);
    }
  }

  /** Some word is the rest, with letters up to c taken care of. */
  lemma {:induction false} RestUpTo(target: Word, sticker: Word, n: nat) returns (rest: Word)
    requires n <= 26
    ensures forall c :: Times(rest, c) == if Index(c) < n && Times(target, c) > Times(sticker, c)
                                          then Times(target, c) - Times(sticker, c) else 0
    decreases n
  {
    if n == 0 {
      rest := [];
    } else {
      var before := RestUpTo(target, sticker, n - 1);
      var d := LetterAt(n - 1);
      var many := if Times(target, d) > Times(sticker, d) then Times(target, d) - Times(sticker, d) else 0;
      rest := before + Copies(d, many);
      forall c ensures Times(rest, c) == Times(before, c) + if c == d then many else 0 {
        CopiesTimes(d, many, c);
      }
    }
  }

  lemma RestExists(target: Word, sticker: Word, last: Letter) returns (rest: Word)
    requires Index(last) == 25
    ensures IsRest(target, sticker, rest)
  {
    rest := RestUpTo(target, sticker, 26);
  }

  ghost function Copies(c: Letter, n: nat): (w: Word)
    ensures |w| == n
  {
    if n == 0 then [] else Copies(c, n - 1) + [c]
  }

  lemma {:induction false} CopiesTimes(d: Letter, n: nat, c: Letter)
    ensures Times(Copies(d, n), c) == if c == d then n else 0
  {
    if n > 0 {
      CopiesTimes(d, n - 1, c);
    }
  }

  // ----- counting letters and spelling words

  ghost predicate IsTable(counts: seq<int>, w: Word) {
    |counts| == 26 && forall c :: counts[Index(c)] == Times(w, c)
  }

  method CountLetters(w: Word) returns (counts: array<int>)
    ensures fresh(counts) && IsTable(counts[..], w)
  {
    counts := new int[26](_ => 0);
    for i := 0 to |w|
      invariant IsTable(counts[..], w[..i])
    {
      assert w[..i + 1] == w[..i] + [w[i]];
      counts[Index(w[i])] := counts[Index(w[i])] + 1;
    }
    assert w[..|w|] == w;
  }

  /** In the order of the alphabet, as the programs spell every rest. */
  ghost predicate Alphabetical(w: Word) {
    forall i, j :: 0 <= i < j < |w| ==> w[i] <= w[j]
  }

  /** So cutting a sticker has one outcome. */
  lemma {:induction false} AlphabeticalIsUnique(v: Word, w: Word)
    requires multiset(v) == multiset(w) && Alphabetical(v) && Alphabetical(w)
    ensures v == w
    decreases |v|
  {
    hide Alphabetical;
    assert |v| == |multiset(v)| == |multiset(w)| == |w|;
    if v != [] {
      var n := |v| - 1;
      LastsAgree(v, w);
      WithoutLast(v);
      WithoutLast(w);
      AlphabeticalIsUnique(v[..n], w[..n]);
      assert v == v[..n] + [v[n]] && w == w[..n] + [w[n]];
    }
  }

  lemma LastsAgree(v: Word, w: Word)
    requires multiset(v) == multiset(w) && v != [] && w != [] && Alphabetical(v) && Alphabetical(w)
    ensures v[|v| - 1] == w[|w| - 1]
  {
    hide Alphabetical;
    var c, d := v[|v| - 1], w[|w| - 1];
    assert c in multiset(w) && d in multiset(v);
    LastIsGreatest(v, d);
    LastIsGreatest(w, c);
  }

  lemma LastIsGreatest(w: Word, c: Letter)
    requires Alphabetical(w) && c in w
    ensures Index(c) <= Index(w[|w| - 1])
  {
    var k :| 0 <= k < |w| && w[k] == c;
  }

  lemma WithoutLast(w: Word)
    requires w != []
    ensures multiset(w[..|w| - 1]) == multiset(w) - multiset{w[|w| - 1]}
    ensures Alphabetical(w) ==> Alphabetical(w[..|w| - 1])
  {
    assert w == w[..|w| - 1] + [w[|w| - 1]];
  }

  lemma RestIsUnique(target: Word, sticker: Word, v: Word, w: Word)
    requires IsRest(target, sticker, v) && IsRest(target, sticker, w) && Alphabetical(v) && Alphabetical(w)
    ensures v == w
  {
    SameRest(target, sticker, v, w);
    AlphabeticalIsUnique(v, w);
  }

  /** What is left to spell: need[j] copies of the j-th letter, none where need is negative. */
  ghost predicate Spells(w: Word, need: seq<int>, n: nat) {
    && n <= 26 == |need| && Alphabetical(w) && (forall i :: 0 <= i < |w| ==> Index(w[i]) < n)
    && forall c :: Times(w, c) == if Index(c) < n && need[Index(c)] > 0 then need[Index(c)] else 0
  }

  lemma {:induction false} CopiesAre(d: Letter, n: nat)
    ensures forall i :: 0 <= i < n ==> Copies(d, n)[i] == d
  {
    if n > 0 {
      CopiesAre(d, n - 1);
    }
  }

  lemma AppendInOrder(w: Word, d: Letter, many: nat)
    requires Alphabetical(w) && forall i :: 0 <= i < |w| ==> Index(w[i]) < Index(d)
    ensures Alphabetical(w + Copies(d, many))
    ensures forall i :: 0 <= i < |w| + many ==> Index((w + Copies(d, many))[i]) <= Index(d)
  {
    CopiesAre(d, many);
  }

  lemma SpellNext(w: Word, need: seq<int>, n: nat, many: nat)
    requires n < 26 && Spells(w, need, n) && many == (if need[n] > 0 then need[n] else 0)
    ensures Spells(w + Copies(LetterAt(n), many), need, n + 1)
  {
    forall c ensures Times(w + Copies(LetterAt(n), many), c) == Times(w, c) + if c == LetterAt(n) then many else 0 {
      CopiesTimes(LetterAt(n), many, c);
    }
    AppendInOrder(w, LetterAt(n), many);
  }

  /** The innermost loop of every version. */
  method AppendCopies(w: Word, c: Letter, nums: int) returns (longer: Word)
    ensures longer == w + Copies(c, if nums > 0 then nums else 0)
  {
    longer := w;
    var k := 0;
    while k < nums
      invariant 0 <= k && (nums > 0 ==> k <= nums) && (nums <= 0 ==> k == 0)
      invariant longer == w + Copies(c, k)
    {
      longer := longer + [c];
      k := k + 1;
    }
  }

  method Minus(target: Word, sticker: Word) returns (rest: Word)
    ensures IsRest(target, sticker, rest) && Alphabetical(rest)
  {
    var counts := CountLetters(target);
    for i := 0 to |sticker|
      invariant counts.Length == 26
      invariant forall c :: counts[..][Index(c)] == Times(target, c) - Times(sticker[..i], c)
    {
      assert sticker[..i + 1] == sticker[..i] + [sticker[i]];
      counts[Index(sticker[i])] := counts[Index(sticker[i])] - 1;
    }
    assert sticker[..|sticker|] == sticker;
    ghost var need := counts[..];
    rest := [];
    for i := 0 to 26
      invariant counts[..] == need && |need| == 26 && Spells(rest, need, i)
    {
      if counts[i] > 0 {
        SpellNext(rest, need, i, counts[i]);
        rest := AppendCopies(rest, LetterAt(i), counts[i]);
      } else {
        SpellNext(rest, need, i, 0);
        assert rest + Copies(LetterAt(i), 0) == rest;
      }
    }
  }

  /** The same from letter tables, visiting only letters the word has. */
  method Reset(targetCounts: array<int>, sticker: seq<int>, ghost target: Word, ghost cut: Word) returns (rest: Word)
    requires IsTable(targetCounts[..], target) && IsTable(sticker, cut)
    ensures IsRest(target, cut, rest) && Alphabetical(rest)
  {
    ghost var need := seq(26, i requires 0 <= i < 26 => Times(target, LetterAt(i)) - Times(cut, LetterAt(i)));
    rest := [];
    for j := 0 to 26
      invariant Spells(rest, need, j)
    {
      ghost var c := LetterAt(j);
      assert targetCounts[..][Index(c)] == Times(target, c) && sticker[Index(c)] == Times(cut, c);
      if targetCounts[j] > 0 {
        var nums := targetCounts[j] - sticker[j];
        SpellNext(rest, need, j, if nums > 0 then nums else 0);
        rest := AppendCopies(rest, LetterAt(j), nums);
      } else {
        SpellNext(rest, need, j, 0);
        assert rest + Copies(c, 0) == rest;
      }
    }
    forall c ensures need[Index(c)] == Times(target, c) - Times(cut, c) {
      assert LetterAt(Index(c)) == c;
    }
  }

  // ----- the three searches

  /** Tries every sticker that is of any use. */
  method Process(stickers: seq<Word>, target: Word) returns (best: Option<nat>)
    ensures IsLeast(stickers, target, best)
    decreases |target|
  {
    if target == [] {
      NothingMissing(stickers);
      return Some(0);
    }
    hide *;
    var min: Option<nat> := None;
    ghost var c := FirstLetter(target);
    StartTrying(stickers, target, c);
    for i := 0 to |stickers|
      invariant Tried(stickers, target, c, i, min)
    {
      var rest := Minus(target, stickers[i]);
      RestIsNotLonger(target, stickers[i], rest);
      if |rest| == |target| {
        Useless(stickers, target, c, i, min, rest);
      } else {
        var found := Process(stickers, rest);
        TryNext(stickers, target, c, i, min, rest, found);
        min := Least(min, found);
      }
    }
    OneLetterSuffices(stickers, target, c, min);
    best := AddOne(min);
  }

  lemma NothingMissing(stickers: seq<Word>)
    ensures IsLeast(stickers, [], Some(0))
  {
    assert Covers(stickers, [], []);
  }

  lemma FirstLetter(target: Word) returns (c: Letter)
    requires target != []
    ensures c == target[0] && Times(target, c) > 0
  {
    c := target[0];
  }

  lemma StartTrying(stickers: seq<Word>, target: Word, c: Letter)
    ensures Tried(stickers, target, c, 0, None)
  {
  }

  lemma Useless(stickers: seq<Word>, target: Word, c: Letter, i: nat, best: Option<nat>, rest: Word)
    requires Tried(stickers, target, c, i, best) && Times(target, c) > 0
    requires i < |stickers| && IsRest(target, stickers[i], rest) && |rest| == |target|
    ensures Tried(stickers, target, c, i + 1, best)
  {
    if Times(stickers[i], c) > 0 {
      RestIsShorter(target, stickers[i], rest, c);
    }
  }

  method MinStickers(stickers: seq<Word>, target: Word) returns (ans: int)
    ensures stickers == [] || target == [] ==> ans == 0
    ensures IsAnswer(stickers, target, ans) <==> stickers != [] || target == []
  {
    if |stickers| < 1 || target == [] {
      EmptyCases(stickers, target);
      return 0;
    }
    var best := Process(stickers, target);
    ans := if best.None? then -1 else best.value;
  }

  /** What the callers are told: the least number, or -1. */
  ghost predicate IsAnswer(stickers: seq<Word>, target: Word, ans: int) {
    ans >= -1 && IsLeast(stickers, target, if ans == -1 then None else Some(ans))
  }

  lemma EmptyCases(stickers: seq<Word>, target: Word)
    ensures target == [] ==> IsAnswer(stickers, target, 0)
    ensures stickers == [] && target != [] ==> !IsAnswer(stickers, target, 0)
  {
    NothingMissing(stickers);
    if stickers == [] && target != [] {
      var c := FirstLetter(target);
      assert !Covers(stickers, [], target) by {
        assert Supply(stickers, [], c) == 0;
      }
    }
  }

  ghost predicate AreTables(counts: seq<seq<int>>, stickers: seq<Word>) {
    |counts| == |stickers| && forall i :: 0 <= i < |stickers| ==> IsTable(counts[i], stickers[i])
  }

  method CountStickers(stickers: seq<Word>) returns (counts: seq<seq<int>>)
    ensures AreTables(counts, stickers)
  {
    counts := [];
    for i := 0 to |stickers|
      invariant AreTables(counts, stickers[..i])
    {
      var table := CountLetters(stickers[i]);
      counts := counts + [table[..]];
    }
  }

  lemma TableOf(counts: seq<seq<int>>, stickers: seq<Word>, i: nat, c: Letter)
    requires AreTables(counts, stickers) && i < |stickers|
    ensures |counts| == |stickers| && IsTable(counts[i], stickers[i]) && |counts[i]| == 26
    ensures counts[i][Index(c)] == Times(stickers[i], c)
  {
  }

  /** Tries only the stickers that hold the first missing letter. */
  method Process1(counts: seq<seq<int>>, target: Word, ghost stickers: seq<Word>) returns (best: Option<nat>)
    requires AreTables(counts, stickers)
    ensures IsLeast(stickers, target, best)
    decreases |target|
  {
    if target == [] {
      NothingMissing(stickers);
      return Some(0);
    }
    assert |counts| == |stickers|;
    hide *;
    var targetCounts := CountLetters(target);
    var min: Option<nat> := None;
    var first := target[0];
    assert Times(target, first) > 0 by { var _ := FirstLetter(target); }
    StartTrying(stickers, target, first);
    for i := 0 to |counts|
      invariant Tried(stickers, target, first, i, min) && IsTable(targetCounts[..], target)
    {
      TableOf(counts, stickers, i, first);
      if counts[i][Index(first)] > 0 {
        var rest := Reset(targetCounts, counts[i], target, stickers[i]);
        RestIsShorter(target, stickers[i], rest, first);
        var found := Process1(counts, rest, stickers);
        TryNext(stickers, target, first, i, min, rest, found);
        min := Least(min, found);
      } else {
        Skip(stickers, target, first, i, min);
      }
    }
    OneLetterSuffices(stickers, target, first, min);
    best := AddOne(min);
  }

  method MinStickers1(stickers: seq<Word>, target: Word) returns (ans: int)
    ensures IsAnswer(stickers, target, ans)
  {
    var counts := CountStickers(stickers);
    var best := Process1(counts, target, stickers);
    ans := if best.None? then -1 else best.value;
  }

  /** Words already solved. */
  class Cache {
    var best: map<Word, Option<nat>>

    constructor ()
      ensures best == map[[] := Some(0)]
    {
      best := map[[] := Some(0)];
    }

    ghost predicate Valid(stickers: seq<Word>)
      reads this
    {
      forall w :: w in best ==> IsLeast(stickers, w, best[w])
    }
  }

  /** The same search, looking words up before solving them and storing every answer. */
  method Process2(counts: seq<seq<int>>, target: Word, cache: Cache, ghost stickers: seq<Word>)
      returns (best: Option<nat>)
    requires AreTables(counts, stickers) && cache.Valid(stickers)
    modifies cache
    ensures IsLeast(stickers, target, best) && cache.Valid(stickers)
    ensures old(cache.best.Keys) + {target} <= cache.best.Keys + {[]}
    decreases |target|
  {
    if target in cache.best {
      return cache.best[target];
    }
    if target == [] {
      NothingMissing(stickers);
      return Some(0);
    }
    assert |counts| == |stickers|;
    ghost var keys := cache.best.Keys;
    hide *;
    var targetCounts := CountLetters(target);
    var min: Option<nat> := None;
    var first := target[0];
    assert Times(target, first) > 0 by { var _ := FirstLetter(target); }
    StartTrying(stickers, target, first);
    for i := 0 to |counts|
      invariant Tried(stickers, target, first, i, min) && IsTable(targetCounts[..], target)
      invariant cache.Valid(stickers) && keys <= cache.best.Keys + {[]}
    {
      TableOf(counts, stickers, i, first);
      if counts[i][Index(first)] > 0 {
        var rest := Reset(targetCounts, counts[i], target, stickers[i]);
        RestIsShorter(target, stickers[i], rest, first);
        var found := Process2(counts, rest, cache, stickers);
        TryNext(stickers, target, first, i, min, rest, found);
        min := Least(min, found);
      } else {
        Skip(stickers, target, first, i, min);
      }
    }
    OneLetterSuffices(stickers, target, first, min);
    best := AddOne(min);
    Remember(cache, target, best, stickers);
  }

  method Remember(cache: Cache, target: Word, best: Option<nat>, ghost stickers: seq<Word>)
    requires cache.Valid(stickers) && IsLeast(stickers, target, best)
    modifies cache
    ensures cache.Valid(stickers) && cache.best == old(cache.best)[target := best]
  {
    cache.best := cache.best[target := best];
  }

  method MinStickers2(stickers: seq<Word>, target: Word) returns (ans: int)
    ensures IsAnswer(stickers, target, ans)
  {
    var counts := CountStickers(stickers);
    var cache := new Cache();
    NothingMissing(stickers);
    var best := Process2(counts, target, cache, stickers);
    ans := if best.None? then -1 else best.value;
  }

  /** The three searches can only agree. */
  lemma AnswerIsUnique(stickers: seq<Word>, target: Word, x: int, y: int)
    requires IsAnswer(stickers, target, x) && IsAnswer(stickers, target, y)
    ensures x == y
  {
    LeastIsUnique(stickers, target, if x == -1 then None else Some(x), if y == -1 then None else Some(y));
  }
}
