/**
 Knuth-Morris-Pratt search with an exact failure table, rotations by searching the doubled
 text, and subtree tests by searching null-marked preorder tokens.
*/
module Matching {
  import opened Wrappers

  // ----- borders

  /** The first k and the last k of the first n elements agree. */
  ghost predicate IsBorder<T>(s: seq<T>, n: int, k: int) {
    0 <= k < n <= |s| && s[..k] == s[n - k..n]
  }

  /** The failure table's entry: the longest border of the first i elements, -1 at the start. */
  ghost predicate IsNext<T>(s: seq<T>, i: int, k: int) {
    if i == 0 then k == -1
    else IsBorder(s, i, k) && forall j :: k < j < i ==> !IsBorder(s, i, j)
  }

  lemma ShorterBorder<T>(s: seq<T>, n: int, k: int)
    requires IsBorder(s, n, k) && k >= 1
    ensures IsBorder(s, n - 1, k - 1) && s[k - 1] == s[n - 1]
  {
    assert s[..k][k - 1] == s[n - k..n][k - 1];
    assert s[..k - 1] == s[..k][..k - 1] && s[n - k..n - 1] == s[n - k..n][..k - 1];
  }

  lemma LongerBorder<T>(s: seq<T>, n: int, k: int)
    requires IsBorder(s, n, k) && n < |s| && s[n] == s[k]
    ensures IsBorder(s, n + 1, k + 1)
  {
    assert s[..k + 1] == s[..k] + [s[k]] && s[n - k..n + 1] == s[n - k..n] + [s[n]];
  }

  /** Two borders of one prefix nest. */
  lemma NestedBorder<T>(s: seq<T>, n: int, b: int, a: int)
    requires IsBorder(s, n, b) && 0 <= a < b
    ensures IsBorder(s, n, a) <==> IsBorder(s, b, a)
  {
    assert s[b - a..b] == s[..b][b - a..] && s[n - a..n] == s[n - b..n][b - a..];
  }

  // ----- the failure table

  /** n is the border of the first i - 1 elements being tried; everything longer has failed. */
  ghost predicate Trying<T>(s: seq<T>, i: int, n: int) {
    && 2 <= i <= |s| && IsBorder(s, i - 1, n)
    && forall j :: n + 1 < j < i ==> !IsBorder(s, i, j)
  }

  lemma TryMatches<T>(s: seq<T>, i: int, n: int)
    requires Trying(s, i, n) && s[i - 1] == s[n]
    ensures IsNext(s, i, n + 1) && (i < |s| ==> Trying(s, i + 1, n + 1))
  {
    LongerBorder(s, i - 1, n);
    var m := i + 1;
    forall j | n + 2 < j < m ensures !IsBorder(s, m, j) {
      if IsBorder(s, m, j) {
        ShorterBorder(s, m, j);
      }
    }
  }

  lemma TryFallsBack<T>(s: seq<T>, i: int, n: int, k: int)
    requires Trying(s, i, n) && s[i - 1] != s[n] && n > 0 && IsNext(s, n, k)
    ensures Trying(s, i, k)
  {
    NestedBorder(s, i - 1, n, k);
    forall j | k + 1 < j < i ensures !IsBorder(s, i, j) {
      if IsBorder(s, i, j) {
        ShorterBorder(s, i, j);
        if j - 1 < n {
          NestedBorder(s, i - 1, n, j - 1);
        }
      }
    }
  }

  lemma TryFails<T>(s: seq<T>, i: int)
    requires Trying(s, i, 0) && s[i - 1] != s[0]
    ensures IsNext(s, i, 0) && (i < |s| ==> Trying(s, i + 1, 0))
  {
    forall j | 0 < j < i ensures !IsBorder(s, i, j) {
      if IsBorder(s, i, j) {
        ShorterBorder(s, i, j);
      }
    }
    var m := i + 1;
    forall j | 1 < j < m ensures !IsBorder(s, m, j) {
      if IsBorder(s, m, j) {
        ShorterBorder(s, m, j);
      }
    }
  }

  lemma FirstEntries<T>(s: seq<T>)
    requires |s| > 1
    ensures IsNext(s, 1, 0) && (|s| > 2 ==> Trying(s, 2, 0))
  {
  }

  method GetNextArray<T(==)>(str: seq<T>) returns (next: array<int>)
    requires |str| > 0
    ensures fresh(next) && next.Length == |str| && forall i :: 0 <= i < |str| ==> IsNext(str, i, next[i])
  {
    if |str| == 1 {
      next := new int[1][-1];
      return;
    }
    next := new int[|str|];
    next[0], next[1] := -1, 0;
    FirstEntries(str);
    hide IsNext, Trying, IsBorder;
    var i, n := 2, 0;
    EntryAtStart(str);
    while i < |str|
      invariant 2 <= i <= |str| && 0 <= n < i - 1 && forall j :: 0 <= j < i ==> IsNext(str, j, next[j])
      invariant i < |str| ==> Trying(str, i, n)
      decreases 2 * (|str| - i) + n
    {
      if str[i - 1] == str[n] {
        TryMatches(str, i, n);
        n := n + 1;
        next[i] := n;
        i := i + 1;
      } else if n > 0 {
        TryFallsBack(str, i, n, next[n]);
        EntryInRange(str, n, next[n]);
        n := next[n];
      } else {
        TryFails(str, i);
        next[i] := 0;
        i := i + 1;
      }
    }
  }

  lemma EntryAtStart<T>(s: seq<T>)
    ensures IsNext(s, 0, -1)
  {
  }

  lemma EntryInRange<T>(s: seq<T>, i: int, k: int)
    requires IsNext(s, i, k)
    ensures -1 <= k < i && (k == -1 <==> i == 0)
  {
  }

  // ----- the search

  ghost predicate OccursAt<T>(a: seq<T>, b: seq<T>, i: int) {
    0 <= i && i + |b| <= |a| && a[i..i + |b|] == b
  }

  ghost predicate IsFirstOccurrence<T>(a: seq<T>, b: seq<T>, r: int) {
    if r == -1 then forall i :: !OccursAt(a, b, i)
    else OccursAt(a, b, r) && forall i :: i < r ==> !OccursAt(a, b, i)
  }

  /** The search at position x with y matched: nothing starting earlier can occur. */
  ghost predicate Searching<T>(a: seq<T>, b: seq<T>, x: int, y: int) {
    && 0 <= y <= |b| && y <= x <= |a| && a[x - y..x] == b[..y]
    && forall i :: i < x - y ==> !OccursAt(a, b, i)
  }

  lemma SearchMatches<T>(a: seq<T>, b: seq<T>, x: int, y: int)
    requires Searching(a, b, x, y) && x < |a| && y < |b| && a[x] == b[y]
    ensures Searching(a, b, x + 1, y + 1)
  {
    assert a[x - y..x + 1] == a[x - y..x] + [a[x]] && b[..y + 1] == b[..y] + [b[y]];
  }

  lemma MismatchHere<T>(a: seq<T>, b: seq<T>, x: int, y: int)
    requires x < |a| && 0 <= y < |b| && y <= x && a[x] != b[y]
    ensures !OccursAt(a, b, x - y)
  {
    if x - y + |b| <= |a| {
      assert a[x - y..x - y + |b|][y] == a[x];
    }
  }

  lemma SearchSkips<T>(a: seq<T>, b: seq<T>, x: int)
    requires Searching(a, b, x, 0) && x < |a| && |b| > 0 && a[x] != b[0]
    ensures Searching(a, b, x + 1, 0)
  {
    MismatchHere(a, b, x, 0);
  }

  /** An occurrence overlapping what is matched is a border of it. */
  lemma OverlapIsBorder<T>(a: seq<T>, b: seq<T>, x: int, y: int, i: int)
    requires Searching(a, b, x, y) && y < |b| && x - y < i < x && OccursAt(a, b, i)
    ensures IsBorder(b, y, x - i)
  {
    var k := x - i;
    assert a[i..x] == a[i..i + |b|][..k] == b[..k];
    assert a[i..x] == a[x - y..x][y - k..] == b[..y][y - k..];
    assert b[..y][y - k..] == b[y - k..y];
  }

  lemma SearchFallsBack<T>(a: seq<T>, b: seq<T>, x: int, y: int, k: int)
    requires Searching(a, b, x, y) && x < |a| && 0 < y < |b| && a[x] != b[y] && IsNext(b, y, k)
    ensures Searching(a, b, x, k)
  {
    assert a[x - k..x] == a[x - y..x][y - k..] == b[..y][y - k..] == b[y - k..y];
    forall i | i < x - k ensures !OccursAt(a, b, i) {
      if OccursAt(a, b, i) {
        MismatchHere(a, b, x, y);
        OverlapIsBorder(a, b, x, y, i);
      }
    }
  }

  lemma SearchEnds<T>(a: seq<T>, b: seq<T>, x: int, y: int)
    requires Searching(a, b, x, y) && (x == |a| || y == |b|)
    ensures IsFirstOccurrence(a, b, if y == |b| then x - y else -1)
  {
    if y == |b| {
      assert OccursAt(a, b, x - y);
    }
  }

  /** The first occurrence of a non-empty pattern, or -1. */
  method Search<T(==)>(str1: seq<T>, str2: seq<T>) returns (r: int)
    requires |str2| > 0
    ensures IsFirstOccurrence(str1, str2, r) && r >= -1
  {
    var x, y := 0, 0;
    var next := GetNextArray(str2);
    assert Searching(str1, str2, 0, 0);
    hide IsNext, OccursAt, IsFirstOccurrence;
    while x < |str1| && y < |str2|
      invariant Searching(str1, str2, x, y)
      invariant forall j :: 0 <= j < |str2| ==> IsNext(str2, j, next[j])
      decreases 2 * (|str1| - x) + y
    {
      EntryInRange(str2, y, next[y]);
      if str1[x] == str2[y] {
        SearchMatches(str1, str2, x, y);
        x, y := x + 1, y + 1;
      } else if next[y] == -1 {
        SearchSkips(str1, str2, x);
        x := x + 1;
      } else {
        SearchFallsBack(str1, str2, x, y, next[y]);
        y := next[y];
      }
    }
    SearchEnds(str1, str2, x, y);
    r := if y == |str2| then x - y else -1;
  }

  /** An empty pattern is reported absent, a longer one is. */
  method GetIndexOf(a: string, b: string) returns (r: int)
    ensures b != "" ==> IsFirstOccurrence(a, b, r)
    ensures b == "" ==> r == -1
    ensures r >= -1
  {
    if |b| < 1 || |a| < |b| {
      return -1;
    }
    r := Search(a, b);
  }

  // ----- rotations

  ghost predicate IsRotationOf(s: string, t: string) {
    exists k :: 0 <= k <= |s| && t == s[k..] + s[..k]
  }

  lemma RotationOccurs(s: string, t: string, k: int)
    requires |s| == |t|
    ensures 0 <= k <= |s| ==> (OccursAt(s + s, t, k) <==> t == s[k..] + s[..k])
  {
    if 0 <= k <= |s| {
      assert (s + s)[k..k + |s|] == s[k..] + s[..k];
    }
  }

  /** Tells rotations from other strings, except that it denies that "" is a rotation of "". */
  method IsRotation(str1: string, str2: string) returns (b: bool)
    ensures b <==> IsRotationOf(str1, str2) && str1 != ""
  {
    if |str1| != |str2| {
      return false;
    }
    var index := GetIndexOf(str1 + str1, str2);
    forall k {
      RotationOccurs(str1, str2, k);
    }
    b := index != -1;
  }

  // ----- trees

  datatype Tree = Null | Node(value: int, left: Tree, right: Tree)

  function ContainsTree1(big: Tree, small: Tree): bool {
    if small.Null? then true
    else if big.Null? then false
    else IsSameValueStructure(big, small) || ContainsTree1(big.left, small) || ContainsTree1(big.right, small)
  }

  function IsSameValueStructure(head1: Tree, head2: Tree): (same: bool)
    ensures same <==> head1 == head2
  {
    if head1.Null? || head2.Null? then head1.Null? && head2.Null?
    else head1.value == head2.value && IsSameValueStructure(head1.left, head2.left)
         && IsSameValueStructure(head1.right, head2.right)
  }

  /** What is reached from t by going left (true) or right (false). */
  ghost function Follow(t: Tree, path: seq<bool>): Option<Tree> {
    if path == [] then Some(t)
    else if t.Null? then None
    else Follow(if path[0] then t.left else t.right, path[1..])
  }

  /** small is what hangs below some point of t, the null tree included. */
  ghost predicate IsSubtree(small: Tree, t: Tree) {
    exists path :: Follow(t, path) == Some(small)
  }

  lemma Descend(t: Tree, left: bool, path: seq<bool>)
    requires t.Node?
    ensures Follow(t, [left] + path) == Follow(if left then t.left else t.right, path)
  {
    assert ([left] + path)[1..] == path;
  }

  lemma SubtreeStep(small: Tree, t: Tree)
    ensures IsSubtree(small, t) <==> t == small || (t.Node? && (IsSubtree(small, t.left) || IsSubtree(small, t.right)))
  {
    if IsSubtree(small, t) {
      var path :| Follow(t, path) == Some(small);
      if path != [] {
        assert Follow(if path[0] then t.left else t.right, path[1..]) == Some(small);
      }
    }
    if t == small {
      assert Follow(t, []) == Some(small);
    }
    if t.Node? && IsSubtree(small, t.left) {
      var path :| Follow(t.left, path) == Some(small);
      Descend(t, true, path);
    }
    if t.Node? && IsSubtree(small, t.right) {
      var path :| Follow(t.right, path) == Some(small);
      Descend(t, false, path);
    }
  }

  /** The recursive test finds exactly the subtrees; the null tree is one of every tree. */
  lemma {:induction false} ContainsIffSubtree(big: Tree, small: Tree)
    ensures ContainsTree1(big, small) <==> IsSubtree(small, big)
    decreases big
  {
    hide IsSubtree;
    SubtreeStep(small, big);
    if big.Node? {
      ContainsIffSubtree(big.left, small);
      ContainsIffSubtree(big.right, small);
    }
  }

  /** A token is a value's numeral, or the null marker. */
  type Token = Option<int>

  ghost function Tokens(t: Tree): (r: seq<Token>)
    ensures |r| > 0
  {
    match t
    case Null => [None]
    case Node(v, l, r) => [Some(v)] + Tokens(l) + Tokens(r)
  }

  method Pre(node: Tree, list: seq<Token>) returns (longer: seq<Token>)
    ensures longer == list + Tokens(node)
  {
    match node
    case Null => longer := list + [None];
    case Node(v, l, r) =>
      longer := list + [Some(v)];
      longer := Pre(l, longer);
      longer := Pre(r, longer);
  }

  /** Tokens determine the tree, and where it ends. */
  lemma {:induction false} TokensDecode(a: Tree, x: seq<Token>, b: Tree, y: seq<Token>)
    requires Tokens(a) + x == Tokens(b) + y
    ensures a == b && x == y
    decreases a
  {
    ChildTokens(a, x);
    ChildTokens(b, y);
    hide Tokens;
    var s := Tokens(a) + x;
    assert s[0] == Tokens(a)[0] == Tokens(b)[0];
    if a.Null? {
      assert x == s[1..] == y;
    } else {
      assert s[1..] == Tokens(a.left) + (Tokens(a.right) + x);
      assert s[1..] == Tokens(b.left) + (Tokens(b.right) + y);
      TokensDecode(a.left, Tokens(a.right) + x, b.left, Tokens(b.right) + y);
      TokensDecode(a.right, x, b.right, y);
    }
  }

  /** Wherever a tree's tokens occur in another's, that very subtree starts there. */
  lemma {:induction false} OccurrenceIsSubtree(t: Tree, w: seq<Token>, small: Tree, i: int)
    requires small.Node? && i < |Tokens(t)| && OccursAt(Tokens(t) + w, Tokens(small), i)
    ensures ContainsTree1(t, small)
    decreases t
  {
    var s := Tokens(t) + w;
    if i == 0 {
      assert s == Tokens(small) + s[|Tokens(small)|..];
      TokensDecode(t, w, small, s[|Tokens(small)|..]);
    } else {
      ChildTokens(t, w);
      var l, r := Tokens(t.left), Tokens(t.right) + w;
      hide Tokens;
      if i - 1 < |l| {
        OccursFurtherOn(s, [Tokens(t)[0]], l + r, Tokens(small), i);
        OccurrenceIsSubtree(t.left, r, small, i - 1);
      } else {
        OccursFurtherOn(s, [Tokens(t)[0]] + l, r, Tokens(small), i);
        OccurrenceIsSubtree(t.right, w, small, i - 1 - |l|);
      }
    }
  }

  lemma TokensStep(t: Tree)
    ensures t.Null? ==> Tokens(t) == [None]
    ensures t.Node? ==> Tokens(t) == [Some(t.value)] + Tokens(t.left) + Tokens(t.right)
  {
  }

  lemma Regroup<T>(h: seq<T>, l: seq<T>, r: seq<T>, w: seq<T>)
    ensures (h + l + r) + w == h + (l + (r + w))
    ensures (h + l + r) + w == (h + l) + (r + w)
  {
  }

  lemma ChildTokens(t: Tree, w: seq<Token>)
    ensures Tokens(t)[0] == (if t.Null? then None else Some(t.value))
    ensures t.Null? ==> |Tokens(t)| == 1
    ensures t.Node? ==> Tokens(t) + w == [Tokens(t)[0]] + (Tokens(t.left) + (Tokens(t.right) + w))
    ensures t.Node? ==> Tokens(t) + w == [Tokens(t)[0]] + Tokens(t.left) + (Tokens(t.right) + w)
    ensures t.Node? ==> |Tokens(t)| == 1 + |Tokens(t.left)| + |Tokens(t.right)|
  {
    TokensStep(t);
    hide Tokens;
    if t.Node? {
      Regroup([Some(t.value)], Tokens(t.left), Tokens(t.right), w);
    }
  }

  lemma OccursFurtherOn<T>(s: seq<T>, before: seq<T>, rest: seq<T>, b: seq<T>, i: int)
    requires s == before + rest && i >= |before| && OccursAt(s, b, i)
    ensures OccursAt(rest, b, i - |before|)
  {
    var j := i - |before|;
    assert rest[j..j + |b|] == s[i..i + |b|];
  }

  lemma {:induction false} SubtreeOccurs(t: Tree, small: Tree) returns (i: int)
    requires small.Node? && ContainsTree1(t, small)
    ensures OccursAt(Tokens(t), Tokens(small), i)
  {
    if t == small {
      i := 0;
    } else {
      ChildTokens(t, []);
      var head, l, r := [Tokens(t)[0]], Tokens(t.left), Tokens(t.right);
      assert Tokens(t) + [] == Tokens(t) && r + [] == r;
      hide Tokens;
      if ContainsTree1(t.left, small) {
        i := SubtreeOccurs(t.left, small);
        OccursInside(head, l, r, Tokens(small), i);
        i := i + 1;
      } else {
        i := SubtreeOccurs(t.right, small);
        OccursInside(head + l, r, [], Tokens(small), i);
        i := i + 1 + |l|;
      }
    }
  }

  lemma OccursInside<T>(before: seq<T>, s: seq<T>, after: seq<T>, b: seq<T>, i: int)
    requires OccursAt(s, b, i)
    ensures OccursAt(before + (s + after), b, i + |before|)
  {
    var whole, j := before + (s + after), i + |before|;
    assert whole[j..j + |b|] == s[i..i + |b|];
  }

  /** The search over tokens tells subtrees, null ones included, as the recursive test does. */
  method IsContains(node1: Tree, node2: Tree) returns (b: bool)
    ensures b <==> IsSubtree(node2, node1)
    ensures b == ContainsTree1(node1, node2)
  {
    ContainsIffSubtree(node1, node2);
    if node2.Null? {
      return true;
    }
    if node1.Null? {
      return false;
    }
    var list1 := Pre(node1, []);
    var list2 := Pre(node2, []);
    assert list1 == Tokens(node1) && list2 == Tokens(node2);
    var index := -1;
    if |list1| >= |list2| {
      index := Search(list1, list2);
    }
    if ContainsTree1(node1, node2) {
      var i := SubtreeOccurs(node1, node2);
      assert index != -1;
    } else if index != -1 {
      assert Tokens(node1) + [] == Tokens(node1);
      OccurrenceIsSubtree(node1, [], node2, index);
    }
    b := index != -1;
  }
}
