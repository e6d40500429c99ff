/**
 Manacher's algorithm: exact palindrome radii in linear time, the longest palindromic
 substring, and the shortest suffix that turns a string into a palindrome.
*/
module Palindromes {

  // ----- palindromes of the string itself

  ghost predicate IsPalindrome(s: string) {
    forall k :: 0 <= k < |s| ==> s[k] == s[|s| - 1 - k]
  }

  /** n is the length of a longest palindromic substring. */
  ghost predicate IsLongest(s: string, n: int) {
    && (exists l, r :: 0 <= l <= r <= |s| && r - l == n && IsPalindrome(s[l..r]))
    && forall l, r :: 0 <= l <= r <= |s| && IsPalindrome(s[l..r]) ==> r - l <= n
  }

  // ----- the string with separators, and radii around its positions

  /** The characters with a separator around each. */
  ghost function Separated(s: string): (t: string)
    ensures |t| == 2 * |s| + 1
    ensures forall i :: 0 <= i < |t| ==> t[i] == if i % 2 == 0 then '#' else s[i / 2]
  {
    seq(2 * |s| + 1, i requires 0 <= i < 2 * |s| + 1 => if i % 2 == 0 then '#' else s[i / 2])
  }

  /** Fills the array by a running index into the string. */
  method GetChars(s: string) returns (mStr: array<char>)
    ensures fresh(mStr) && mStr[..] == Separated(s)
  {
    mStr := new char[|s| * 2 + 1];
    var index := 0;
    for i := 0 to mStr.Length
      invariant index == i / 2 && forall j :: 0 <= j < i ==> mStr[j] == Separated(s)[j]
    {
      if i % 2 == 0 {
        mStr[i] := '#';
      } else {
        mStr[i] := s[index];
        index := index + 1;
      }
    }
  }

  ghost predicate Twins(t: string, i: int, d: int) {
    0 <= i - d && 0 <= i + d < |t| && i - d < |t| && t[i - d] == t[i + d]
  }

  /** The p - 1 positions on each side of i mirror each other. */
  ghost predicate Mirrors(t: string, i: int, p: int) {
    && 0 <= i < |t| && 1 <= p
    && forall d {:trigger Twins(t, i, d)} :: 0 <= d < p ==> Twins(t, i, d)
  }

  ghost predicate IsRadius(t: string, i: int, p: int) {
    Mirrors(t, i, p) && !Twins(t, i, p)
  }

  lemma MirrorsWithin(t: string, i: int, p: int)
    requires Mirrors(t, i, p)
    ensures p <= i + 1 && i + p <= |t|
  {
    assert Twins(t, i, p - 1);
  }

  lemma RadiusIsLargest(t: string, i: int, p: int, q: int)
    requires IsRadius(t, i, p) && Mirrors(t, i, q)
    ensures q <= p
  {
    assert !Twins(t, i, p);
  }

  /** Inside a known palindrome around c, a position mirrors at least as far as its image does. */
  lemma ImageMirrors(t: string, c: int, pc: int, i: int, pm: int, p: int)
    requires Mirrors(t, c, pc) && c < i < c + pc && Mirrors(t, 2 * c - i, pm)
    requires 1 <= p <= pm && p <= c + pc - i
    ensures Mirrors(t, i, p)
  {
    MirrorsWithin(t, c, pc);
    forall d | 0 <= d < p ensures Twins(t, i, d) {
      assert Twins(t, c, i + d - c) && Twins(t, 2 * c - i, d);
      assert Twins(t, c, if i - d >= c then i - d - c else c - i + d);
    }
  }

  // ----- substrings are centres

  lemma {:induction false} TwinChars(s: string, l: int, r: int, d: int)
    requires 0 <= l <= r <= |s| && 0 <= d <= r - l
    ensures (l + r + d) % 2 == 0 ==> Twins(Separated(s), l + r, d)
    ensures (l + r + d) % 2 == 1 ==>
              && l <= (l + r + d) / 2 < r && (l + r - d) / 2 == l + r - 1 - (l + r + d) / 2
              && (Twins(Separated(s), l + r, d) <==> s[(l + r + d) / 2] == s[l + r - 1 - (l + r + d) / 2])
  {
    var t := Separated(s);
    assert (l + r - d) % 2 == (l + r + d) % 2;
  }

  lemma PalindromeMirrors(s: string, l: int, r: int)
    requires 0 <= l <= r <= |s| && IsPalindrome(s[l..r])
    ensures Mirrors(Separated(s), l + r, r - l + 1)
  {
    var t, c := Separated(s), l + r;
    forall d | 0 <= d < r - l + 1 ensures Twins(t, c, d) {
      TwinChars(s, l, r, d);
      if (l + r + d) % 2 == 1 {
        var b := (l + r + d) / 2;
        assert s[l..r][b - l] == s[l..r][r - l - 1 - (b - l)];
      }
    }
  }

  lemma MirrorsPalindrome(s: string, l: int, r: int)
    requires 0 <= l <= r <= |s| && Mirrors(Separated(s), l + r, r - l + 1)
    ensures IsPalindrome(s[l..r])
  {
    forall k | 0 <= k < r - l ensures s[l..r][k] == s[l..r][r - l - 1 - k] {
      var e := if 2 * k >= r - l - 1 then 2 * k - (r - l - 1) else r - l - 1 - 2 * k;
      assert Twins(Separated(s), l + r, e);
      TwinChars(s, l, r, e);
    }
  }

  /** A stretch of the string is a palindrome exactly when the separated string mirrors that far around it. */
  lemma PalindromeIffMirrors(s: string, l: int, r: int)
    requires 0 <= l <= r <= |s|
    ensures IsPalindrome(s[l..r]) <==> Mirrors(Separated(s), l + r, r - l + 1)
  {
    if IsPalindrome(s[l..r]) {
      PalindromeMirrors(s, l, r);
    } else if Mirrors(Separated(s), l + r, r - l + 1) {
      MirrorsPalindrome(s, l, r);
    }
  }

  lemma SeparatorsAreTwins(s: string, i: int, p: int)
    requires Mirrors(Separated(s), i, p) && (i - p + 1) % 2 == 1
    ensures Twins(Separated(s), i, p)
  {
    MirrorsWithin(Separated(s), i, p);
    assert (i - p) % 2 == 0 && (i + p) % 2 == 0;
  }

  /** A maximal palindrome of the separated string starts and ends at separators. */
  lemma RadiusIsSubstring(s: string, i: int, p: int)
    requires IsRadius(Separated(s), i, p)
    ensures (i - p + 1) % 2 == 0 && 0 <= (i - p + 1) / 2 <= (i + p - 1) / 2 <= |s|
    ensures (i + p - 1) / 2 - (i - p + 1) / 2 == p - 1 && (i - p + 1) / 2 + (i + p - 1) / 2 == i
    ensures IsPalindrome(s[(i - p + 1) / 2..(i + p - 1) / 2])
  {
    var t := Separated(s);
    MirrorsWithin(t, i, p);
    if (i - p + 1) % 2 == 1 {
      SeparatorsAreTwins(s, i, p);
    }
    MirrorsPalindrome(s, (i - p + 1) / 2, (i + p - 1) / 2);
  }

  lemma AllRadiiGiveLongest(s: string, radii: seq<int>, m: int)
    requires |radii| == 2 * |s| + 1 && forall i :: 0 <= i < |radii| ==> IsRadius(Separated(s), i, radii[i])
    requires IsMaximum(radii, m)
    ensures IsLongest(s, m - 1)
  {
    var i :| 0 <= i < |radii| && radii[i] == m;
    RadiusIsSubstring(s, i, m);
    hide IsRadius, IsPalindrome, Separated;
    forall l, r | 0 <= l <= r <= |s| && IsPalindrome(s[l..r]) ensures r - l <= m - 1 {
      PalindromeMirrors(s, l, r);
      RadiusIsLargest(Separated(s), l + r, radii[l + r], r - l + 1);
    }
  }

  // ----- the shared step: the exact radius at i

  /** C and R describe the palindrome reaching furthest right among the centres before i. */
  ghost predicate Reach(t: string, radii: seq<int>, c: int, r: int) {
    && (forall j :: 0 <= j < |radii| ==> IsRadius(t, j, radii[j]) && j + radii[j] <= r)
    && if |radii| == 0 then c == -1 && r == -1
       else 0 <= c < |radii| && r == c + radii[c]
  }

  /** The value to start from: the image's radius if it stays inside the palindrome around C. */
  lemma StartMirrors(t: string, radii: seq<int>, c: int, r: int)
    requires Reach(t, radii, c, r) && |radii| < |t|
    ensures var i := |radii|;
            if r > i then
              0 <= 2 * c - i < i && Mirrors(t, i, if radii[2 * c - i] < r - i then radii[2 * c - i] else r - i)
            else Mirrors(t, i, 1)
  {
    var i := |radii|;
    assert Twins(t, i, 0);
    if r > i {
      assert IsRadius(t, c, radii[c]);
      MirrorsWithin(t, c, radii[c]);
      assert IsRadius(t, 2 * c - i, radii[2 * c - i]);
      ImageMirrors(t, c, radii[c], i, radii[2 * c - i], if radii[2 * c - i] < r - i then radii[2 * c - i] else r - i);
    }
  }

  lemma ExtendMirrors(t: string, i: int, p: int)
    requires Mirrors(t, i, p)
    ensures i + p < |t| && i - p > -1 && t[i + p] == t[i - p] ==> Mirrors(t, i, p + 1)
    ensures !(i + p < |t| && i - p > -1 && t[i + p] == t[i - p]) ==> IsRadius(t, i, p)
  {
  }

  /** Starts from the image's radius, or 1, and extends by comparing both sides. */
  method RadiusAt(str: array<char>, pArr: array<int>, i: int, C: int, R: int)
    requires 0 <= i < str.Length == pArr.Length && Reach(str[..], pArr[..i], C, R)
    modifies pArr
    ensures pArr[..i] == old(pArr[..i]) && IsRadius(str[..], i, pArr[i])
  {
    ghost var t, radii := str[..], pArr[..i];
    StartMirrors(t, radii, C, R);
    hide Mirrors, IsRadius, Reach;
    if R > i {
      var image := pArr[2 * C - i];
      assert image == radii[2 * C - i];
      pArr[i] := if image < R - i then image else R - i;
    } else {
      pArr[i] := 1;
    }
    ExtendMirrors(t, i, pArr[i]);
    MirrorsWithin(t, i, pArr[i]);
    while i + pArr[i] < str.Length && i - pArr[i] > -1
      invariant pArr[..i] == radii && Mirrors(t, i, pArr[i]) && 1 <= pArr[i] <= i + 1 && i + pArr[i] <= str.Length
      decreases str.Length - pArr[i]
    {
      ExtendMirrors(t, i, pArr[i]);
      assert t[i + pArr[i]] == str[i + pArr[i]] && t[i - pArr[i]] == str[i - pArr[i]];
      if str[i + pArr[i]] == str[i - pArr[i]] {
        pArr[i] := pArr[i] + 1;
      } else {
        break;
      }
    }
    ExtendMirrors(t, i, pArr[i]);
  }

  lemma ReachGrows(t: string, radii: seq<int>, c: int, r: int, p: int)
    requires Reach(t, radii, c, r) && IsRadius(t, |radii|, p)
    ensures var i := |radii|;
            if i + p > r then Reach(t, radii + [p], i, i + p) else Reach(t, radii + [p], c, r)
  {
  }

  /** One turn of the loop: the radius at i, then the furthest reach. */
  method Advance(str: array<char>, pArr: array<int>, i: int, C: int, R: int) returns (C': int, R': int)
    requires 0 <= i < str.Length == pArr.Length && Reach(str[..], pArr[..i], C, R)
    modifies pArr
    ensures pArr[..i] == old(pArr[..i]) && pArr[..i + 1] == old(pArr[..i]) + [pArr[i]]
    ensures Reach(str[..], pArr[..i + 1], C', R') && (R' == i + pArr[i] || (R' == R && i + pArr[i] <= R))
  {
    ghost var before := pArr[..i];
    RadiusAt(str, pArr, i, C, R);
    ReachGrows(str[..], before, C, R, pArr[i]);
    assert pArr[..i + 1] == before + [pArr[i]];
    if i + pArr[i] > R {
      R', C' := i + pArr[i], i;
    } else {
      R', C' := R, C;
    }
  }

  ghost predicate IsMaximum(radii: seq<int>, m: int) {
    m in radii && forall i :: 0 <= i < |radii| ==> radii[i] <= m
  }

  lemma MaximumGrows(radii: seq<int>, m: int, x: int)
    requires radii == [] || IsMaximum(radii, m)
    ensures IsMaximum(radii + [x], if radii == [] || m < x then x else m)
  {
    var longer := radii + [x];
    assert longer[|radii|] == x;
    assert forall i :: 0 <= i < |radii| ==> longer[i] == radii[i];
  }

  /** The length of the longest palindromic substring. */
  method Manacher(s: string) returns (n: int)
    ensures IsLongest(s, n)
  {
    if s == "" {
      EmptyIsLongest();
      return 0;
    }
    var str := GetChars(s);
    ghost var t := Separated(s);
    hide IsRadius, IsMaximum, Separated;
    var pArr := new int[str.Length];
    var C, R, max := -1, -1, 0;
    for i := 0 to str.Length
      invariant str[..] == t && Reach(t, pArr[..i], C, R)
      invariant if i == 0 then max == 0 else IsMaximum(pArr[..i], max)
    {
      ghost var before := pArr[..i];
      C, R := Advance(str, pArr, i, C, R);
      MaximumGrows(before, max, pArr[i]);
      RadiusPositive(t, pArr[..i + 1]);
      if max < pArr[i] {
        max := pArr[i];
      }
    }
    assert pArr[..str.Length] == pArr[..];
    AllRadiiGiveLongest(s, pArr[..], max);
    n := max - 1;
  }

  lemma RadiusPositive(t: string, radii: seq<int>)
    requires forall j :: 0 <= j < |radii| ==> IsRadius(t, j, radii[j])
    ensures forall j :: 0 <= j < |radii| ==> radii[j] >= 1
  {
  }

  lemma EmptyIsLongest()
    ensures IsLongest("", 0)
  {
    assert IsPalindrome(""[0..0]);
  }

  /** The quadratic check: extends from every centre. */
  method Right(s: string) returns (n: int)
    ensures IsLongest(s, n)
  {
    if s == "" {
      EmptyIsLongest();
      return 0;
    }
    var chars := GetChars(s);
    var str := chars[..];
    ghost var radii: seq<int>, m := [], 0;
    var max := 0;
    for i := 0 to |str|
      invariant |radii| == i && forall j :: 0 <= j < i ==> IsRadius(str, j, radii[j])
      invariant if i == 0 then max == 0 else IsMaximum(radii, m) && max == 2 * m - 1
    {
      var L, R := RightAt(str, i);
      MaximumGrows(radii, m, i - L);
      radii := radii + [i - L];
      if max < R - L - 1 {
        max := R - L - 1;
        m := i - L;
      }
    }
    AllRadiiGiveLongest(s, radii, m);
    n := max / 2;
  }

  /** The inner loop of the quadratic check: the first mismatch on both sides of i. */
  method RightAt(str: string, i: int) returns (L: int, R: int)
    requires 0 <= i < |str|
    ensures -1 <= L < i && R == 2 * i - L && IsRadius(str, i, i - L)
  {
    L, R := i - 1, i + 1;
    assert Twins(str, i, 0);
    while L >= 0 && R < |str| && str[L] == str[R]
      invariant -1 <= L < i && R == 2 * i - L && Mirrors(str, i, i - L)
      decreases L
    {
      L, R := L - 1, R + 1;
    }
  }

  // ----- the shortest palindromic completion

  /** w is a shortest string that makes s + w a palindrome. */
  ghost predicate IsShortestEnd(s: string, w: string) {
    IsPalindrome(s + w) && forall v: string :: IsPalindrome(s + v) ==> |w| <= |v|
  }

  /** If s + v is a palindrome, what v does not mirror is a palindrome already. */
  lemma CompletionLeavesSuffix(s: string, v: string)
    requires IsPalindrome(s + v) && |v| <= |s|
    ensures IsPalindrome(s[|v|..])
  {
    var n, k := |s|, |v|;
    forall j | 0 <= j < n - k ensures s[k..][j] == s[k..][n - k - 1 - j] {
      assert (s + v)[k + j] == (s + v)[n + k - 1 - (k + j)];
    }
  }

  lemma MirroredPrefixCompletes(s: string, l: nat, w: string)
    requires l <= |s| && IsPalindrome(s[l..]) && |w| == l && forall i :: 0 <= i < l ==> w[l - 1 - i] == s[i]
    ensures IsPalindrome(s + w)
  {
    var n := |s|;
    forall k | 0 <= k < n + l ensures (s + w)[k] == (s + w)[n + l - 1 - k] {
      if k < l {
        assert w[l - 1 - k] == s[k];
      } else if k < n {
        assert s[l..][k - l] == s[l..][n - l - 1 - (k - l)];
      } else {
        assert w[l - 1 - (n + l - 1 - k)] == s[n + l - 1 - k];
      }
    }
  }

  /** The longest palindromic suffix starts at l. */
  ghost predicate LongestSuffixAt(s: string, l: int) {
    0 <= l <= |s| && IsPalindrome(s[l..]) && forall m :: 0 <= m < l ==> !IsPalindrome(s[m..])
  }

  /** The first centre whose palindrome reaches the end belongs to the longest palindromic suffix. */
  lemma FirstToReachEnd(s: string, radii: seq<int>, i: nat)
    requires |radii| == i + 1 <= 2 * |s| + 1 && forall j :: 0 <= j <= i ==> IsRadius(Separated(s), j, radii[j])
    requires forall j :: 0 <= j < i ==> j + radii[j] < 2 * |s| + 1
    requires i + radii[i] == 2 * |s| + 1
    ensures LongestSuffixAt(s, |s| - radii[i] + 1)
  {
    RadiusIsSubstring(s, i, radii[i]);
    var l := |s| - radii[i] + 1;
    assert s[l..|s|] == s[l..];
    forall m | 0 <= m < l ensures !IsPalindrome(s[m..]) {
      assert s[m..|s|] == s[m..];
      if IsPalindrome(s[m..]) {
        PalindromeMirrors(s, m, |s|);
        RadiusIsLargest(Separated(s), m + |s|, radii[m + |s|], |s| - m + 1);
      }
    }
  }

  /** Reversing what comes before the longest palindromic suffix is the shortest completion. */
  lemma ReversedPrefix(s: string, l: nat, w: string)
    requires LongestSuffixAt(s, l) && |w| == l && forall i :: 0 <= i < l ==> w[l - 1 - i] == s[i]
    ensures IsShortestEnd(s, w)
  {
    MirroredPrefixCompletes(s, l, w);
    forall v: string | IsPalindrome(s + v) ensures l <= |v| {
      if |v| < l {
        CompletionLeavesSuffix(s, v);
      }
    }
  }

  /** A radius stays inside the string, so the last one certainly reaches its end. */
  lemma RadiusWithin(t: string, radii: seq<int>)
    requires |radii| <= |t| && forall j :: 0 <= j < |radii| ==> IsRadius(t, j, radii[j])
    ensures forall j :: 0 <= j < |radii| ==> 1 <= radii[j] <= j + 1 && j + radii[j] <= |t|
  {
    forall j | 0 <= j < |radii| ensures 1 <= radii[j] <= j + 1 && j + radii[j] <= |t| {
      MirrorsWithin(t, j, radii[j]);
    }
  }

  method AddShortestEnd(s: string) returns (res: string)
    ensures s == "" ==> res == ""
    ensures IsShortestEnd(s, res)
  {
    if s == "" {
      return "";
    }
    var str := GetChars(s);
    ghost var t := Separated(s);
    hide IsRadius, Separated;
    var pArr := new int[str.Length];
    var C, R, maxContainsEnd := -1, -1, -1;
    var i := 0;
    while i < str.Length
      invariant 0 <= i < str.Length && str[..] == t && Reach(t, pArr[..i], C, R) && R < str.Length
      decreases str.Length - i
    {
      C, R := Advance(str, pArr, i, C, R);
      RadiusWithin(t, pArr[..i + 1]);
      if R == str.Length {
        maxContainsEnd := pArr[i];
        break;
      }
      i := i + 1;
    }
    FirstToReachEnd(s, pArr[..i + 1], i);
    var l := |s| - maxContainsEnd + 1;
    res := ReversedFront(s, str, l);
    ReversedPrefix(s, l, res);
  }

  /** The first l characters, read back to front off the odd positions. */
  method ReversedFront(s: string, str: array<char>, l: int) returns (res: string)
    requires 0 <= l <= |s| && str[..] == Separated(s)
    ensures |res| == l && forall i :: 0 <= i < l ==> res[l - 1 - i] == s[i]
  {
    var chars := new char[l];
    for i := 0 to l
      invariant forall j :: 0 <= j < i ==> chars[l - 1 - j] == s[j]
      invariant str[..] == Separated(s)
    {
      assert str[i * 2 + 1] == str[..][i * 2 + 1] == s[i];
      chars[l - 1 - i] := str[i * 2 + 1];
    }
    res := chars[..];
  }
}
