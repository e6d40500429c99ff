/** Two-dimensional tables seen row by row. */
module Tables {
  ghost function RowOf<T>(dp: array2<T>, i: nat): seq<T>
    requires i < dp.Length0
    reads dp
  {
    seq(dp.Length1, j requires 0 <= j < dp.Length1 reads dp => dp[i, j])
  }

  /** dp[i][j] = x */
  method Write<T>(dp: array2<T>, i: nat, j: nat, x: T)
    requires i < dp.Length0 && j < dp.Length1
    modifies dp
    ensures RowOf(dp, i) == old(RowOf(dp, i))[j := x]
    ensures forall k :: 0 <= k < dp.Length0 && k != i ==> RowOf(dp, k) == old(RowOf(dp, k))
  {
    dp[i, j] := x;
  }
}
