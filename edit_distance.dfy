/** `levenshteinDistance(s1, s2)`: the edit distance between two strings,
    computed by filling a `(m + 1) × (n + 1)` table row by row. */
module EditDistance {

  /** `Math.min(a, b, c)` */
  function Min3(a: nat, b: nat, c: nat): (r: nat)
    ensures r <= a && r <= b && r <= c
    ensures r == a || r == b || r == c
  {
    if a <= b && a <= c then a else if b <= c then b else c
  }

  /** The distance the cell `dp[|s|][|t|]` holds: a row or column of the
      border costs one insertion or deletion per character, and an inner cell
      is the cheapest of deleting the last character of `s`, inserting the
      last character of `t`, or substituting one for the other (free when they
      are equal). */
  function Dist(s: string, t: string): nat
    decreases |s| + |t|
  {
    if |s| == 0 then |t|
    else if |t| == 0 then |s|
    else
      Min3(Dist(s[..|s| - 1], t) + 1,
           Dist(s, t[..|t| - 1]) + 1,
           Dist(s[..|s| - 1], t[..|t| - 1]) + (if s[|s| - 1] == t[|t| - 1] then 0 else 1))
  }

  /** `levenshteinDistance(s1, s2)`: the border of the table first, then the
      inner cells row by row; the answer is the bottom-right cell. */
  method LevenshteinDistance(s1: string, s2: string) returns (d: nat)
    ensures d == Dist(s1, s2)
  {
    var m, n := |s1|, |s2|;
    var dp := new nat[m + 1, n + 1];
    for i := 0 to m + 1
      invariant forall a :: 0 <= a < i ==> dp[a, 0] == a
    {
      dp[i, 0] := i;
    }
    for j := 0 to n + 1
      invariant forall a :: 0 <= a <= m ==> dp[a, 0] == a
      invariant forall b :: 0 <= b < j ==> dp[0, b] == b
    {
      dp[0, j] := j;
    }
    assert Filled(dp, s1, s2, 1) by {
      forall b | 0 <= b <= n
        ensures dp[0, b] == Dist(s1[..0], s2[..b])
      {
      }
    }
    for i := 1 to m + 1
      invariant Filled(dp, s1, s2, i)
      invariant forall a :: i <= a <= m ==> dp[a, 0] == a
    {
      FillRow(dp, s1, s2, i);
    }
    assert s1[..m] == s1 && s2[..n] == s2;
    return dp[m, n];
  }

  /** The rows `0 .. rows - 1` of the table hold the distances between the
      prefixes they stand for. */
  ghost predicate Filled(dp: array2<nat>, s: string, t: string, rows: nat)
    reads dp
  {
    && dp.Length0 == |s| + 1 && dp.Length1 == |t| + 1 && rows <= |s| + 1
    && forall a, b :: 0 <= a < rows && 0 <= b <= |t| ==> dp[a, b] == Dist(s[..a], t[..b])
  }

  /** The inner `for (let j = 1; j <= n; j++)` loop: fills row `i` from the row above. */
  method FillRow(dp: array2<nat>, s: string, t: string, i: nat)
    requires 1 <= i <= |s|
    requires Filled(dp, s, t, i) && dp[i, 0] == i
    modifies dp
    ensures Filled(dp, s, t, i + 1)
    ensures forall a, b :: 0 <= a < dp.Length0 && 0 <= b < dp.Length1 && a != i ==> dp[a, b] == old(dp[a, b])
  {
    var n := |t|;
    assert dp[i, 0] == Dist(s[..i], t[..0]);
    for j := 1 to n + 1
      invariant forall a, b :: 0 <= a < dp.Length0 && 0 <= b < dp.Length1 && a != i ==> dp[a, b] == old(dp[a, b])
      invariant forall b :: 0 <= b < j ==> dp[i, b] == Dist(s[..i], t[..b])
    {
      CellStep(s, t, i, j);
      dp[i, j] := Min3(dp[i - 1, j] + 1,
                       dp[i, j - 1] + 1,
                       dp[i - 1, j - 1] + (if s[i - 1] == t[j - 1] then 0 else 1));
    }
  }

  /** The recurrence for the inner cell `dp[i][j]`, on prefixes. */
  lemma CellStep(s: string, t: string, i: nat, j: nat)
    requires 1 <= i <= |s| && 1 <= j <= |t|
    ensures Dist(s[..i], t[..j])
         == Min3(Dist(s[..i - 1], t[..j]) + 1,
                 Dist(s[..i], t[..j - 1]) + 1,
                 Dist(s[..i - 1], t[..j - 1]) + (if s[i - 1] == t[j - 1] then 0 else 1))
  {
    assert s[..i][..i - 1] == s[..i - 1];
    assert t[..j][..j - 1] == t[..j - 1];
  }

  /** A string is at distance 0 from itself. */
  lemma {:induction false} DistSelf(s: string)
    ensures Dist(s, s) == 0
    decreases |s|
  {
    if |s| > 0 {
      DistSelf(s[..|s| - 1]);
    }
  }

  /** Distance 0 means the strings are equal. */
  lemma {:induction false} DistZero(s: string, t: string)
    requires Dist(s, t) == 0
    ensures s == t
    decreases |s| + |t|
  {
    if |s| > 0 && |t| > 0 {
      DistZero(s[..|s| - 1], t[..|t| - 1]);
      assert s == s[..|s| - 1] + [s[|s| - 1]];
      assert t == t[..|t| - 1] + [t[|t| - 1]];
    }
  }

  /** The distance is at most the length of the longer string. */
  lemma {:induction false} DistAtMostLonger(s: string, t: string)
    ensures Dist(s, t) <= if |s| <= |t| then |t| else |s|
    decreases |s| + |t|
  {
    if |s| > 0 && |t| > 0 {
      DistAtMostLonger(s[..|s| - 1], t[..|t| - 1]);
    }
  }

  /** The distance is at least the difference of the lengths. */
  lemma {:induction false} DistAtLeastLengthGap(s: string, t: string)
    ensures Dist(s, t) >= if |s| <= |t| then |t| - |s| else |s| - |t|
    decreases |s| + |t|
  {
    if |s| > 0 && |t| > 0 {
      DistAtLeastLengthGap(s[..|s| - 1], t);
      DistAtLeastLengthGap(s, t[..|t| - 1]);
      DistAtLeastLengthGap(s[..|s| - 1], t[..|t| - 1]);
    }
  }

  /** Swapping the strings swaps deletions and insertions and leaves the
      distance unchanged. */
  lemma {:induction false} DistSymmetric(s: string, t: string)
    ensures Dist(s, t) == Dist(t, s)
    decreases |s| + |t|
  {
    if |s| > 0 && |t| > 0 {
      DistSymmetric(s[..|s| - 1], t);
      DistSymmetric(s, t[..|t| - 1]);
      DistSymmetric(s[..|s| - 1], t[..|t| - 1]);
    }
  }
}
