/**
 * The three numpy primitives the game logic relies on, stated on sequences:
 * `np.roll`, the first hit of `np.where(a == v)` and `np.setdiff1d`.
 */
module NumpyOps {

  import opened Arith

  /** `np.roll(s, k)`: every element moves `k` places to the right, wrapping around. */
  function Roll<T>(s: seq<T>, k: int): (r: seq<T>)
    ensures |r| == |s|
    ensures forall i :: 0 <= i < |s| ==> r[i] == s[(i - k) % |s|]
  {
    if |s| == 0 then s
    else
      var m := k % |s|;
      var r := s[|s| - m..] + s[..|s| - m];
      assert forall i :: 0 <= i < |s| ==> r[i] == s[(i - k) % |s|] by {
        forall i | 0 <= i < |s| ensures r[i] == s[(i - k) % |s|] {
          RollIndex(|s|, k, m, i);
        }
      }
      r
  }

  /** Index arithmetic behind Roll: the two halves of the concatenation. */
  lemma RollIndex(n: int, k: int, m: int, i: int)
    requires 0 < n && m == k % n && 0 <= i < n
    ensures i < m ==> (i - k) % n == n - m + i
    ensures m <= i ==> (i - k) % n == i - m
  {
    var q := k / n;
    assert k == q * n + m;
    if i < m {
      assert i - k == (n - m + i) + (-q - 1) * n;
      ModOfMultipleOffset(n - m + i, -q - 1, n);
    } else {
      assert i - k == (i - m) + (-q) * n;
      ModOfMultipleOffset(i - m, -q, n);
    }
  }

  /** `np.where(s == v)[0][0]`: scans for the first index holding `v`. */
  method WhereFirst(s: seq<int>, v: int) returns (r: nat)
    requires v in s
    ensures r < |s| && s[r] == v
    ensures forall j :: 0 <= j < r ==> s[j] != v
  {
    r := 0;
    while s[r] != v
      invariant r < |s|
      invariant forall j :: 0 <= j < r ==> s[j] != v
      decreases |s| - r
    {
      r := r + 1;
    }
  }

  /**
   * `np.setdiff1d(a, b)`: the values of `a` that are not in `b`. numpy also
   * sorts and de-duplicates the result; here the order of `a` is kept.
   */
  function SetDiff(a: seq<int>, b: seq<int>): (r: seq<int>)
    ensures forall x :: x in r <==> x in a && x !in b
    ensures |r| <= |a|
  {
    if |a| == 0 then []
    else if a[0] in b then SetDiff(a[1..], b)
    else [a[0]] + SetDiff(a[1..], b)
  }
}
