/** Sums over integer sequences, with the one-place update law every other module uses. */
module SeqSums {

  function Sum(s: seq<int>): int {
    if |s| == 0 then 0 else Sum(s[..|s| - 1]) + s[|s| - 1]
  }

  lemma {:induction false} SumUpdate(s: seq<int>, i: nat, v: int)
    requires i < |s|
    ensures Sum(s[i := v]) == Sum(s) - s[i] + v
  {
    var n := |s| - 1;
    if i == n {
      assert s[i := v][..n] == s[..n];
    } else {
      assert s[i := v][..n] == s[..n][i := v];
      SumUpdate(s[..n], i, v);
    }
  }

  lemma {:induction false} SumConcat(a: seq<int>, b: seq<int>)
    ensures Sum(a + b) == Sum(a) + Sum(b)
  {
    if b == [] {
      assert a + b == a;
    } else {
      var n := |b| - 1;
      assert (a + b)[..|a| + n] == a + b[..n];
      SumConcat(a, b[..n]);
    }
  }

  /** A sum of non-negative terms bounds each of its terms. */
  lemma {:induction false} SumBounds(s: seq<int>)
    requires forall k :: 0 <= k < |s| ==> 0 <= s[k]
    ensures forall k :: 0 <= k < |s| ==> s[k] <= Sum(s)
    ensures Sum(s) >= 0
  {
    if |s| > 0 {
      var n := |s| - 1;
      SumBounds(s[..n]);
      forall k | 0 <= k < |s| ensures s[k] <= Sum(s) {
        if k < n { assert s[k] == s[..n][k]; }
      }
    }
  }

  lemma {:induction false} SumZeros(s: seq<int>)
    requires forall k :: 0 <= k < |s| ==> s[k] == 0
    ensures Sum(s) == 0
  {
    if |s| > 0 { SumZeros(s[..|s| - 1]); }
  }

  /** Only one place of a sequence holds a non-zero term. */
  lemma {:induction false} SumSingle(s: seq<int>, i: nat)
    requires i < |s|
    requires forall k :: 0 <= k < |s| && k != i ==> s[k] == 0
    ensures Sum(s) == s[i]
  {
    SumUpdate(s, i, 0);
    SumZeros(s[i := 0]);
  }

  lemma {:induction false} SumAtMost(s: seq<int>, bound: int)
    requires forall k :: 0 <= k < |s| ==> s[k] <= bound
    ensures Sum(s) <= |s| * bound
  {
    if |s| > 0 { SumAtMost(s[..|s| - 1], bound); }
  }

  lemma {:induction false} SumScale(s: seq<int>, t: seq<int>, c: int)
    requires |s| == |t| && forall k :: 0 <= k < |s| ==> s[k] == c * t[k]
    ensures Sum(s) == c * Sum(t)
  {
    if |s| > 0 {
      var n := |s| - 1;
      SumScale(s[..n], t[..n], c);
      assert s[n] == c * t[n];
    }
  }

  lemma {:induction false} SumAdd(s: seq<int>, t: seq<int>, u: seq<int>)
    requires |s| == |t| == |u| && forall k :: 0 <= k < |s| ==> u[k] == s[k] + t[k]
    ensures Sum(u) == Sum(s) + Sum(t)
  {
    if |s| > 0 {
      var n := |s| - 1;
      SumAdd(s[..n], t[..n], u[..n]);
    }
  }

  lemma {:induction false} SumAtMostOther(s: seq<int>, t: seq<int>, c: int)
    requires |s| == |t| && forall k :: 0 <= k < |s| ==> s[k] <= c * t[k]
    ensures Sum(s) <= c * Sum(t)
  {
    if |s| > 0 {
      var n := |s| - 1;
      SumAtMostOther(s[..n], t[..n], c);
      assert c * (Sum(t[..n]) + t[n]) == c * Sum(t[..n]) + c * t[n];
    }
  }
}
