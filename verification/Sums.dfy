/** Sums over sequences, and the reindexing law used to count tree weights. */
module Sums {

  ghost function Sum(s: seq<int>): int {
    if s == [] then 0 else Sum(s[..|s| - 1]) + s[|s| - 1]
  }

  /** Changing one summand changes the sum by the difference. */
  lemma {:induction false} SumChange(s: seq<int>, at: nat, v: int)
    requires at < |s|
    ensures Sum(s[at := v]) == Sum(s) + v - s[at]
  {
    var n := |s| - 1;
    if at == n {
      assert s[at := v][..n] == s[..n];
    } else {
      assert s[at := v][..n] == s[..n][at := v];
      SumChange(s[..n], at, v);
    }
  }

  lemma {:induction false} SumAdd(f: seq<int>, g: seq<int>, h: seq<int>)
    requires |f| == |g| == |h|
    requires forall i :: 0 <= i < |h| ==> h[i] == f[i] + g[i]
    ensures Sum(h) == Sum(f) + Sum(g)
  {
    if h != [] {
      var n := |h| - 1;
      SumAdd(f[..n], g[..n], h[..n]);
    }
  }

  lemma {:induction false} SumZero(s: seq<int>)
    requires forall i :: 0 <= i < |s| ==> s[i] == 0
    ensures Sum(s) == 0
  {
    if s != [] {
      SumZero(s[..|s| - 1]);
    }
  }

  lemma {:induction false} SumOnes(s: seq<int>)
    requires forall i :: 0 <= i < |s| ==> s[i] == 1
    ensures Sum(s) == |s|
  {
    if s != [] {
      SumOnes(s[..|s| - 1]);
    }
  }

  lemma {:induction false} SumPairs(f: seq<int>, g: seq<int>)
    requires |f| == 2 * |g|
    requires forall m :: 0 <= m < |g| ==> g[m] == f[2 * m] + f[2 * m + 1]
    ensures Sum(g) == Sum(f)
  {
    if g != [] {
      var n := |f| - 1;
      assert f[..n][..n - 1] == f[..n - 1];
      SumPairs(f[..n - 1], g[..|g| - 1]);
    }
  }

  lemma {:induction false} SumConcat(a: seq<int>, b: seq<int>)
    ensures Sum(a + b) == Sum(a) + Sum(b)
  {
    if b == [] {
      assert a + b == a;
    } else {
      var n := |b| - 1;
      assert (a + b)[..|a| + n] == a + b[..n];
      SumConcat(a, b[..n]);
    }
  }

  lemma {:induction false} SumBounds(s: seq<int>, lo: int, hi: int)
    requires forall i :: 0 <= i < |s| ==> lo <= s[i] <= hi
    ensures lo * |s| <= Sum(s) <= hi * |s|
  {
    if s != [] {
      SumBounds(s[..|s| - 1], lo, hi);
    }
  }

  /** Reindexing: if key and pos are inverse between the slots of h that carry a key of g and the
      keys of g, and the other slots are zero, h and g have the same sum. */
  lemma {:induction false} SumByKey(h: seq<int>, key: seq<int>, pos: seq<int>, g: seq<int>)
    requires |h| == |key| && |pos| == |g|
    requires forall i :: 0 <= i < |h| ==>
      if 0 <= key[i] < |g| then pos[key[i]] == i && h[i] == g[key[i]] else h[i] == 0
    requires forall k :: 0 <= k < |g| ==> 0 <= pos[k] < |h| && key[pos[k]] == k
    ensures Sum(h) == Sum(g)
    decreases |g|
  {
    if g == [] {
      SumZero(h);
    } else {
      var m := |g| - 1;
      SumByKey(h[pos[m] := 0], key, pos[..m], g[..m]);
      SumChange(h, pos[m], 0);
    }
  }
}
