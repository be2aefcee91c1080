/** Finite sums of reals, as the loops over faces, cells and ranks build them. */
module RealSums {
  /** The sum of the first n terms. */
  function SumTo(s: seq<real>, n: nat): real
    requires n <= |s|
  {
    if n == 0 then 0.0 else SumTo(s, n - 1) + s[n - 1]
  }

  function SumOf(s: seq<real>): real {
    SumTo(s, |s|)
  }

  lemma {:induction false} SumPrefix(s: seq<real>, t: seq<real>, n: nat)
    requires n <= |s| && n <= |t| && forall k :: 0 <= k < n ==> s[k] == t[k]
    ensures SumTo(s, n) == SumTo(t, n)
  {
    if n > 0 {
      SumPrefix(s, t, n - 1);
    }
  }

  lemma {:induction false} SumZero(s: seq<real>, n: nat)
    requires n <= |s| && forall k :: 0 <= k < |s| ==> s[k] == 0.0
    ensures SumTo(s, n) == 0.0
  {
    if n > 0 {
      SumZero(s, n - 1);
    }
  }

  lemma {:induction false} SumConcatTo(a: seq<real>, b: seq<real>, n: nat)
    requires n <= |b|
    ensures SumTo(a + b, |a| + n) == SumOf(a) + SumTo(b, n)
  {
    if n == 0 {
      SumPrefix(a + b, a, |a|);
    } else {
      SumConcatTo(a, b, n - 1);
    }
  }

  lemma SumConcat(a: seq<real>, b: seq<real>)
    ensures SumOf(a + b) == SumOf(a) + SumOf(b)
  {
    SumConcatTo(a, b, |b|);
  }

  lemma {:induction false} SumPlusTo(a: seq<real>, b: seq<real>, c: seq<real>, n: nat)
    requires n <= |a| == |b| == |c| && forall k :: 0 <= k < n ==> a[k] == b[k] + c[k]
    ensures SumTo(a, n) == SumTo(b, n) + SumTo(c, n)
  {
    if n > 0 {
      SumPlusTo(a, b, c, n - 1);
    }
  }

  lemma SumPlus(a: seq<real>, b: seq<real>, c: seq<real>)
    requires |a| == |b| == |c| && forall k :: 0 <= k < |a| ==> a[k] == b[k] + c[k]
    ensures SumOf(a) == SumOf(b) + SumOf(c)
  {
    SumPlusTo(a, b, c, |a|);
  }

  ghost predicate Scaled(a: seq<real>, x: real, b: seq<real>) {
    |a| == |b| && forall k :: 0 <= k < |a| ==> a[k] == x * b[k]
  }

  lemma {:induction false} SumScaledTo(a: seq<real>, x: real, b: seq<real>, n: nat)
    requires Scaled(a, x, b) && n <= |a|
    ensures SumTo(a, n) == x * SumTo(b, n)
  {
    if n > 0 {
      SumScaledTo(a, x, b, n - 1);
      assert x * (SumTo(b, n - 1) + b[n - 1]) == x * SumTo(b, n - 1) + x * b[n - 1];
    }
  }

  lemma SumScaled(a: seq<real>, x: real, b: seq<real>)
    requires Scaled(a, x, b)
    ensures SumOf(a) == x * SumOf(b)
  {
    SumScaledTo(a, x, b, |a|);
  }

  lemma {:induction false} SumMonotoneTo(a: seq<real>, b: seq<real>, n: nat)
    requires n <= |a| == |b| && forall k :: 0 <= k < n ==> a[k] <= b[k]
    ensures SumTo(a, n) <= SumTo(b, n)
  {
    if n > 0 {
      SumMonotoneTo(a, b, n - 1);
    }
  }

  lemma SumMonotone(a: seq<real>, b: seq<real>)
    requires |a| == |b| && forall k :: 0 <= k < |a| ==> a[k] <= b[k]
    ensures SumOf(a) <= SumOf(b)
  {
    SumMonotoneTo(a, b, |a|);
  }

  function Abs(x: real): (r: real)
    ensures r >= 0.0 && (r == x || r == -x)
  {
    if x < 0.0 then -x else x
  }

  lemma {:induction false} SumNotNegative(s: seq<real>, n: nat)
    requires n <= |s| && forall c :: 0 <= c < |s| ==> s[c] >= 0.0
    ensures SumTo(s, n) >= 0.0
  {
    if n > 0 {
      SumNotNegative(s, n - 1);
    }
  }

  lemma {:induction false} ZeroTail(u: seq<real>, m: nat, n: nat)
    requires m <= n <= |u| && forall c :: m <= c < |u| ==> u[c] == 0.0
    ensures SumTo(u, n) == SumTo(u, m)
    decreases n
  {
    if m < n {
      ZeroTail(u, m, n - 1);
    }
  }

  lemma {:induction false} SumChanged(a: seq<real>, b: seq<real>, k: nat, n: nat)
    requires k < n <= |a| == |b| && forall i :: 0 <= i < n && i != k ==> a[i] == b[i]
    ensures SumTo(b, n) == SumTo(a, n) - a[k] + b[k]
  {
    if k == n - 1 {
      SumPrefix(a, b, n - 1);
    } else {
      SumChanged(a, b, k, n - 1);
    }
  }

  lemma SumSingle(s: seq<real>, k: nat)
    requires k < |s| && forall i :: 0 <= i < |s| && i != k ==> s[i] == 0.0
    ensures SumOf(s) == s[k]
  {
    var zero := seq(|s|, _ => 0.0);
    SumZero(zero, |s|);
    SumChanged(zero, s, k, |s|);
  }
}
