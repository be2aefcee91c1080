/** Vectors of reals, entry by entry. */
module Vectors {
  import opened RealFacts
  import opened RealSums

  function Zeros(n: nat): (r: seq<real>)
    ensures |r| == n && forall k :: 0 <= k < n ==> r[k] == 0.0
  {
    Constant(n, 0.0)
  }

  function Constant(n: nat, value: real): (r: seq<real>)
    ensures |r| == n && forall k :: 0 <= k < n ==> r[k] == value
  {
    seq(n, _ => value)
  }

  function Plus(a: seq<real>, b: seq<real>): (r: seq<real>)
    requires |a| == |b|
    ensures |r| == |a| && forall k :: 0 <= k < |r| ==> r[k] == a[k] + b[k]
  {
    seq(|a|, k requires 0 <= k < |a| => a[k] + b[k])
  }

  function ScaledBy(x: real, s: seq<real>): (r: seq<real>)
    ensures |r| == |s| && forall k :: 0 <= k < |r| ==> r[k] == x * s[k]
  {
    seq(|s|, k requires 0 <= k < |s| => x * s[k])
  }

  /** x + a y */
  function Axpy(x: seq<real>, a: real, y: seq<real>): (r: seq<real>)
    requires |x| == |y|
    ensures |r| == |x| && forall k :: 0 <= k < |r| ==> r[k] == x[k] + a * y[k]
  {
    seq(|x|, k requires 0 <= k < |x| => x[k] + a * y[k])
  }

  function Products(x: seq<real>, y: seq<real>): (r: seq<real>)
    requires |x| == |y|
    ensures |r| == |x| && forall k :: 0 <= k < |r| ==> r[k] == x[k] * y[k]
  {
    seq(|x|, k requires 0 <= k < |x| => x[k] * y[k])
  }

  function Dot(x: seq<real>, y: seq<real>): real
    requires |x| == |y|
  {
    SumOf(Products(x, y))
  }

  lemma PlusSum(a: seq<real>, b: seq<real>)
    requires |a| == |b|
    ensures SumOf(Plus(a, b)) == SumOf(a) + SumOf(b)
  {
    SumPlus(Plus(a, b), a, b);
  }

  lemma PositiveSquare(x: real, square: real)
    requires square == x * x && x > 0.0
    ensures square > 0.0
  {
    var inverse := 1.0 / x;
    assert inverse * square == x;
    if square <= 0.0 {
      Scale(inverse, square, 0.0);
    }
  }

  lemma SquareOf(x: real, square: real)
    requires square == x * x
    ensures square >= 0.0 && (square == 0.0 <==> x == 0.0)
  {
    if x > 0.0 {
      PositiveSquare(x, square);
    } else if x < 0.0 {
      PositiveSquare(-x, square);
    }
  }

  lemma {:induction false} SquaresTo(x: seq<real>, n: nat)
    requires n <= |x|
    ensures SumTo(Products(x, x), n) >= 0.0
    ensures SumTo(Products(x, x), n) == 0.0 <==> forall k :: 0 <= k < n ==> x[k] == 0.0
  {
    if n > 0 {
      SquaresTo(x, n - 1);
      SquareOf(x[n - 1], Products(x, x)[n - 1]);
    }
  }

  /** A vector's product with itself is zero only for the zero vector. */
  lemma NormZero(x: seq<real>)
    ensures Dot(x, x) == 0.0 <==> x == Zeros(|x|)
  {
    SquaresTo(x, |x|);
    assert x == Zeros(|x|) <==> forall k :: 0 <= k < |x| ==> x[k] == 0.0;
  }

  lemma ZeroProduct(x: seq<real>, y: seq<real>)
    requires |x| == |y| && (x == Zeros(|x|) || y == Zeros(|y|))
    ensures Dot(x, y) == 0.0
  {
    SumZero(Products(x, y), |x|);
  }

  lemma SquareNotNegative(x: seq<real>)
    ensures Dot(x, x) >= 0.0
  {
    SquaresTo(x, |x|);
  }

  lemma DotAxpy(x: seq<real>, c: real, y: seq<real>, z: seq<real>)
    requires |x| == |y| == |z|
    ensures Dot(Axpy(x, c, y), z) == Dot(x, z) + c * Dot(y, z)
  {
    var sum, scaled := Products(Axpy(x, c, y), z), ScaledBy(c, Products(y, z));
    forall k | 0 <= k < |z|
      ensures sum[k] == Products(x, z)[k] + scaled[k]
    {
      assert (x[k] + c * y[k]) * z[k] == x[k] * z[k] + c * (y[k] * z[k]);
    }
    SumPlus(sum, Products(x, z), scaled);
    SumScaled(scaled, c, Products(y, z));
  }

  lemma DotSymmetric(x: seq<real>, y: seq<real>)
    requires |x| == |y|
    ensures Dot(x, y) == Dot(y, x)
  {
    assert Products(x, y) == Products(y, x);
  }
}
