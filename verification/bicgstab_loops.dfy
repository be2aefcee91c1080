/** The local loops of bicgstab_linear_solver on one rank: on the CPU they update whole
    expressions, on the GPU they are split into in-place x + b y kernels. A vector has n owned
    entries; what lies behind them is for the exchange. */
module BicgstabLoops {
  import opened RealSums
  import opened Bicgstab
  import opened Vectors

  method DotProduct(x: seq<real>, y: seq<real>) returns (result: real)
    requires |x| == |y|
    ensures result == Dot(x, y)
  {
    result := 0.0;
    for i := 0 to |x|
      invariant result == SumTo(Products(x, y), i)
    {
      result := result + x[i] * y[i];
    }
  }

  /** memcpy of the owned entries into a vector with room for the ghosts. */
  method CopyOwned(v: array<real>, n: nat) returns (copy: array<real>)
    requires n <= v.Length
    ensures fresh(copy) && copy.Length == v.Length && copy[..n] == v[..n]
  {
    copy := new real[v.Length];
    for i := 0 to n
      invariant forall k :: 0 <= k < i ==> copy[k] == v[k]
    {
      copy[i] := v[i];
    }
  }

  // ----- the CPU loops -----

  /** r0 = rhs - A dQ */
  method FirstResidual(rhs: seq<real>, ax: array<real>) returns (r0: array<real>)
    requires |rhs| <= ax.Length
    ensures fresh(r0) && r0.Length == ax.Length && r0[..|rhs|] == Axpy(rhs, -1.0, ax[..|rhs|])
  {
    r0 := new real[ax.Length];
    for i := 0 to |rhs|
      invariant forall k :: 0 <= k < i ==> r0[k] == rhs[k] + -1.0 * ax[k]
    {
      r0[i] := rhs[i] - ax[i];
    }
  }

  method MoveBoth(x: array<real>, r: array<real>, alpha: real, p1: array<real>, omega: real, s1: array<real>,
                  s: array<real>, sa: array<real>, n: nat)
    requires x != r && x != p1 && x != s1 && x != s && x != sa && r != p1 && r != s1 && r != s && r != sa
    requires n <= x.Length && n <= r.Length && n <= p1.Length && n <= s1.Length && n <= s.Length && n <= sa.Length
    modifies x, r
    ensures x[..n] == Axpy(Axpy(old(x[..n]), alpha, p1[..n]), omega, s1[..n])
    ensures r[..n] == Axpy(s[..n], -omega, sa[..n])
  {
    ghost var first := Axpy(x[..n], alpha, p1[..n]);
    ghost var moved, left := Axpy(first, omega, s1[..n]), Axpy(s[..n], -omega, sa[..n]);
    for i := 0 to n
      invariant forall k :: 0 <= k < i ==> x[k] == moved[k] && r[k] == left[k]
      invariant forall k :: i <= k < n ==> x[k] == old(x[k])
    {
      x[i] := x[i] + alpha * p1[i] + omega * s1[i];
      r[i] := s[i] - omega * sa[i];
    }
  }

  method MoveDirection(p: array<real>, r: array<real>, beta: real, omega: real, ap: array<real>, n: nat)
    requires p != r && p != ap && n <= p.Length && n <= r.Length && n <= ap.Length
    modifies p
    ensures p[..n] == Axpy(r[..n], beta, Axpy(old(p[..n]), -omega, ap[..n]))
  {
    ghost var before := p[..n];
    for i := 0 to n
      invariant forall k :: 0 <= k < i ==> p[k] == Axpy(r[..n], beta, Axpy(before, -omega, ap[..n]))[k]
      invariant forall k :: i <= k < n ==> p[k] == before[k]
    {
      DirectionAlgebra(r[i], beta, p[i], omega, ap[i]);
      p[i] := r[i] + beta * (p[i] - omega * ap[i]);
    }
  }

  lemma DirectionAlgebra(r: real, beta: real, p: real, omega: real, ap: real)
    ensures r + beta * (p - omega * ap) == r + beta * (p + -omega * ap)
  {
  }

  // ----- the GPU kernel -----

  /** kg_bicgstab_xpby; the result may be one of the operands. */
  method Xpby(x: array<real>, b: real, y: array<real>, result: array<real>, n: nat)
    requires n <= x.Length && n <= y.Length && n <= result.Length
    modifies result
    ensures result[..n] == Axpy(old(x[..n]), b, old(y[..n]))
  {
    ghost var xs, ys := x[..n], y[..n];
    for ii := 0 to n
      invariant forall k :: 0 <= k < ii ==> result[k] == Axpy(xs, b, ys)[k]
      invariant forall k :: ii <= k < n ==> x[k] == xs[k] && y[k] == ys[k]
    {
      result[ii] := x[ii] + b * y[ii];
    }
  }

  // ----- why the two make the same step -----

  /** p + -(beta omega) Ap after p := r + beta p is r + beta (p - omega Ap). */
  lemma SplitDirection(r: seq<real>, beta: real, p: seq<real>, omega: real, ap: seq<real>)
    requires |r| == |p| == |ap|
    ensures Axpy(Axpy(r, beta, p), -(beta * omega), ap) == Axpy(r, beta, Axpy(p, -omega, ap))
  {
    var inner, first := Axpy(p, -omega, ap), Axpy(r, beta, p);
    var left, right := Axpy(first, -(beta * omega), ap), Axpy(r, beta, inner);
    forall k | 0 <= k < |r|
      ensures left[k] == right[k]
    {
      SplitAlgebra(r[k], beta, p[k], omega, ap[k]);
      assert left[k] == first[k] + -(beta * omega) * ap[k];
      assert right[k] == r[k] + beta * inner[k];
    }
  }

  lemma SplitAlgebra(r: real, beta: real, p: real, omega: real, ap: real)
    ensures r + beta * p + -(beta * omega) * ap == r + beta * (p + -omega * ap)
  {
  }

  lemma BetaAlgebra(d: real, alpha1: real, alpha: real, omega: real)
    requires alpha1 != 0.0 && omega != 0.0
    ensures d * (alpha / alpha1 / omega) == Beta(d, alpha1, alpha, omega)
  {
    var q, t := alpha / omega, d / alpha1;
    assert alpha / alpha1 / omega == q / alpha1 by {
      var u := alpha / alpha1;
      assert u * alpha1 == alpha && q * omega == alpha;
      var z, y := u / omega, q / alpha1;
      assert z * omega == u && y * alpha1 == q;
      assert (z - y) * (omega * alpha1) == 0.0;
    }
    var y := q / alpha1;
    assert y * alpha1 == q && t * alpha1 == d;
    assert (d * y - t * q) * alpha1 == 0.0;
  }
}
