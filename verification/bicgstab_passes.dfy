/** What a pass of BiCGSTAB achieves, and that nothing else is a pass: the first half leaves a
    residual orthogonal to r0, the second makes it as small as it can, and the next direction
    is one whose image is orthogonal to r0 before the second half turns it. So a system whose
    right-hand side spans only a plane with its images is solved by the second pass, which
    then divides by zero. */
module BicgstabPasses {
  import opened Bicgstab
  import opened RealFacts
  import opened Vectors

  // ----- the conditions -----

  /** r moved by alpha along p is orthogonal to r0. */
  ghost predicate IsHalf(a: seq<real> -> seq<real>, r0: seq<real>, r: seq<real>, v: seq<real>, alpha: real,
                         s: seq<real>)
    requires Linear(a, |r0|) && |r| == |v| == |r0|
  {
    s == Axpy(r, -alpha, Apply(a, v)) && Dot(s, r0) == 0.0
  }

  /** s moved by omega along A s is orthogonal to A s. */
  ghost predicate IsWhole(a: seq<real> -> seq<real>, s: seq<real>, omega: real, r: seq<real>)
    requires Linear(a, |s|)
  {
    r == Axpy(s, -omega, Apply(a, s)) && Dot(r, Apply(a, s)) == 0.0
  }

  /** The next direction is q turned by the second half, and A q is orthogonal to r0. */
  ghost predicate IsTurn(a: seq<real> -> seq<real>, r0: seq<real>, s: seq<real>, v: seq<real>, omega: real, c: real,
                         next: seq<real>)
    requires Linear(a, |r0|) && |s| == |v| == |r0|
  {
    var q := Axpy(s, c, v);
    Dot(Apply(a, q), r0) == 0.0 && next == Axpy(q, -omega, Apply(a, q))
  }

  /** dQ and r after a pass with these lengths. */
  ghost predicate IsMove(a: seq<real> -> seq<real>, r0: seq<real>, st: State, next: State, alpha: real, omega: real,
                         s: seq<real>)
    requires Linear(a, |r0|) && Shaped(st, |r0|) && st.p.Along? && |s| == |r0|
  {
    && IsHalf(a, r0, st.r, st.p.v, alpha, s) && Apply(a, s) != Zeros(|r0|)
    && IsWhole(a, s, omega, next.r) && next.x == Axpy(Axpy(st.x, alpha, st.p.v), omega, s)
  }

  ghost predicate IsPass(a: seq<real> -> seq<real>, r0: seq<real>, st: State, next: State, alpha: real, omega: real,
                         s: seq<real>, c: real)
    requires Linear(a, |r0|) && Shaped(st, |r0|) && st.p.Along?
  {
    && |s| == |r0| && IsMove(a, r0, st, next, alpha, omega, s)
    && if alpha == 0.0 || omega == 0.0 then next.p.Lost?
       else next.p.Along? && IsTurn(a, r0, s, st.p.v, omega, c, next.p.v)
  }

  // ----- each condition has one solution, which the loop computes -----

  lemma HalfIff(a: seq<real> -> seq<real>, r0: seq<real>, r: seq<real>, v: seq<real>, alpha: real, s: seq<real>)
    requires Linear(a, |r0|) && |r| == |v| == |r0| && Dot(Apply(a, v), r0) != 0.0
    ensures IsHalf(a, r0, r, v, alpha, s) <==>
            alpha == Dot(r, r0) / Dot(Apply(a, v), r0) && s == HalfResidual(a, r, v, alpha)
  {
    hide Linear, Dot, Axpy;
    DotAxpy(r, -alpha, Apply(a, v), r0);
    Root(Dot(r, r0), Dot(Apply(a, v), r0), alpha);
  }

  /** x - c d is zero for one c. */
  lemma Root(x: real, d: real, c: real)
    requires d != 0.0
    ensures x + -c * d == 0.0 <==> c == x / d
  {
    assert x / d * d == x;
    if x + -c * d == 0.0 {
      assert (c - x / d) * d == 0.0;
    }
  }

  lemma WholeIff(a: seq<real> -> seq<real>, s: seq<real>, omega: real, r: seq<real>)
    requires Linear(a, |s|) && Dot(Apply(a, s), Apply(a, s)) != 0.0
    ensures IsWhole(a, s, omega, r) <==>
            omega == Dot(Apply(a, s), s) / Dot(Apply(a, s), Apply(a, s)) && r == Axpy(s, -omega, Apply(a, s))
  {
    hide Linear, Dot, Axpy;
    var image := Apply(a, s);
    DotAxpy(s, -omega, image, image);
    DotSymmetric(s, image);
    Root(Dot(s, image), Dot(image, image), omega);
  }

  lemma BetaIs(alpha1: real, down: real, h: real, omega: real, alpha: real, d: real)
    requires down != 0.0 && omega != 0.0 && alpha1 != 0.0 && alpha == alpha1 / down && d == -omega * h
    ensures Beta(d, alpha1, alpha, omega) == -h / down
  {
    var x, y := d / alpha1, alpha / omega;
    assert x * alpha1 == d && y * omega == alpha && alpha * down == alpha1;
    var beta, g := x * y, -h / down;
    assert g * down == -h;
    assert beta * (alpha1 * omega) == d * alpha by {
      assert beta * (alpha1 * omega) == (x * alpha1) * (y * omega);
    }
    assert g * (alpha1 * omega) == d * alpha by {
      assert g * (alpha1 * omega) == (g * down) * (alpha * omega);
    }
    assert (beta - g) * (alpha1 * omega) == 0.0;
    assert alpha1 * omega != 0.0;
  }

  /** p = r + beta (p - omega A p) is q - omega A q, with q = s + beta p. */
  lemma TurnedIs(a: seq<real> -> seq<real>, s: seq<real>, v: seq<real>, omega: real, beta: real)
    requires Linear(a, |s|) && |v| == |s|
    ensures var q := Axpy(s, beta, v);
            Axpy(Axpy(s, -omega, Apply(a, s)), beta, Axpy(v, -omega, Apply(a, v))) == Axpy(q, -omega, Apply(a, q))
  {
    assert LinearAt(a, |s|, s, beta, v);
    var q, u, w := Axpy(s, beta, v), Apply(a, s), Apply(a, v);
    var turned, direct := Axpy(Axpy(s, -omega, u), beta, Axpy(v, -omega, w)), Axpy(q, -omega, Apply(a, q));
    forall k | 0 <= k < |s|
      ensures turned[k] == direct[k]
    {
      Regroup(s[k], u[k], v[k], w[k], omega, beta);
    }
  }

  lemma Regroup(s: real, u: real, v: real, w: real, omega: real, beta: real)
    ensures s + -omega * u + beta * (v + -omega * w) == s + beta * v + -omega * (u + beta * w)
  {
    assert beta * (v + -omega * w) == beta * v + -omega * (beta * w);
    assert -omega * (u + beta * w) == -omega * u + -omega * (beta * w);
  }

  lemma TurnIff(a: seq<real> -> seq<real>, r0: seq<real>, s: seq<real>, v: seq<real>, omega: real, c: real,
                next: seq<real>)
    requires Linear(a, |r0|) && |s| == |v| == |r0| && Dot(Apply(a, v), r0) != 0.0
    ensures IsTurn(a, r0, s, v, omega, c, next) <==>
            && c == -Dot(Apply(a, s), r0) / Dot(Apply(a, v), r0)
            && next == Axpy(Axpy(s, -omega, Apply(a, s)), c, Axpy(v, -omega, Apply(a, v)))
  {
    hide Linear, Dot, Axpy;
    assert Apply(a, Axpy(s, c, v)) == Axpy(Apply(a, s), c, Apply(a, v)) by { Images(a, s, c, v); }
    DotAxpy(Apply(a, s), c, Apply(a, v), r0);
    Root(-Dot(Apply(a, s), r0), Dot(Apply(a, v), r0), c);
    TurnedIs(a, s, v, omega, c);
  }

  lemma Images(a: seq<real> -> seq<real>, x: seq<real>, c: real, y: seq<real>)
    requires Linear(a, |x|) && |y| == |x|
    ensures Apply(a, Axpy(x, c, y)) == Axpy(Apply(a, x), c, Apply(a, y))
  {
    assert LinearAt(a, |x|, x, c, y);
  }

  // ----- the pass -----

  lemma DirectionIff(a: seq<real> -> seq<real>, r0: seq<real>, st: State, alpha: real, omega: real, s: seq<real>,
                     r: seq<real>)
    requires Linear(a, |r0|) && Shaped(st, |r0|) && st.p.Along? && |s| == |r| == |r0|
    requires Dot(Apply(a, st.p.v), r0) != 0.0 && alpha == Dot(st.r, r0) / Dot(Apply(a, st.p.v), r0)
    requires Dot(s, r0) == 0.0 && r == Axpy(s, -omega, Apply(a, s)) && alpha != 0.0 && omega != 0.0
    ensures Dot(st.r, r0) != 0.0
    ensures var p := TurnedDirection(a, r0, r, st.p.v, Steps(Dot(st.r, r0), alpha, omega));
            && p.Along?
            && (forall c, next: seq<real> :: IsTurn(a, r0, s, st.p.v, omega, c, next) ==> p == Along(next))
            && IsTurn(a, r0, s, st.p.v, omega, -Dot(Apply(a, s), r0) / Dot(Apply(a, st.p.v), r0), p.v)
  {
    hide Linear, Dot, Axpy, IsTurn;
    var alpha1, down, h, v := Dot(st.r, r0), Dot(Apply(a, st.p.v), r0), Dot(Apply(a, s), r0), st.p.v;
    assert alpha1 == 0.0 ==> alpha == 0.0;
    DotAxpy(s, -omega, Apply(a, s), r0);
    BetaIs(alpha1, down, h, omega, alpha, Dot(r, r0));
    var p := TurnedDirection(a, r0, r, v, Steps(alpha1, alpha, omega));
    TurnIff(a, r0, s, v, omega, -h / down, p.v);
    forall c, next: seq<real> | IsTurn(a, r0, s, v, omega, c, next)
      ensures p == Along(next)
    {
      TurnIff(a, r0, s, v, omega, c, next);
    }
  }

  lemma LengthsAre(a: seq<real> -> seq<real>, r0: seq<real>, r: seq<real>, v: seq<real>, alpha: real, omega: real,
                   s: seq<real>)
    requires Linear(a, |r0|) && |r| == |v| == |s| == |r0| && Dot(Apply(a, v), r0) != 0.0
    requires alpha == Dot(r, r0) / Dot(Apply(a, v), r0) && s == HalfResidual(a, r, v, alpha)
    ensures LengthsOf(a, r0, r, v).Steps? <==> Apply(a, s) != Zeros(|r0|)
    ensures Apply(a, s) != Zeros(|r0|) <==> Dot(Apply(a, s), Apply(a, s)) != 0.0
    ensures Apply(a, s) != Zeros(|r0|) && omega == Dot(Apply(a, s), s) / Dot(Apply(a, s), Apply(a, s)) ==>
              LengthsOf(a, r0, r, v) == Steps(Dot(r, r0), alpha, omega)
  {
    hide Linear, Dot, Axpy, HalfResidual;
    NormZero(Apply(a, s));
  }

  lemma MoveIs(a: seq<real> -> seq<real>, r0: seq<real>, st: State, next: State, alpha: real, omega: real, s: seq<real>)
    requires Linear(a, |r0|) && Shaped(st, |r0|) && st.p.Along? && |s| == |r0|
    requires Dot(Apply(a, st.p.v), r0) != 0.0 && IsMove(a, r0, st, next, alpha, omega, s)
    ensures LengthsOf(a, r0, st.r, st.p.v) == Steps(Dot(st.r, r0), alpha, omega)
    ensures alpha == Dot(st.r, r0) / Dot(Apply(a, st.p.v), r0) && s == HalfResidual(a, st.r, st.p.v, alpha)
    ensures next.r == MovedResidual(a, st, alpha, omega) && next.x == MovedSolution(a, st, alpha, omega)
  {
    hide Linear, Dot, Axpy, LengthsOf;
    HalfIff(a, r0, st.r, st.p.v, alpha, s);
    LengthsAre(a, r0, st.r, st.p.v, alpha, omega, s);
    WholeIff(a, s, omega, next.r);
  }

  lemma QuotientZero(x: real, d: real)
    requires d != 0.0
    ensures x / d == 0.0 <==> x == 0.0
  {
    assert x / d * d == x;
  }

  /** The loop's pass is one. */
  lemma IterateIsPass(a: seq<real> -> seq<real>, r0: seq<real>, st: State, next: State)
    returns (alpha: real, omega: real, s: seq<real>, c: real)
    requires Linear(a, |r0|) && Shaped(st, |r0|) && st.p.Along? && Iterate(a, r0, st) == Reached(next)
    ensures Dot(Apply(a, st.p.v), r0) != 0.0 && IsPass(a, r0, st, next, alpha, omega, s, c)
  {
    hide Linear, Dot, Axpy, IsTurn, TurnedDirection;
    var down := Dot(Apply(a, st.p.v), r0);
    assert down != 0.0;
    alpha := Dot(st.r, r0) / down;
    s := HalfResidual(a, st.r, st.p.v, alpha);
    HalfIff(a, r0, st.r, st.p.v, alpha, s);
    NormZero(Apply(a, s));
    omega := Dot(Apply(a, s), s) / Dot(Apply(a, s), Apply(a, s));
    WholeIff(a, s, omega, next.r);
    c := -Dot(Apply(a, s), r0) / down;
    QuotientZero(Dot(st.r, r0), down);
    if alpha != 0.0 && omega != 0.0 {
      DirectionIff(a, r0, st, alpha, omega, s, next.r);
    }
  }

  /** And whatever meets the conditions is the loop's pass. */
  lemma PassIsIterate(a: seq<real> -> seq<real>, r0: seq<real>, st: State, next: State, alpha: real, omega: real,
                      s: seq<real>, c: real)
    requires Linear(a, |r0|) && Shaped(st, |r0|) && st.p.Along?
    requires Dot(Apply(a, st.p.v), r0) != 0.0 && IsPass(a, r0, st, next, alpha, omega, s, c)
    ensures Iterate(a, r0, st) == Reached(next)
  {
    hide Linear, Dot, Axpy, IsTurn, TurnedDirection, LengthsOf, MovedResidual, MovedSolution, HalfResidual;
    MoveIs(a, r0, st, next, alpha, omega, s);
    QuotientZero(Dot(st.r, r0), Dot(Apply(a, st.p.v), r0));
    if alpha != 0.0 && omega != 0.0 {
      DirectionIff(a, r0, st, alpha, omega, s, next.r);
    }
  }

  /** So the conditions say exactly what the loop does in a pass, and when it can. */
  lemma PassIff(a: seq<real> -> seq<real>, r0: seq<real>, st: State, next: State)
    requires Linear(a, |r0|) && Shaped(st, |r0|) && st.p.Along?
    ensures Iterate(a, r0, st) == Reached(next) <==>
            && Dot(Apply(a, st.p.v), r0) != 0.0
            && exists alpha, omega, s, c :: IsPass(a, r0, st, next, alpha, omega, s, c)
  {
    hide Linear, Dot, Axpy, IsPass, Iterate;
    if Iterate(a, r0, st) == Reached(next) {
      var alpha, omega, s, c := IterateIsPass(a, r0, st, next);
    } else if Dot(Apply(a, st.p.v), r0) != 0.0
      && exists alpha, omega, s, c :: IsPass(a, r0, st, next, alpha, omega, s, c)
    {
      var alpha, omega, s, c :| IsPass(a, r0, st, next, alpha, omega, s, c);
      PassIsIterate(a, r0, st, next, alpha, omega, s, c);
    }
  }

  // ----- over the passes -----

  lemma WholeIsLeast(a: seq<real> -> seq<real>, s: seq<real>, omega: real, r: seq<real>, c: real)
    requires Linear(a, |s|) && IsWhole(a, s, omega, r)
    ensures |r| == |s| && Dot(r, r) <= Dot(Axpy(s, -c, Apply(a, s)), Axpy(s, -c, Apply(a, s)))
  {
    hide Linear, Dot;
    var w, d := Apply(a, s), omega - c;
    var other := Axpy(r, d, w);
    forall k | 0 <= k < |s|
      ensures other[k] == Axpy(s, -c, w)[k]
    {
      assert s[k] + -omega * w[k] + (omega - c) * w[k] == s[k] + -c * w[k];
    }
    assert other == Axpy(s, -c, w);
    DotAxpy(r, d, w, other);
    DotSymmetric(r, other);
    DotSymmetric(w, other);
    DotAxpy(r, d, w, r);
    DotAxpy(r, d, w, w);
    DotSymmetric(w, r);
    SquareNotNegative(w);
    SquareOf(d, d * d);
    NonNegative(d * d, Dot(w, w));
    assert d * (d * Dot(w, w)) == d * d * Dot(w, w);
  }

  /** The same of the passes of a solve: after n passes, another one leads to next exactly if
      next meets the conditions. */
  lemma NextIterateIff(a: seq<real> -> seq<real>, rhs: seq<real>, n: nat, next: State)
    requires Linear(a, |rhs|)
    ensures Iterates(a, rhs, n + 1) == Reached(next) <==>
            && Iterates(a, rhs, n).Reached?
            && var st, r0 := Iterates(a, rhs, n).value, Start(a, rhs).r;
               && st.p.Along?
               && Dot(Apply(a, st.p.v), r0) != 0.0
               && exists alpha, omega, s, c :: IsPass(a, r0, st, next, alpha, omega, s, c)
  {
    hide Linear, Dot, Axpy, Start, LengthsOf, Moved, IsPass;
    if Iterates(a, rhs, n).Reached? && Iterates(a, rhs, n).value.p.Along? {
      PassIff(a, Start(a, rhs).r, Iterates(a, rhs, n).value, next);
    }
  }

  /** Whatever c, the residual after a pass is no larger than the one that a step of that length
      along the image of the half residual would leave. */
  lemma ResidualIsLeast(a: seq<real> -> seq<real>, rhs: seq<real>, n: nat, c: real) returns (alpha: real, s: seq<real>)
    requires Linear(a, |rhs|) && Iterates(a, rhs, n + 1).Reached?
    ensures Iterates(a, rhs, n).Reached? && Iterates(a, rhs, n).value.p.Along? && |s| == |rhs|
    ensures IsHalf(a, Start(a, rhs).r, Iterates(a, rhs, n).value.r, Iterates(a, rhs, n).value.p.v, alpha, s)
    ensures var r := Iterates(a, rhs, n + 1).value.r;
            Dot(r, r) <= Dot(Axpy(s, -c, Apply(a, s)), Axpy(s, -c, Apply(a, s)))
  {
    hide Linear, Dot, Axpy, Start, LengthsOf, Moved, IsHalf, IsWhole, IsTurn;
    var st, next := Iterates(a, rhs, n).value, Iterates(a, rhs, n + 1).value;
    var omega, d;
    alpha, omega, s, d := IterateIsPass(a, Start(a, rhs).r, st, next);
    WholeIsLeast(a, s, omega, next.r, c);
  }

  // ----- two passes -----

  /** The right-hand side b, its image and the image of that lie in one plane. */
  ghost predicate InPlane(a: seq<real> -> seq<real>, b: seq<real>, u: real, w: real)
    requires Linear(a, |b|)
  {
    Apply(a, Apply(a, b)) == Axpy(ScaledBy(u, Apply(a, b)), w, b)
  }

  /** x b + y A b */
  ghost function Plane(a: seq<real> -> seq<real>, b: seq<real>, x: real, y: real): (r: seq<real>)
    requires Linear(a, |b|)
    ensures |r| == |b|
  {
    Axpy(ScaledBy(x, b), y, Apply(a, b))
  }

  lemma PlaneAxpy(a: seq<real> -> seq<real>, b: seq<real>, x: real, y: real, c: real, x': real, y': real, x'': real,
                  y'': real)
    requires Linear(a, |b|) && x'' == x + c * x' && y'' == y + c * y'
    ensures Axpy(Plane(a, b, x, y), c, Plane(a, b, x', y')) == Plane(a, b, x'', y'')
  {
    var left, right := Axpy(Plane(a, b, x, y), c, Plane(a, b, x', y')), Plane(a, b, x'', y'');
    forall k | 0 <= k < |b|
      ensures left[k] == right[k]
    {
      Collect(x, y, c, x', y', b[k], Apply(a, b)[k]);
    }
  }

  lemma Collect(x: real, y: real, c: real, x': real, y': real, b: real, d: real)
    ensures x * b + y * d + c * (x' * b + y' * d) == (x + c * x') * b + (y + c * y') * d
  {
    assert c * (x' * b + y' * d) == c * x' * b + c * y' * d;
  }

  lemma ScaledImage(a: seq<real> -> seq<real>, b: seq<real>, x: real)
    requires Linear(a, |b|)
    ensures Apply(a, ScaledBy(x, b)) == ScaledBy(x, Apply(a, b))
  {
    var z := Zeros(|b|);
    assert LinearAt(a, |b|, z, x, b);
    ZeroMapsToZero(a, |b|);
    assert Axpy(z, x, b) == ScaledBy(x, b);
    assert Axpy(z, x, Apply(a, b)) == ScaledBy(x, Apply(a, b));
  }

  lemma PlaneImage(a: seq<real> -> seq<real>, b: seq<real>, u: real, w: real, x: real, y: real, x': real, y': real)
    requires Linear(a, |b|) && InPlane(a, b, u, w) && x' == y * w && y' == x + y * u
    ensures Apply(a, Plane(a, b, x, y)) == Plane(a, b, x', y')
  {
    hide Linear;
    var d := Apply(a, b);
    Images(a, ScaledBy(x, b), y, d);
    ScaledImage(a, b, x);
    var left, right := Apply(a, Plane(a, b, x, y)), Plane(a, b, x', y');
    forall k | 0 <= k < |b|
      ensures left[k] == right[k]
    {
      ImageEntry(x, y, u, w, b[k], d[k]);
    }
  }

  lemma ImageEntry(x: real, y: real, u: real, w: real, b: real, d: real)
    ensures x * d + y * (u * d + w * b) == y * w * b + (x + y * u) * d
  {
    assert y * (u * d + w * b) == y * u * d + y * w * b;
    assert (x + y * u) * d == x * d + y * u * d;
  }

  lemma PlaneDot(a: seq<real> -> seq<real>, b: seq<real>, x: real, y: real, z: seq<real>)
    requires Linear(a, |b|) && |z| == |b|
    ensures Dot(Plane(a, b, x, y), z) == x * Dot(b, z) + y * Dot(Apply(a, b), z)
  {
    hide Linear, Dot;
    DotAxpy(ScaledBy(x, b), y, Apply(a, b), z);
    DotAxpy(Zeros(|b|), x, b, z);
    ZeroProduct(Zeros(|b|), z);
    assert Axpy(Zeros(|b|), x, b) == ScaledBy(x, b);
  }

  /** b and its image are independent, as seen from b. */
  ghost predicate Independent(a: seq<real> -> seq<real>, b: seq<real>)
    requires Linear(a, |b|)
  {
    Dot(b, b) * Dot(Apply(a, Apply(a, b)), b) != Dot(Apply(a, b), b) * Dot(Apply(a, b), b)
  }

  /** In the plane only zero is orthogonal to b together with its image. */
  lemma PlaneZero(a: seq<real> -> seq<real>, b: seq<real>, u: real, w: real, x: real, y: real)
    requires Linear(a, |b|) && InPlane(a, b, u, w) && Independent(a, b)
    requires Dot(Plane(a, b, x, y), b) == 0.0 && Dot(Apply(a, Plane(a, b, x, y)), b) == 0.0
    ensures x == 0.0 && y == 0.0
  {
    hide Linear, Dot, Axpy;
    var d := Apply(a, b);
    PlaneDot(a, b, x, y, b);
    Images(a, ScaledBy(x, b), y, d);
    ScaledImage(a, b, x);
    DotAxpy(ScaledBy(x, d), y, Apply(a, d), b);
    DotAxpy(Zeros(|b|), x, d, b);
    ZeroProduct(Zeros(|b|), b);
    assert Axpy(Zeros(|b|), x, d) == ScaledBy(x, d);
    Determined(x, y, Dot(b, b), Dot(d, b), Dot(Apply(a, d), b));
  }

  lemma Determined(x: real, y: real, p: real, q: real, r: real)
    requires x * p + y * q == 0.0 && x * q + y * r == 0.0 && p * r != q * q
    ensures x == 0.0 && y == 0.0
  {
    var det := p * r - q * q;
    assert x * det == (x * p + y * q) * r - (x * q + y * r) * q;
    assert y * det == (x * q + y * r) * p - (x * p + y * q) * q;
    assert det != 0.0;
  }

  /** The second half residual is t turned by the first pass, t being what the step of length
      alpha leaves of the first half residual. */
  lemma SecondHalf(a: seq<real> -> seq<real>, s: seq<real>, q: seq<real>, omega: real, alpha: real)
    requires Linear(a, |s|) && |q| == |s|
    ensures var t := Axpy(s, -alpha, Apply(a, q));
            Axpy(Axpy(s, -omega, Apply(a, s)), -alpha, Apply(a, Axpy(q, -omega, Apply(a, q))))
            == Axpy(t, -omega, Apply(a, t))
  {
    hide Linear, Axpy;
    Images(a, q, -omega, Apply(a, q));
    TurnedIs(a, s, Apply(a, q), omega, -alpha);
  }

  /** t is orthogonal to r0, and so is its image. */
  lemma SecondOrthogonal(a: seq<real> -> seq<real>, r0: seq<real>, s: seq<real>, q: seq<real>, omega: real, alpha: real)
    requires Linear(a, |r0|) && |s| == |q| == |r0| && Dot(s, r0) == 0.0 && Dot(Apply(a, q), r0) == 0.0 && omega != 0.0
    requires var t := Axpy(s, -alpha, Apply(a, q)); Dot(Axpy(t, -omega, Apply(a, t)), r0) == 0.0
    ensures var t := Axpy(s, -alpha, Apply(a, q)); Dot(t, r0) == 0.0 && Dot(Apply(a, t), r0) == 0.0
  {
    hide Linear, Dot, Axpy;
    var t := Axpy(s, -alpha, Apply(a, q));
    DotAxpy(s, -alpha, Apply(a, q), r0);
    DotAxpy(t, -omega, Apply(a, t), r0);
    assert omega * Dot(Apply(a, t), r0) == 0.0;
  }

  lemma InThePlane(a: seq<real> -> seq<real>, b: seq<real>, u: real, w: real, s: seq<real>, q: seq<real>, alpha: real,
                   c: real, next: real) returns (x: real, y: real)
    requires Linear(a, |b|) && InPlane(a, b, u, w) && |s| == |b| && |q| == |b|
    requires s == Axpy(b, -alpha, Apply(a, b)) && q == Axpy(s, c, b)
    ensures Axpy(s, -next, Apply(a, q)) == Plane(a, b, x, y)
  {
    hide Linear, InPlane, Plane, Axpy;
    Ends(a, b);
    PlaneAxpy(a, b, 1.0, 0.0, -alpha, 0.0, 1.0, 1.0, -alpha);
    PlaneAxpy(a, b, 1.0, -alpha, c, 1.0, 0.0, 1.0 + c, -alpha);
    var x', y' := -alpha * w, 1.0 + c + -alpha * u;
    PlaneImage(a, b, u, w, 1.0 + c, -alpha, x', y');
    x, y := 1.0 + -next * x', -alpha + -next * y';
    PlaneAxpy(a, b, 1.0, -alpha, -next, x', y', x, y);
  }

  lemma Ends(a: seq<real> -> seq<real>, b: seq<real>)
    requires Linear(a, |b|)
    ensures b == Plane(a, b, 1.0, 0.0) && Apply(a, b) == Plane(a, b, 0.0, 1.0)
  {
  }

  lemma NothingLeft(a: seq<real> -> seq<real>, b: seq<real>, omega: real)
    requires Linear(a, |b|)
    ensures Axpy(Plane(a, b, 0.0, 0.0), -omega, Apply(a, Plane(a, b, 0.0, 0.0))) == Zeros(|b|)
    ensures Apply(a, Zeros(|b|)) == Zeros(|b|)
  {
    ZeroMapsToZero(a, |b|);
    assert Plane(a, b, 0.0, 0.0) == Zeros(|b|);
    assert Axpy(Zeros(|b|), -omega, Zeros(|b|)) == Zeros(|b|);
  }

  lemma SecondPassBreaksDown(a: seq<real> -> seq<real>, b: seq<real>, u: real, w: real, st: State, next: State)
    requires Linear(a, |b|) && InPlane(a, b, u, w) && Independent(a, b) && Shaped(st, |b|) && st.p.Along?
    requires Iterate(a, b, State(Zeros(|b|), b, Along(b))) == Reached(st)
    ensures Iterate(a, b, st) != Reached(next)
  {
    hide Linear, InPlane, Independent, Axpy, Dot, Plane, Iterate;
    if Iterate(a, b, st) == Reached(next) {
      var alpha, omega, s, c := IterateIsPass(a, b, State(Zeros(|b|), b, Along(b)), st);
      var alpha', omega', s', c' := IterateIsPass(a, b, st, next);
      var q := Axpy(s, c, b);
      SecondHalf(a, s, q, omega, alpha');
      SecondOrthogonal(a, b, s, q, omega, alpha');
      var x, y := InThePlane(a, b, u, w, s, q, alpha, c, alpha');
      PlaneZero(a, b, u, w, x, y);
      NothingLeft(a, b, omega);
    }
  }

  /** So when b, A b and A A b lie in a plane that b and A b span, the second pass has solved
      the system half way, and no later pass is defined. */
  lemma PlaneBreaksDown(a: seq<real> -> seq<real>, b: seq<real>, u: real, w: real, n: nat)
    requires Linear(a, |b|) && InPlane(a, b, u, w) && Independent(a, b) && n >= 2
    ensures Iterates(a, b, n).Undefined?
  {
    hide Linear, InPlane, Independent, Axpy, Dot, Iterate;
    StartIs(a, b);
    assert Iterates(a, b, 0) == Reached(Start(a, b));
    assert Iterates(a, b, 1) == Iterate(a, b, Start(a, b));
    if Iterates(a, b, 1).Reached? {
      var st := Iterates(a, b, 1).value;
      assert Iterates(a, b, 2) == Iterate(a, b, st);
      if st.p.Lost? {
        LostBreaksDown(a, b, 1);
      } else if Iterates(a, b, 2).Reached? {
        SecondPassBreaksDown(a, b, u, w, st, Iterates(a, b, 2).value);
      }
    }
    UndefinedStays(a, b, 2, n);
  }
}
