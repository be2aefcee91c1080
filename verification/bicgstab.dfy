/** The BiCGSTAB solver as an iteration on vectors over all cells, for any linear operator: why
    its residual stays the true one, and exactly when its divisions have a divisor. The loop
    has no test to stop it, so a pass with a zero divisor has no value in the reals. */
module Bicgstab {
  import opened RealSums
  import opened Vectors

  ghost predicate LinearAt(a: seq<real> -> seq<real>, n: nat, x: seq<real>, c: real, y: seq<real>) {
    |x| == |y| == n ==> |a(x)| == |a(y)| == n && a(Axpy(x, c, y)) == Axpy(a(x), c, a(y))
  }

  /** a maps vectors of n entries to such vectors, linearly. */
  ghost predicate Linear(a: seq<real> -> seq<real>, n: nat) {
    forall x, c, y :: LinearAt(a, n, x, c, y)
  }

  /** The operator applied to a vector of the right length. */
  ghost function Apply(a: seq<real> -> seq<real>, x: seq<real>): (r: seq<real>)
    requires Linear(a, |x|)
    ensures r == a(x) && |r| == |x|
  {
    assert LinearAt(a, |x|, x, 0.0, x);
    a(x)
  }

  // ----- the iteration -----

  /** The search direction p; lost when beta divides by zero. */
  datatype Direction = Lost | Along(v: seq<real>)

  /** dQ, r and p. */
  datatype State = State(x: seq<real>, r: seq<real>, p: Direction)

  datatype Outcome<T> = Undefined | Reached(value: T)

  ghost predicate Shaped(st: State, n: nat) {
    |st.x| == |st.r| == n && (st.p.Along? ==> |st.p.v| == n)
  }

  ghost function Start(a: seq<real> -> seq<real>, rhs: seq<real>): (st: State)
    requires Linear(a, |rhs|)
    ensures Shaped(st, |rhs|) && st.p == Along(st.r)
  {
    var r0 := Axpy(rhs, -1.0, Apply(a, Zeros(|rhs|)));
    State(Zeros(|rhs|), r0, Along(r0))
  }

  /** s = r - alpha A p */
  ghost function HalfResidual(a: seq<real> -> seq<real>, r: seq<real>, v: seq<real>, alpha: real): (s: seq<real>)
    requires Linear(a, |r|) && |v| == |r|
    ensures |s| == |r|
  {
    Axpy(r, -alpha, Apply(a, v))
  }

  /** dQ moved along both directions. */
  ghost function MovedSolution(a: seq<real> -> seq<real>, st: State, alpha: real, omega: real): (x: seq<real>)
    requires Linear(a, |st.x|) && Shaped(st, |st.x|) && st.p.Along?
    ensures |x| == |st.x|
  {
    Axpy(Axpy(st.x, alpha, st.p.v), omega, HalfResidual(a, st.r, st.p.v, alpha))
  }

  ghost function MovedResidual(a: seq<real> -> seq<real>, st: State, alpha: real, omega: real): (r: seq<real>)
    requires Linear(a, |st.x|) && Shaped(st, |st.x|) && st.p.Along?
    ensures |r| == |st.x|
  {
    var s := HalfResidual(a, st.r, st.p.v, alpha);
    Axpy(s, -omega, Apply(a, s))
  }

  /** alpha1, and alpha and omega when the pass has them. */
  datatype Lengths = Broken | Steps(alpha1: real, alpha: real, omega: real)

  ghost function LengthsOf(a: seq<real> -> seq<real>, r0: seq<real>, r: seq<real>, v: seq<real>): Lengths
    requires Linear(a, |r0|) && |r| == |v| == |r0|
  {
    var alpha1, down := Dot(r, r0), Dot(Apply(a, v), r0);
    if down == 0.0 then Broken else
    var s := HalfResidual(a, r, v, alpha1 / down);
    var size := Dot(Apply(a, s), Apply(a, s));
    if size == 0.0 then Broken else
    Steps(alpha1, alpha1 / down, Dot(Apply(a, s), s) / size)
  }

  function Beta(d: real, alpha1: real, alpha: real, omega: real): real
    requires alpha1 != 0.0 && omega != 0.0
  {
    d / alpha1 * (alpha / omega)
  }

  /** p = r + beta (p - omega A p), with beta divided by alpha1 and by omega. */
  ghost function TurnedDirection(a: seq<real> -> seq<real>, r0: seq<real>, r: seq<real>, v: seq<real>,
                                 steps: Lengths): (p: Direction)
    requires Linear(a, |r0|) && |r| == |v| == |r0| && steps.Steps?
    ensures p.Along? ==> |p.v| == |r0|
    ensures p.Lost? <==> steps.alpha1 == 0.0 || steps.omega == 0.0
  {
    if steps.alpha1 == 0.0 || steps.omega == 0.0 then Lost else
    Along(Axpy(r, Beta(Dot(r, r0), steps.alpha1, steps.alpha, steps.omega), Axpy(v, -steps.omega, Apply(a, v))))
  }

  ghost function Moved(a: seq<real> -> seq<real>, r0: seq<real>, st: State, steps: Lengths): (next: State)
    requires Linear(a, |r0|) && Shaped(st, |r0|) && st.p.Along? && steps.Steps?
    ensures Shaped(next, |r0|) && (next.p.Lost? <==> steps.alpha1 == 0.0 || steps.omega == 0.0)
  {
    var r := MovedResidual(a, st, steps.alpha, steps.omega);
    State(MovedSolution(a, st, steps.alpha, steps.omega), r, TurnedDirection(a, r0, r, st.p.v, steps))
  }

  /** One pass of the loop. */
  ghost function Iterate(a: seq<real> -> seq<real>, r0: seq<real>, st: State): (o: Outcome<State>)
    requires Linear(a, |r0|) && Shaped(st, |r0|)
    ensures o.Reached? ==> Shaped(o.value, |r0|)
  {
    if st.p.Lost? || LengthsOf(a, r0, st.r, st.p.v).Broken? then Undefined
    else Reached(Moved(a, r0, st, LengthsOf(a, r0, st.r, st.p.v)))
  }

  /** n passes. */
  ghost function Iterates(a: seq<real> -> seq<real>, rhs: seq<real>, n: nat): (o: Outcome<State>)
    requires Linear(a, |rhs|)
    ensures o.Reached? ==> Shaped(o.value, |rhs|)
  {
    if n == 0 then Reached(Start(a, rhs))
    else match Iterates(a, rhs, n - 1)
      case Undefined => Undefined
      case Reached(st) => Iterate(a, Start(a, rhs).r, st)
  }

  lemma {:induction false} UndefinedStays(a: seq<real> -> seq<real>, rhs: seq<real>, m: nat, n: nat)
    requires Linear(a, |rhs|) && m <= n && Iterates(a, rhs, m).Undefined?
    ensures Iterates(a, rhs, n).Undefined?
    decreases n
  {
    hide Linear, Iterate, Start;
    if m < n {
      UndefinedStays(a, rhs, m, n - 1);
    }
  }

  lemma LostBreaksDown(a: seq<real> -> seq<real>, rhs: seq<real>, n: nat)
    requires Linear(a, |rhs|) && Iterates(a, rhs, n).Reached? && Iterates(a, rhs, n).value.p.Lost?
    ensures Iterates(a, rhs, n + 1).Undefined?
  {
  }

  // ----- r is the true residual -----

  ghost predicate TrueResidual(a: seq<real> -> seq<real>, rhs: seq<real>, x: seq<real>, r: seq<real>)
    requires Linear(a, |rhs|) && |x| == |r| == |rhs|
  {
    r == Axpy(rhs, -1.0, Apply(a, x))
  }

  lemma StepAlgebra(b: real, x: real, r: real, alpha: real, ap: real)
    requires r == b + -1.0 * x
    ensures r + -alpha * ap == b + -1.0 * (x + alpha * ap)
  {
  }

  /** A step along v on x and on r, through the operator. */
  lemma StepKeepsResidual(a: seq<real> -> seq<real>, rhs: seq<real>, x: seq<real>, r: seq<real>, c: real, v: seq<real>)
    requires Linear(a, |rhs|) && |x| == |r| == |v| == |rhs| && TrueResidual(a, rhs, x, r)
    ensures TrueResidual(a, rhs, Axpy(x, c, v), Axpy(r, -c, Apply(a, v)))
  {
    assert LinearAt(a, |rhs|, x, c, v);
    var ax, av := Apply(a, x), Apply(a, v);
    forall k | 0 <= k < |rhs|
      ensures r[k] + -c * av[k] == rhs[k] + -1.0 * (ax[k] + c * av[k])
    {
      StepAlgebra(rhs[k], ax[k], r[k], c, av[k]);
    }
  }

  /** Whatever the step lengths, moving dQ moves r with it. */
  lemma MoveKeepsResidual(a: seq<real> -> seq<real>, rhs: seq<real>, st: State, alpha: real, omega: real)
    requires Linear(a, |rhs|) && Shaped(st, |rhs|) && st.p.Along? && TrueResidual(a, rhs, st.x, st.r)
    ensures TrueResidual(a, rhs, Axpy(st.x, alpha, st.p.v), HalfResidual(a, st.r, st.p.v, alpha))
    ensures TrueResidual(a, rhs, MovedSolution(a, st, alpha, omega), MovedResidual(a, st, alpha, omega))
  {
    hide Axpy, Linear, TrueResidual;
    var s := HalfResidual(a, st.r, st.p.v, alpha);
    StepKeepsResidual(a, rhs, st.x, st.r, alpha, st.p.v);
    StepKeepsResidual(a, rhs, Axpy(st.x, alpha, st.p.v), s, omega, s);
  }

  lemma StartResidual(a: seq<real> -> seq<real>, rhs: seq<real>)
    requires Linear(a, |rhs|)
    ensures TrueResidual(a, rhs, Start(a, rhs).x, Start(a, rhs).r)
  {
  }

  /** At every iterate there is, r == rhs - A dQ. */
  lemma {:induction false} ResidualIsTrue(a: seq<real> -> seq<real>, rhs: seq<real>, n: nat)
    requires Linear(a, |rhs|) && Iterates(a, rhs, n).Reached?
    ensures var st := Iterates(a, rhs, n).value; TrueResidual(a, rhs, st.x, st.r)
  {
    hide Linear, LengthsOf, MovedSolution, MovedResidual, TurnedDirection, Axpy, Apply, TrueResidual, Start;
    if n == 0 {
      StartResidual(a, rhs);
    } else {
      ResidualIsTrue(a, rhs, n - 1);
      var st := Iterates(a, rhs, n - 1).value;
      var steps := LengthsOf(a, Start(a, rhs).r, st.r, st.p.v);
      MoveKeepsResidual(a, rhs, st, steps.alpha, steps.omega);
    }
  }

  // ----- when the divisions have a divisor -----

  lemma ZeroMapsToZero(a: seq<real> -> seq<real>, n: nat)
    requires Linear(a, n)
    ensures Apply(a, Zeros(n)) == Zeros(n)
  {
    var z := Zeros(n);
    assert LinearAt(a, n, z, -1.0, z);
    assert Axpy(z, -1.0, z) == z;
    var az := Apply(a, z);
    forall k | 0 <= k < n
      ensures az[k] == 0.0
    {
      assert az[k] == Axpy(az, -1.0, az)[k];
    }
  }

  /** Only zero is mapped to zero. */
  ghost predicate Injective(a: seq<real> -> seq<real>, n: nat)
    requires Linear(a, n)
  {
    forall x | |x| == n :: Apply(a, x) == Zeros(n) ==> x == Zeros(n)
  }

  lemma ResidualZero(a: seq<real> -> seq<real>, rhs: seq<real>, x: seq<real>, r: seq<real>)
    requires Linear(a, |rhs|) && |x| == |r| == |rhs| && TrueResidual(a, rhs, x, r)
    ensures r == Zeros(|rhs|) <==> Apply(a, x) == rhs
  {
    var ax := Apply(a, x);
    if r == Zeros(|rhs|) {
      forall k | 0 <= k < |rhs|
        ensures ax[k] == rhs[k]
      {
        assert r[k] == rhs[k] + -1.0 * ax[k];
      }
    }
  }

  /** When a solution is unique, a pass breaks down in exactly two cases: A p is orthogonal to
      r0, or the step of length alpha already solves the system, so that s is zero. */
  lemma BreaksDownIff(a: seq<real> -> seq<real>, rhs: seq<real>, r0: seq<real>, st: State)
    requires Linear(a, |rhs|) && Injective(a, |rhs|) && |r0| == |rhs|
    requires Shaped(st, |rhs|) && st.p.Along? && TrueResidual(a, rhs, st.x, st.r)
    ensures var down := Dot(Apply(a, st.p.v), r0);
            LengthsOf(a, r0, st.r, st.p.v).Broken? <==>
            down == 0.0 || Apply(a, Axpy(st.x, Dot(st.r, r0) / down, st.p.v)) == rhs
  {
    hide Linear, Injective, TrueResidual, Axpy, Dot;
    var down := Dot(Apply(a, st.p.v), r0);
    if down != 0.0 {
      var alpha := Dot(st.r, r0) / down;
      var s := HalfResidual(a, st.r, st.p.v, alpha);
      MoveKeepsResidual(a, rhs, st, alpha, 0.0);
      ResidualZero(a, rhs, Axpy(st.x, alpha, st.p.v), s);
      NormZero(Apply(a, s));
      ImageZero(a, s);
    }
  }

  lemma ImageZero(a: seq<real> -> seq<real>, s: seq<real>)
    requires Linear(a, |s|) && Injective(a, |s|)
    ensures Apply(a, s) == Zeros(|s|) <==> s == Zeros(|s|)
  {
    hide Linear;
    ZeroMapsToZero(a, |s|);
  }

  /** Once the residual is zero the next pass divides by zero: more passes than the system
      needs leave nothing defined. */
  lemma SolvedBreaksDown(a: seq<real> -> seq<real>, r0: seq<real>, st: State)
    requires Linear(a, |r0|) && Shaped(st, |r0|) && st.r == Zeros(|r0|)
    ensures Iterate(a, r0, st).Undefined?
  {
    hide Linear, Dot, Axpy;
    if st.p.Along? {
      var down := Dot(Apply(a, st.p.v), r0);
      ZeroProduct(st.r, r0);
      if down != 0.0 {
        assert 0.0 / down == 0.0;
        var s := HalfResidual(a, st.r, st.p.v, 0.0);
        NoStep(a, st.r, st.p.v);
        ZeroMapsToZero(a, |r0|);
        ZeroProduct(Apply(a, s), Apply(a, s));
      }
    }
  }

  lemma NoStep(a: seq<real> -> seq<real>, r: seq<real>, v: seq<real>)
    requires Linear(a, |r|) && |v| == |r|
    ensures HalfResidual(a, r, v, 0.0) == r
  {
  }

  /** A right-hand side the operator only stretches is solved by half a pass, and so leaves no
      pass with a value. */
  lemma StretchedBreaksDown(a: seq<real> -> seq<real>, rhs: seq<real>, stretch: real, n: nat)
    requires Linear(a, |rhs|) && Apply(a, rhs) == ScaledBy(stretch, rhs) && n >= 1
    ensures Iterates(a, rhs, n).Undefined?
  {
    hide Linear, Dot, Axpy;
    StartIs(a, rhs);
    var down := Dot(Apply(a, rhs), rhs);
    StretchedDot(rhs, stretch);
    if down != 0.0 {
      var s := HalfResidual(a, rhs, rhs, Dot(rhs, rhs) / down);
      InverseStretch(stretch, Dot(rhs, rhs), down);
      StretchedHalf(a, rhs, stretch, Dot(rhs, rhs) / down);
      ZeroMapsToZero(a, |rhs|);
      ZeroProduct(Apply(a, s), Apply(a, s));
    }
    assert Iterates(a, rhs, 0) == Reached(Start(a, rhs));
    assert Iterates(a, rhs, 1) == Iterate(a, rhs, Start(a, rhs));
    UndefinedStays(a, rhs, 1, n);
  }

  lemma StartIs(a: seq<real> -> seq<real>, rhs: seq<real>)
    requires Linear(a, |rhs|)
    ensures Start(a, rhs) == State(Zeros(|rhs|), rhs, Along(rhs))
  {
    ZeroMapsToZero(a, |rhs|);
    assert Axpy(rhs, -1.0, Zeros(|rhs|)) == rhs;
  }

  lemma StretchedDot(x: seq<real>, stretch: real)
    ensures Dot(ScaledBy(stretch, x), x) == stretch * Dot(x, x)
  {
    var stretched, plain := Products(ScaledBy(stretch, x), x), Products(x, x);
    forall k | 0 <= k < |x|
      ensures stretched[k] == stretch * plain[k]
    {
      assert stretch * x[k] * x[k] == stretch * (x[k] * x[k]);
    }
    SumScaled(stretched, stretch, plain);
  }

  lemma StretchedHalf(a: seq<real> -> seq<real>, rhs: seq<real>, stretch: real, alpha: real)
    requires Linear(a, |rhs|) && Apply(a, rhs) == ScaledBy(stretch, rhs) && alpha * stretch == 1.0
    ensures HalfResidual(a, rhs, rhs, alpha) == Zeros(|rhs|)
  {
    hide Linear;
    var s := HalfResidual(a, rhs, rhs, alpha);
    forall k | 0 <= k < |rhs|
      ensures s[k] == 0.0
    {
      Undone(alpha, stretch, rhs[k]);
    }
  }

  lemma InverseStretch(stretch: real, d: real, down: real)
    requires down == stretch * d && down != 0.0
    ensures d / down * stretch == 1.0
  {
    var alpha := d / down;
    assert alpha * down == d;
    assert (alpha * stretch - 1.0) * d == 0.0;
  }

  lemma Undone(alpha: real, stretch: real, x: real)
    requires alpha * stretch == 1.0
    ensures x + -alpha * (stretch * x) == 0.0
  {
    assert alpha * (stretch * x) == (alpha * stretch) * x;
  }
}
