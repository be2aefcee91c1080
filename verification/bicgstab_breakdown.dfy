/** Exactly when the BiCGSTAB passes of the implicit solver have all their quotients, and starts
    from which they do not. The matrix being positive definite, omega never divides by zero
    before the system is solved; what remains is A p orthogonal to r0, r orthogonal to r0,
    and a system that is already solved. */
module BicgstabBreakdown {
  import opened Bicgstab
  import opened BicgstabPasses
  import opened BicgstabSteps
  import opened Contraction
  import opened GridLayout
  import opened GridOperator
  import opened GridPositive
  import opened ImplicitStepping
  import opened RankMesh
  import opened RealFacts
  import opened RealSums
  import opened Stencil
  import opened Vectors

  // ----- one pass -----

  lemma OnePass(a: seq<real> -> seq<real>, rhs: seq<real>, n: nat)
    requires Linear(a, |rhs|) && Iterates(a, rhs, n).Reached?
    ensures Iterates(a, rhs, n + 1) == Iterate(a, Start(a, rhs).r, Iterates(a, rhs, n).value)
  {
  }

  /** After n passes another one has alpha and omega exactly if the direction is not lost, A p
      is not orthogonal to r0, and the step of length alpha does not solve the system. */
  lemma PassDefinedIff(p: Problem, b: seq<real>, n: nat)
    requires p.Valid() && |b| == p.nx * p.ny && Linear(Times(p), |b|) && Iterates(Times(p), b, n).Reached?
    ensures var st, r0 := Iterates(Times(p), b, n).value, Start(Times(p), b).r;
            Iterates(Times(p), b, n + 1).Reached? <==>
            && st.p.Along?
            && Dot(Apply(Times(p), st.p.v), r0) != 0.0
            && Apply(Times(p), Axpy(st.x, Dot(st.r, r0) / Dot(Apply(Times(p), st.p.v), r0), st.p.v)) != b
  {
    hide Times, Linear, Dot, Axpy, Iterates, Start, LengthsOf, TrueResidual, Injective;
    OnePass(Times(p), b, n);
    ResidualIsTrue(Times(p), b, n);
    TimesInjective(p);
    var st := Iterates(Times(p), b, n).value;
    if st.p.Along? {
      BreaksDownIff(Times(p), b, Start(Times(p), b).r, st);
    }
  }

  /** It then has beta too exactly if r is not orthogonal to r0: omega is not zero. */
  lemma DirectionLostIff(p: Problem, b: seq<real>, n: nat)
    requires p.Valid() && |b| == p.nx * p.ny && Linear(Times(p), |b|)
    requires Iterates(Times(p), b, n).Reached? && Iterates(Times(p), b, n + 1).Reached?
    ensures Iterates(Times(p), b, n + 1).value.p.Lost? <==>
            Dot(Iterates(Times(p), b, n).value.r, Start(Times(p), b).r) == 0.0
  {
    hide Times, Linear, Dot, Axpy, Iterates, Start, HalfResidual, TurnedDirection;
    OnePass(Times(p), b, n);
    var st, r0 := Iterates(Times(p), b, n).value, Start(Times(p), b).r;
    OmegaNotZero(p, r0, st.r, st.p.v);
  }

  lemma OmegaNotZero(p: Problem, r0: seq<real>, r: seq<real>, v: seq<real>)
    requires p.Valid() && |r0| == |r| == |v| == p.nx * p.ny && Linear(Times(p), |r0|)
             && LengthsOf(Times(p), r0, r, v).Steps?
    ensures LengthsOf(Times(p), r0, r, v).omega != 0.0
  {
    hide Times, Linear, Dot, Axpy, HalfResidual;
    var s := HalfResidual(Times(p), r, v, Dot(r, r0) / Dot(Apply(Times(p), v), r0));
    var sa := Apply(Times(p), s);
    ProductPositive(p, s);
    ZeroMapsToZero(Times(p), |s|);
    NormZero(sa);
    SquareNotNegative(sa);
    QuotientNotZero(Dot(sa, s), Dot(sa, sa));
  }

  lemma QuotientNotZero(a: real, b: real)
    requires a != 0.0 && b > 0.0
    ensures a / b != 0.0
  {
    Quotient(a, b);
  }

  // ----- the first pass -----

  /** The operator only stretches b. */
  ghost predicate Stretched(a: seq<real> -> seq<real>, b: seq<real>)
    requires Linear(a, |b|)
  {
    exists stretch: real :: Apply(a, b) == ScaledBy(stretch, b)
  }

  /** The first pass exists exactly if the right-hand side is no eigenvector, nor zero. */
  lemma FirstPassIff(p: Problem, b: seq<real>)
    requires p.Valid() && |b| == p.nx * p.ny && Linear(Times(p), |b|)
    ensures Iterates(Times(p), b, 1).Reached? <==> !Stretched(Times(p), b)
  {
    hide Times, Linear, Dot, Axpy, ScaledBy;
    if Stretched(Times(p), b) {
      var stretch :| Apply(Times(p), b) == ScaledBy(stretch, b);
      StretchedBreaksDown(Times(p), b, stretch, 1);
    } else {
      FirstPassExists(p, b);
    }
  }

  lemma FirstPassExists(p: Problem, b: seq<real>)
    requires p.Valid() && |b| == p.nx * p.ny && Linear(Times(p), |b|) && !Stretched(Times(p), b)
    ensures Iterates(Times(p), b, 1).Reached?
  {
    hide Times, Linear, Dot, Axpy, Stretched, Iterate, Apply;
    var a := Times(p);
    assert Iterates(a, b, 0) == Reached(Start(a, b));
    StartIs(a, b);
    PassDefinedIff(p, b, 0);
    ProductPositive(p, b);
    if b == Zeros(|b|) {
      ZeroIsStretched(a, b);
    }
    var down := Dot(Apply(a, b), b);
    SquareNotNegative(b);
    NormZero(b);
    if Apply(a, Axpy(Zeros(|b|), Dot(b, b) / down, b)) == b {
      Quotient(Dot(b, b), down);
      SolvedIsStretched(a, b, Dot(b, b) / down);
    }
  }

  lemma ZeroIsStretched(a: seq<real> -> seq<real>, b: seq<real>)
    requires Linear(a, |b|) && b == Zeros(|b|)
    ensures Stretched(a, b)
  {
    ZeroMapsToZero(a, |b|);
    assert Apply(a, b) == ScaledBy(0.0, b);
  }

  lemma SolvedIsStretched(a: seq<real> -> seq<real>, b: seq<real>, alpha: real)
    requires Linear(a, |b|) && alpha > 0.0 && Apply(a, Axpy(Zeros(|b|), alpha, b)) == b
    ensures Stretched(a, b)
  {
    var z, ab := Zeros(|b|), Apply(a, b);
    ZeroMapsToZero(a, |b|);
    assert LinearAt(a, |b|, z, alpha, b);
    var inverse := 1.0 / alpha;
    var scaled := ScaledBy(inverse, b);
    forall k | 0 <= k < |b|
      ensures ab[k] == scaled[k]
    {
      assert b[k] == z[k] + alpha * ab[k];
      Undone(inverse, alpha, ab[k]);
    }
    assert ab == scaled;
  }

  // ----- starts without a step -----

  /** At a steady state the solver divides zero by zero. */
  lemma SteadyStateBreaksDown(p: Problem, f: seq<seq<real>>, numIter: nat)
    requires p.Valid() && IsField(p, f) && numIter >= 1
             && forall i, j :: IsCell(p, i, j) ==> ResidualOf(p, f, i, j) == 0.0
    ensures !StepDefined(p, f, numIter)
  {
    hide ResidualOf, Times;
    TimesIsLinear(p);
    var n := p.nx * p.ny;
    var b := Flatten(p, RhsOf(p, f));
    forall c | 0 <= c < n
      ensures b[c] == 0.0
    {
      CellOfNumber(p.nx, p.ny, c);
      assert IsCell(p, c % p.nx, c / p.nx);
    }
    assert b == Zeros(n);
    ZeroMapsToZero(Times(p), n);
    assert ScaledBy(0.0, Zeros(n)) == Zeros(n);
    StretchedBreaksDown(Times(p), b, 0.0, numIter);
  }

  lemma EqualNeighbours(p: Problem, f: seq<seq<real>>, value: real, stretch: real, i: int, j: int)
    requires IsField(p, f) && IsCell(p, i, j) && p.nx == p.ny == 2
             && forall i, j :: IsCell(p, i, j) ==> f[j][i] == value
    requires stretch == ImplicitTimeTerm(p) + 2.0 * (p.wx + p.wy)
    ensures RowOf(p, f, i, j) == stretch * value
  {
    hide ImplicitTimeTerm;
    assert IsCell(p, 1 - i, j) && IsCell(p, i, 1 - j);
    var w := p.wx + p.wy;
    assert NeighbourSum(p, f, i, j) == p.wx * value + p.wy * value;
    assert DiagonalOf(p, i, j) == stretch + w;
    assert (stretch + w) * value - (p.wx * value + p.wy * value) == stretch * value;
  }

  lemma EqualSides(p: Problem, f: seq<seq<real>>, value: real, i: int, j: int)
    requires IsField(p, f) && IsCell(p, i, j) && p.nx == p.ny == 2
             && forall i, j :: IsCell(p, i, j) ==> f[j][i] == value
    requires p.left == p.right == p.bottom == p.top
    ensures ResidualOf(p, f, i, j) == 2.0 * (p.wx + p.wy) * (value - p.left)
  {
    assert IsCell(p, 1 - i, j) && IsCell(p, i, 1 - j);
    var wx, wy, d := p.wx, p.wy, p.left - value;
    assert SideFlux(p, f, i, j, if i == 0 then Left else Right) == d * (2.0 * wx);
    assert SideFlux(p, f, i, j, if j == 0 then Bottom else Top) == d * (2.0 * wy);
    assert SideFlux(p, f, i, j, if i == 0 then Right else Left) == 0.0;
    assert SideFlux(p, f, i, j, if j == 0 then Top else Bottom) == 0.0;
    assert ResidualOf(p, f, i, j) == -(d * (2.0 * wx) + d * (2.0 * wy));
  }

  lemma FlatEntry(p: Problem, b: seq<real>, value: real, stretch: real, c: nat)
    requires p.Valid() && p.nx == p.ny == 2 && |b| == 4 && c < 4 && forall c :: 0 <= c < 4 ==> b[c] == value
    requires stretch == ImplicitTimeTerm(p) + 2.0 * (p.wx + p.wy)
    ensures |Times(p)(b)| == 4 && Times(p)(b)[c] == stretch * value
  {
    hide RowOf, Times, ImplicitTimeTerm, FieldOf;
    TimesLength(p, b);
    var f := FieldOf(p, b);
    forall i, j | IsCell(p, i, j)
      ensures f[j][i] == value
    {
      FieldOfAt(p, b, i, j);
    }
    CellOfNumber(p.nx, p.ny, c);
    TimesAt(p, b, c);
    EqualNeighbours(p, f, value, stretch, c % p.nx, c / p.nx);
  }

  lemma FlatIsStretched(p: Problem, b: seq<real>, value: real, stretch: real)
    requires p.Valid() && p.nx == p.ny == 2 && |b| == 4 && Linear(Times(p), 4)
             && forall c :: 0 <= c < 4 ==> b[c] == value
    requires stretch == ImplicitTimeTerm(p) + 2.0 * (p.wx + p.wy)
    ensures Apply(Times(p), b) == ScaledBy(stretch, b)
  {
    hide Times, ImplicitTimeTerm, Linear;
    var product, scaled := Apply(Times(p), b), ScaledBy(stretch, b);
    forall c | 0 <= c < 4
      ensures product[c] == scaled[c]
    {
      FlatEntry(p, b, value, stretch, c);
    }
  }

  /** On two by two cells with equal sides the first half of a pass solves the system, whatever
      the uniform start: the second half divides zero by zero. */
  lemma FourCellsBreakDown(p: Problem, start: real, numIter: nat)
    requires p.Valid() && p.nx == p.ny == 2 && p.left == p.right == p.bottom == p.top && numIter >= 1
    ensures !StepDefined(p, Uniform(p, start), numIter)
  {
    hide ResidualOf, RowOf, Times, ImplicitTimeTerm, Iterates, ScaledBy;
    TimesIsLinear(p);
    var f := Uniform(p, start);
    var rhs := -(2.0 * (p.wx + p.wy) * (start - p.left));
    var b := Flatten(p, RhsOf(p, f));
    forall c | 0 <= c < 4
      ensures b[c] == rhs
    {
      CellOfNumber(p.nx, p.ny, c);
      EqualSides(p, f, start, c % p.nx, c / p.nx);
    }
    var stretch := ImplicitTimeTerm(p) + 2.0 * (p.wx + p.wy);
    FlatIsStretched(p, b, rhs, stretch);
    StretchedBreaksDown(Times(p), b, stretch, numIter);
  }

  /** So the run from there has no first step. */
  lemma FourCellsHaveNoRun(p: Problem, start: real, numIter: nat, steps: nat)
    requires p.Valid() && p.nx == p.ny == 2 && p.left == p.right == p.bottom == p.top && numIter >= 1 && steps >= 1
    ensures BicgstabRun(p, Uniform(p, start), numIter, steps).Undefined?
  {
    hide StepDefined, BicgstabStep;
    FourCellsBreakDown(p, start, numIter);
    assert BicgstabRun(p, Uniform(p, start), numIter, 0) == Reached(Uniform(p, start));
    UndefinedRunStays(p, Uniform(p, start), numIter, 1, steps);
  }

  /** With one side held at one and the rest at zero the first pass does exist. */
  lemma HeatedSideHasFirstPass(p: Problem)
    requires p.Valid() && p.nx == p.ny == 2 && p.left == 1.0 && p.right == p.bottom == p.top == 0.0
    ensures StepDefined(p, Uniform(p, 0.0), 1)
  {
    hide Times, ImplicitTimeTerm;
    TimesIsLinear(p);
    var f := Uniform(p, 0.0);
    var b := Flatten(p, RhsOf(p, f));
    HeatedRhs(p);
    HeatedEntry(p, b);
    FirstPassIff(p, b);
    NotStretchedAt(Times(p), b, 1);
  }

  lemma NotStretchedAt(a: seq<real> -> seq<real>, b: seq<real>, k: nat)
    requires Linear(a, |b|) && k < |b| && b[k] == 0.0 && Apply(a, b)[k] != 0.0
    ensures !Stretched(a, b)
  {
    forall stretch: real
      ensures Apply(a, b) != ScaledBy(stretch, b)
    {
      assert ScaledBy(stretch, b)[k] == 0.0;
    }
  }

  lemma HeatedEntry(p: Problem, b: seq<real>)
    requires p.Valid() && p.nx == p.ny == 2 && |b| == 4 && b[0] == b[2] == 2.0 * p.wx && b[1] == b[3] == 0.0
    ensures |Times(p)(b)| == 4 && Times(p)(b)[1] < 0.0
  {
    hide Times;
    TimesLength(p, b);
    TimesAt(p, b, 1);
    FieldOfAt(p, b, 0, 0);
    FieldOfAt(p, b, 1, 0);
    FieldOfAt(p, b, 1, 1);
    var f := FieldOf(p, b);
    assert NeighbourSum(p, f, 1, 0) == p.wx * (2.0 * p.wx) + p.wy * 0.0;
    PositiveProduct(p.wx, 2.0 * p.wx);
  }

  // ----- the heated side has no second pass -----

  /** y and z in the two columns. */
  ghost predicate Columns(x: seq<real>, y: real, z: real) {
    |x| == 4 && x[0] == x[2] == y && x[1] == x[3] == z
  }

  lemma ColumnEntry(p: Problem, x: seq<real>, y: real, z: real, e: real, c: nat)
    requires p.Valid() && p.nx == p.ny == 2 && Columns(x, y, z) && c < 4
    requires e == ImplicitTimeTerm(p) + 3.0 * p.wx + 2.0 * p.wy
    ensures |Times(p)(x)| == 4 && Times(p)(x)[c] == if c % 2 == 0 then e * y - p.wx * z else e * z - p.wx * y
  {
    hide Times, ImplicitTimeTerm, FieldOf;
    var f, i, j := FieldOf(p, x), c % 2, c / 2;
    TimesAt(p, x, c);
    FieldOfAt(p, x, i, j);
    FieldOfAt(p, x, 1 - i, j);
    FieldOfAt(p, x, i, 1 - j);
    var here, other := if i == 0 then y else z, if i == 0 then z else y;
    assert f[j][i] == here && f[1 - j][i] == here && f[j][1 - i] == other;
    assert NeighbourSum(p, f, i, j) == p.wx * other + p.wy * here;
    assert DiagonalOf(p, i, j) == e + p.wy;
    assert (e + p.wy) * here == e * here + p.wy * here;
  }

  lemma ColumnsImage(p: Problem, x: seq<real>, y: real, z: real, e: real, y': real, z': real)
    requires p.Valid() && p.nx == p.ny == 2 && Columns(x, y, z) && Linear(Times(p), 4)
    requires e == ImplicitTimeTerm(p) + 3.0 * p.wx + 2.0 * p.wy && y' == e * y - p.wx * z && z' == e * z - p.wx * y
    ensures Columns(Apply(Times(p), x), y', z')
  {
    hide Times, Linear, ImplicitTimeTerm;
    ColumnEntry(p, x, y, z, e, 0);
    ColumnEntry(p, x, y, z, e, 1);
    ColumnEntry(p, x, y, z, e, 2);
    ColumnEntry(p, x, y, z, e, 3);
  }

  lemma ColumnsDotBoth(x: seq<real>, y: real, z: real, b: seq<real>, h: real, k: real)
    requires Columns(x, y, z) && Columns(b, h, k)
    ensures Dot(x, b) == 2.0 * (y * h + z * k)
  {
    var s := Products(x, b);
    assert SumTo(s, 0) == 0.0;
    assert SumTo(s, 1) == SumTo(s, 0) + s[0];
    assert SumTo(s, 2) == SumTo(s, 1) + s[1];
    assert SumTo(s, 3) == SumTo(s, 2) + s[2];
    assert SumTo(s, 4) == SumTo(s, 3) + s[3];
  }

  lemma ColumnsDot(x: seq<real>, y: real, z: real, b: seq<real>, h: real)
    requires Columns(x, y, z) && Columns(b, h, 0.0)
    ensures Dot(x, b) == 2.0 * (y * h)
  {
    ColumnsDotBoth(x, y, z, b, h, 0.0);
  }

  lemma ColumnsInPlane(b: seq<real>, h: real, d: seq<real>, y: real, z: real, dd: seq<real>, y': real, z': real,
                       u: real, w: real)
    requires Columns(b, h, 0.0) && Columns(d, y, z) && Columns(dd, y', z') && y' == u * y + w * h && z' == u * z
    ensures dd == Axpy(ScaledBy(u, d), w, b)
  {
    var plane := Axpy(ScaledBy(u, d), w, b);
    forall k | 0 <= k < 4
      ensures dd[k] == plane[k]
    {
      assert w * 0.0 == 0.0;
    }
  }

  lemma HeatedAlgebra(h: real, e: real, w: real, y: real, z: real, y': real, z': real, u: real, v: real)
    requires y == e * h && z == -w * h && y' == e * y - w * z && z' == e * z - w * y
    requires u == 2.0 * e && v == w * w - e * e
    ensures y' == u * y + v * h && z' == u * z
  {
    var a, b := e * h, w * h;
    assert z == -b && y' == e * a + w * b && z' == -(e * b) - w * a;
    assert e * b == w * a;
    assert u * y == 2.0 * (e * a) && u * z == -2.0 * (e * b);
    assert v * h == w * b - e * a;
  }

  lemma Doubled(x: real, y: real, p: real, q: real, product: real)
    requires p == 2.0 * x && q == 2.0 * y && product == x * y
    ensures p * q == 4.0 * product
  {
  }

  lemma SquaresDiffer(p: real, q: real, r: real, big: real, small: real)
    requires p * r == 4.0 * big && q * q == 4.0 * small && big > small
    ensures p * r != q * q
  {
  }

  lemma Exceeds(n: real, d: real, big: real)
    requires d > 0.0 && big == n * n + d * d
    ensures big > n * n
  {
    var square := d * d;
    PositiveSquare(d, square);
  }

  /** h h (y' h) exceeds the square of y h by that of w h h. */
  lemma HeatedExcess(h: real, w: real, y: real, y': real, e: real)
    requires y == e * h && y' == e * y + w * (w * h)
    ensures h * h * (y' * h) == y * h * (y * h) + w * h * h * (w * h * h)
  {
    var a := w * (w * h);
    assert y' * h == e * y * h + a * h;
    assert h * h * (e * y * h) == y * h * (y * h) by {
      assert h * (e * y) == y * y;
    }
    assert h * h * (a * h) == w * h * h * (w * h * h);
  }

  lemma HeatedIndependent(h: real, w: real, y: real, y': real, e: real, p: real, q: real, r: real)
    requires h > 0.0 && w > 0.0 && y == e * h && y' == e * y + w * (w * h)
    requires p == 2.0 * (h * h) && q == 2.0 * (y * h) && r == 2.0 * (y' * h)
    ensures p * r != q * q
  {
    PositiveProduct(w, h);
    PositiveProduct(w * h, h);
    HeatedExcess(h, w, y, y', e);
    Exceeds(y * h, w * h * h, h * h * (y' * h));
    Doubled(h * h, y' * h, p, r, h * h * (y' * h));
    Doubled(y * h, y * h, q, q, y * h * (y * h));
    SquaresDiffer(p, q, r, h * h * (y' * h), y * h * (y * h));
  }

  lemma HeatedPlane(p: Problem, b: seq<real>, h: real) returns (u: real, v: real)
    requires p.Valid() && p.nx == p.ny == 2 && Columns(b, h, 0.0) && h > 0.0 && Linear(Times(p), 4)
    ensures InPlane(Times(p), b, u, v) && Independent(Times(p), b)
  {
    hide Times, Linear, ImplicitTimeTerm, Dot, Axpy, ScaledBy;
    var d, w, e := Apply(Times(p), b), p.wx, ImplicitTimeTerm(p) + 3.0 * p.wx + 2.0 * p.wy;
    var dd, y, z := Apply(Times(p), d), e * h, -w * h;
    var y', z' := e * y - w * z, e * z - w * y;
    u, v := 2.0 * e, w * w - e * e;
    ColumnsImage(p, b, h, 0.0, e, y, z);
    ColumnsImage(p, d, y, z, e, y', z');
    ColumnsDot(b, h, 0.0, b, h);
    ColumnsDot(d, y, z, b, h);
    ColumnsDot(dd, y', z', b, h);
    HeatedAlgebra(h, e, w, y, z, y', z', u, v);
    HeatedIndependent(h, w, y, y', e, Dot(b, b), Dot(d, b), Dot(dd, b));
    ColumnsInPlane(b, h, d, y, z, dd, y', z', u, v);
  }

  /** It is also the only one: the second pass has solved the system half way. */
  lemma HeatedSideHasOnePass(p: Problem, numIter: nat)
    requires p.Valid() && p.nx == p.ny == 2 && p.left == 1.0 && p.right == p.bottom == p.top == 0.0
    ensures StepDefined(p, Uniform(p, 0.0), numIter) <==> numIter <= 1
  {
    hide Times, ImplicitTimeTerm, InPlane, Independent, Linear, Iterates;
    TimesIsLinear(p);
    var b := Flatten(p, RhsOf(p, Uniform(p, 0.0)));
    HeatedRhs(p);
    if numIter >= 2 {
      var u, v := HeatedPlane(p, b, 2.0 * p.wx);
      PlaneBreaksDown(Times(p), b, u, v, numIter);
    } else if numIter == 1 {
      HeatedSideHasFirstPass(p);
    } else {
      NoPassIsDefined(p, Uniform(p, 0.0));
    }
  }

  lemma NoPassIsDefined(p: Problem, f: seq<seq<real>>)
    requires p.Valid() && IsField(p, f)
    ensures StepDefined(p, f, 0)
  {
    TimesIsLinear(p);
  }

  lemma HeatedRhs(p: Problem)
    requires p.Valid() && p.nx == p.ny == 2 && p.left == 1.0 && p.right == p.bottom == p.top == 0.0
    ensures Columns(Flatten(p, RhsOf(p, Uniform(p, 0.0))), 2.0 * p.wx, 0.0)
  {
    assert IsCell(p, 0, 0) && IsCell(p, 1, 0) && IsCell(p, 0, 1) && IsCell(p, 1, 1);
  }
}
