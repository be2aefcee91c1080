/** The three solvers with the left side held at one and everything else at zero, in numbers: the
    first explicit step on any grid, and more on two by two cells. */
module HeatedSide {
  import opened Bicgstab
  import opened BicgstabBreakdown
  import opened BicgstabPasses
  import opened BicgstabSteps
  import opened Contraction
  import opened ExplicitBalance
  import opened GridOperator
  import opened ImplicitStepping
  import opened MaxPrinciple
  import opened RankMesh
  import opened RealFacts
  import opened Stencil
  import opened Vectors

  // ----- any grid -----

  lemma FirstStepAlgebra(x: real, y: real, s: real, w: real, v: real, t: real, value: real)
    requires v * (x * y) == 1.0 && t * (s * s * 2.0) == 1.0 && w * y == x && value * v == t * (2.0 * w)
    ensures value * (s * s) == x * x
  {
    assert value == value * v * (x * y);
    assert t * (2.0 * w) * (x * y) == 2.0 * t * (x * (w * y));
    assert value == 2.0 * t * (x * x);
    assert 2.0 * t * (x * x) * (s * s) == t * (s * s * 2.0) * (x * x);
  }

  /** On every grid the first explicit step takes the cells at the warm side to
      nx^2 / (nx + ny)^2, and no other cell anywhere. */
  lemma FirstExplicitStep(p: Problem, i: int, j: int)
    requires UnitSquare(p) && p.left == 1.0 && p.right == p.bottom == p.top == 0.0 && IsCell(p, i, j)
    ensures ExplicitRun(p, Uniform(p, 0.0), 1)[j][i] * ((p.nx + p.ny) as real * (p.nx + p.ny) as real)
            == if i == 0 then p.nx as real * p.nx as real else 0.0
  {
    hide UnitSquare, ResidualOf, Uniform, ExplicitRun, Gains;
    var f, s := Uniform(p, 0.0), (p.nx + p.ny) as real;
    RunBalance(p, f, 0);
    ColdResidual(p, i, j);
    var value := ExplicitRun(p, f, 1)[j][i];
    GainIs(p, f, ExplicitRun(p, f, 1), i, j);
    UnitNumbers(p);
    if i == 0 {
      FirstStepAlgebra(p.nx as real, p.ny as real, s, p.wx, p.volume, p.dt, value);
    } else {
      assert value * p.volume == 0.0;
    }
  }

  lemma ColdResidual(p: Problem, i: int, j: int)
    requires p.left == 1.0 && p.right == p.bottom == p.top == 0.0 && IsCell(p, i, j)
    ensures ResidualOf(p, Uniform(p, 0.0), i, j) == if i == 0 then -(2.0 * p.wx) else 0.0
  {
  }

  lemma GainIs(p: Problem, f: seq<seq<real>>, g: seq<seq<real>>, i: int, j: int)
    requires Gains(p, f, g) && IsCell(p, i, j) && f == Uniform(p, 0.0)
    ensures g[j][i] * p.volume == -p.dt * ResidualOf(p, f, i, j)
  {
    hide ResidualOf;
    assert f[j][i] == 0.0;
  }

  lemma UnitNumbers(p: Problem)
    requires UnitSquare(p)
    ensures var x, y, s := p.nx as real, p.ny as real, (p.nx + p.ny) as real;
            p.wx * y == x && p.volume * (x * y) == 1.0 && p.dt * (s * s * 2.0) == 1.0
  {
    var x, y, s := p.nx as real, p.ny as real, (p.nx + p.ny) as real;
    VolumeOf(x, y);
    Quotient(x, y);
    Quotient(1.0, s * s * 2.0);
  }

  // ----- two by two cells -----

  ghost predicate Heated(p: Problem) {
    UnitSquare(p) && p.nx == p.ny == 2 && p.left == 1.0 && p.right == p.bottom == p.top == 0.0
  }

  lemma Numbers(p: Problem)
    requires Heated(p)
    ensures p.StepChosen() && p.wx == p.wy == 1.0 && p.volume == 0.25 && p.dt == 1.0 / 32.0
    ensures ImplicitTimeTerm(p) == 0.8
  {
    UnitSquareValid(p);
  }

  /** One value in each column. */
  ghost predicate InColumns(p: Problem, f: seq<seq<real>>, left: real, right: real) {
    IsField(p, f) && forall i, j :: IsCell(p, i, j) ==> f[j][i] == if i == 0 then left else right
  }

  lemma ColumnResidual(p: Problem, f: seq<seq<real>>, x: real, y: real, i: int, j: int)
    requires Heated(p) && InColumns(p, f, x, y) && IsCell(p, i, j)
    ensures ResidualOf(p, f, i, j) == if i == 0 then 5.0 * x - y - 2.0 else 5.0 * y - x
  {
    Numbers(p);
    assert IsCell(p, 1 - i, j) && IsCell(p, i, 1 - j);
  }

  lemma ColumnStep(p: Problem, f: seq<seq<real>>, x: real, y: real, x': real, y': real)
    requires Heated(p) && InColumns(p, f, x, y)
    requires x' == x - (5.0 * x - y - 2.0) / 8.0 && y' == y - (5.0 * y - x) / 8.0
    ensures InColumns(p, ExplicitStep(p, f), x', y')
  {
    hide ResidualOf;
    Numbers(p);
    forall i, j | IsCell(p, i, j)
      ensures ExplicitStep(p, f)[j][i] == if i == 0 then x' else y'
    {
      ColumnResidual(p, f, x, y, i, j);
    }
  }

  /** A quarter after one explicit step; 11/32 and 1/32 after two. */
  lemma ExplicitAnswers(p: Problem)
    requires Heated(p) && p.Valid()
    ensures InColumns(p, ExplicitRun(p, Uniform(p, 0.0), 1), 0.25, 0.0)
    ensures InColumns(p, ExplicitRun(p, Uniform(p, 0.0), 2), 11.0 / 32.0, 1.0 / 32.0)
  {
    hide ExplicitStep, UnitSquare, Uniform;
    var f := Uniform(p, 0.0);
    assert ExplicitRun(p, f, 0) == f;
    assert ExplicitRun(p, f, 1) == ExplicitStep(p, f);
    ColumnStep(p, f, 0.0, 0.0, 0.25, 0.0);
    ColumnStep(p, ExplicitRun(p, f, 1), 0.25, 0.0, 11.0 / 32.0, 1.0 / 32.0);
  }

  /** 5/17 after one implicit step with one Jacobi sweep. */
  lemma JacobiAnswer(p: Problem)
    requires Heated(p) && p.StepChosen()
    ensures InColumns(p, ImplicitRun(p, Uniform(p, 0.0), 1, 1), 5.0 / 17.0, 0.0)
  {
    hide UnitSquare, ResidualOf, ImplicitTimeTerm;
    var f := Uniform(p, 0.0);
    Numbers(p);
    assert ImplicitRun(p, f, 1, 0) == f;
    assert JacobiRun(p, RhsOf(p, f), f, 0) == f;
    forall i, j | IsCell(p, i, j)
      ensures JacobiOf(p, RhsOf(p, f), f, i, j) == if i == 0 then 5.0 / 17.0 else 0.0
    {
      ColumnResidual(p, f, 0.0, 0.0, i, j);
      assert IsCell(p, 1 - i, j) && IsCell(p, i, 1 - j);
      assert DiagonalOf(p, i, j) == 6.8;
    }
  }

  lemma ColumnsAxpy(x: seq<real>, y: real, z: real, a: real, d: seq<real>, h: real, k: real, y': real, z': real)
    requires Columns(x, y, z) && Columns(d, h, k) && y' == y + a * h && z' == z + a * k
    ensures Columns(Axpy(x, a, d), y', z')
  {
  }

  lemma ColumnsTimes(p: Problem, x: seq<real>, y: real, z: real, y': real, z': real)
    requires Heated(p) && p.Valid() && Columns(x, y, z) && Linear(Times(p), 4)
    requires y' == 5.8 * y - z && z' == 5.8 * z - y
    ensures Columns(Apply(Times(p), x), y', z')
  {
    hide Times, Linear, ImplicitTimeTerm, UnitSquare;
    Numbers(p);
    ColumnsImage(p, x, y, z, 5.8, y', z');
  }

  /** The half residual of the first pass, and its image. */
  lemma FirstHalf(p: Problem, b: seq<real>) returns (s: seq<real>)
    requires Heated(p) && p.Valid() && Columns(b, 2.0, 0.0) && Linear(Times(p), 4)
    ensures Columns(s, 0.0, 10.0 / 29.0) && Columns(Apply(Times(p), s), -10.0 / 29.0, 2.0)
    ensures IsHalf(Times(p), b, b, b, 5.0 / 29.0, s) && Dot(Apply(Times(p), b), b) != 0.0
  {
    hide Times, Linear, Axpy, UnitSquare, Dot;
    var ab := Apply(Times(p), b);
    ColumnsTimes(p, b, 2.0, 0.0, 11.6, -2.0);
    s := Axpy(b, -5.0 / 29.0, ab);
    ColumnsAxpy(b, 2.0, 0.0, -5.0 / 29.0, ab, 11.6, -2.0, 0.0, 10.0 / 29.0);
    ColumnsTimes(p, s, 0.0, 10.0 / 29.0, -10.0 / 29.0, 2.0);
    ColumnsDot(s, 0.0, 10.0 / 29.0, b, 2.0);
    ColumnsDot(ab, 11.6, -2.0, b, 2.0);
  }

  lemma FirstPass(p: Problem, b: seq<real>) returns (next: State)
    requires Heated(p) && p.Valid() && Columns(b, 2.0, 0.0) && Linear(Times(p), 4)
    ensures Iterate(Times(p), b, State(Zeros(4), b, Along(b))) == Reached(next)
    ensures Columns(next.x, 10.0 / 29.0, 25.0 / 433.0)
  {
    hide Times, Linear, Axpy, UnitSquare, Dot, Iterate;
    var s := FirstHalf(p, b);
    var image, omega := Apply(Times(p), s), 145.0 / 866.0;
    var r := Axpy(s, -omega, image);
    ColumnsAxpy(s, 0.0, 10.0 / 29.0, -omega, image, -10.0 / 29.0, 2.0, 25.0 / 433.0, 125.0 / 12557.0);
    ColumnsDotBoth(r, 25.0 / 433.0, 125.0 / 12557.0, image, -10.0 / 29.0, 2.0);
    var q := Axpy(s, 25.0 / 841.0, b);
    ColumnsAxpy(s, 0.0, 10.0 / 29.0, 25.0 / 841.0, b, 2.0, 0.0, 50.0 / 841.0, 10.0 / 29.0);
    var turned := Apply(Times(p), q);
    ColumnsTimes(p, q, 50.0 / 841.0, 10.0 / 29.0, 0.0, 1632.0 / 841.0);
    ColumnsDot(turned, 0.0, 1632.0 / 841.0, b, 2.0);
    var half := Axpy(Zeros(4), 5.0 / 29.0, b);
    ColumnsAxpy(Zeros(4), 0.0, 0.0, 5.0 / 29.0, b, 2.0, 0.0, 10.0 / 29.0, 0.0);
    ColumnsAxpy(half, 10.0 / 29.0, 0.0, omega, s, 0.0, 10.0 / 29.0, 10.0 / 29.0, 25.0 / 433.0);
    next := State(Axpy(half, omega, s), r, Along(Axpy(q, -omega, turned)));
    PassIsIterate(Times(p), b, State(Zeros(4), b, Along(b)), next, 5.0 / 29.0, omega, s, 25.0 / 841.0);
  }

  /** 10/29 and 25/433 after one implicit step with one pass of BiCGSTAB. */
  lemma BicgstabAnswer(p: Problem)
    requires Heated(p) && p.Valid()
    ensures BicgstabRun(p, Uniform(p, 0.0), 1, 1).Reached?
    ensures InColumns(p, BicgstabRun(p, Uniform(p, 0.0), 1, 1).value, 10.0 / 29.0, 25.0 / 433.0)
  {
    hide Times, Linear, UnitSquare, Iterate, RhsOf, FieldOf;
    var f := Uniform(p, 0.0);
    Numbers(p);
    TimesIsLinear(p);
    var b := Flatten(p, RhsOf(p, f));
    HeatedRhs(p);
    StartIs(Times(p), b);
    var next := FirstPass(p, b);
    assert Iterates(Times(p), b, 0) == Reached(Start(Times(p), b));
    assert Iterates(Times(p), b, 1) == Reached(next);
    assert BicgstabRun(p, f, 1, 0) == Reached(f);
    forall i, j | IsCell(p, i, j)
      ensures Change(p, f, 1)[j][i] == if i == 0 then 10.0 / 29.0 else 25.0 / 433.0
    {
      FieldOfAt(p, next.x, i, j);
    }
  }
}
