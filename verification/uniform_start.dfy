/** What the explicit solver can reach: it starts from one value in all cells and keeps the
    boundary values of the four sides. Such a run never leaves the bounds of these values, on
    any grid, although a single step of an arbitrary field may. The run is a sum of the
    responses to the start, to the left side and so on; none of them is ever negative. */
module UniformStart {
  import opened RealFacts
  import opened Vectors
  import opened Stencil
  import opened GridSymmetry
  import opened MaxPrinciple
  import opened RowCones

  // ----- explicit runs are linear -----

  /** Boundary values p1 + c p2 on the same grid. */
  ghost predicate ProblemCombined(p: Problem, p1: Problem, c: real, p2: Problem) {
    && SameGrid(p, p1) && SameGrid(p, p2)
    && forall s: Side :: p.Boundary(s) == p1.Boundary(s) + c * p2.Boundary(s)
  }

  ghost predicate SameGrid(p: Problem, q: Problem) {
    p.nx == q.nx && p.ny == q.ny && p.wx == q.wx && p.wy == q.wy && p.volume == q.volume && p.dt == q.dt
  }

  lemma FlowCombined(x: real, a: real, y: real, b: real, c: real, w: real)
    ensures Flow(x + c * y, a + c * b, w) == Flow(x, a, w) + c * Flow(y, b, w)
  {
    var d, e := x - a, y - b;
    assert x + c * y - (a + c * b) == d + c * e;
    assert (d + c * e) * w == d * w + c * (e * w);
  }

  lemma FluxCombined(p: Problem, f: seq<seq<real>>, p1: Problem, f1: seq<seq<real>>, c: real, p2: Problem,
                     f2: seq<seq<real>>, i: int, j: int, s: Side)
    requires ProblemCombined(p, p1, c, p2) && IsField(p, f) && IsField(p1, f1) && IsField(p2, f2) && IsCell(p, i, j)
    requires IsField(p, f1) && IsField(p, f2) && Combined(p, f, f1, c, f2)
    ensures SideFlux(p, f, i, j, s) == SideFlux(p1, f1, i, j, s) + c * SideFlux(p2, f2, i, j, s)
  {
    assert Beyond(p, f, i, j, s) == Beyond(p1, f1, i, j, s) + c * Beyond(p2, f2, i, j, s);
    FlowCombined(Beyond(p1, f1, i, j, s), f1[j][i], Beyond(p2, f2, i, j, s), f2[j][i], c, Conductance(p, i, j, s));
  }

  lemma UpdatedCombined(x: real, r: real, x1: real, r1: real, c: real, x2: real, r2: real, t: real, v: real)
    requires v > 0.0 && x == x1 + c * x2 && r == r1 + c * r2
    ensures Updated(x, r, t, v) == Updated(x1, r1, t, v) + c * Updated(x2, r2, t, v)
  {
    var a, b := r1 * t / v, r2 * t / v;
    assert a * v == r1 * t && b * v == r2 * t;
    assert r * t == (a + c * b) * v;
    assert r * t / v == a + c * b;
  }

  lemma StepCombined(p: Problem, f: seq<seq<real>>, p1: Problem, f1: seq<seq<real>>, c: real, p2: Problem,
                     f2: seq<seq<real>>)
    requires ProblemCombined(p, p1, c, p2) && IsField(p, f) && IsField(p1, f1) && IsField(p2, f2)
    requires IsField(p, f1) && IsField(p, f2) && Combined(p, f, f1, c, f2)
    ensures IsField(p, ExplicitStep(p1, f1)) && IsField(p, ExplicitStep(p2, f2))
    ensures Combined(p, ExplicitStep(p, f), ExplicitStep(p1, f1), c, ExplicitStep(p2, f2))
  {
    hide SideFlux, Updated;
    forall i, j | IsCell(p, i, j)
      ensures ExplicitStep(p, f)[j][i] == ExplicitStep(p1, f1)[j][i] + c * ExplicitStep(p2, f2)[j][i]
    {
      assert IsCell(p1, i, j) && IsCell(p2, i, j);
      FluxCombined(p, f, p1, f1, c, p2, f2, i, j, Left);
      FluxCombined(p, f, p1, f1, c, p2, f2, i, j, Right);
      FluxCombined(p, f, p1, f1, c, p2, f2, i, j, Bottom);
      FluxCombined(p, f, p1, f1, c, p2, f2, i, j, Top);
      Distribute(c, SideFlux(p2, f2, i, j, Left), SideFlux(p2, f2, i, j, Right), SideFlux(p2, f2, i, j, Bottom),
                 SideFlux(p2, f2, i, j, Top));
      assert ResidualOf(p, f, i, j) == ResidualOf(p1, f1, i, j) + c * ResidualOf(p2, f2, i, j);
      assert f[j][i] == f1[j][i] + c * f2[j][i];
      UpdatedCombined(f[j][i], ResidualOf(p, f, i, j), f1[j][i], ResidualOf(p1, f1, i, j), c, f2[j][i],
                      ResidualOf(p2, f2, i, j), p.dt, p.volume);
    }
  }

  lemma {:induction false} RunCombined(p: Problem, f: seq<seq<real>>, p1: Problem, f1: seq<seq<real>>, c: real,
                                       p2: Problem, f2: seq<seq<real>>, steps: nat)
    requires ProblemCombined(p, p1, c, p2) && IsField(p, f) && IsField(p1, f1) && IsField(p2, f2)
    requires IsField(p, f1) && IsField(p, f2) && Combined(p, f, f1, c, f2)
    ensures IsField(p, ExplicitRun(p1, f1, steps)) && IsField(p, ExplicitRun(p2, f2, steps))
    ensures Combined(p, ExplicitRun(p, f, steps), ExplicitRun(p1, f1, steps), c, ExplicitRun(p2, f2, steps))
  {
    hide ProblemCombined, Combined, IsField, ExplicitStep;
    if steps > 0 {
      RunCombined(p, f, p1, f1, c, p2, f2, steps - 1);
      StepCombined(p, ExplicitRun(p, f, steps - 1), p1, ExplicitRun(p1, f1, steps - 1), c, p2,
                   ExplicitRun(p2, f2, steps - 1));
    }
  }

  // ----- a step, row by row -----

  /** The row with its neighbour below or above; at the boundary the two halves of twice the
      boundary value. */
  ghost function WithBelow(p: Problem, f: seq<seq<real>>, j: int): (r: seq<real>)
    requires IsField(p, f) && 0 <= j < p.ny
    ensures |r| == p.nx
  {
    if j > 0 then Plus(f[j], f[j - 1]) else Constant(p.nx, 2.0 * p.bottom)
  }

  ghost function WithAbove(p: Problem, f: seq<seq<real>>, j: int): (r: seq<real>)
    requires IsField(p, f) && 0 <= j < p.ny
    ensures |r| == p.nx
  {
    if j < p.ny - 1 then Plus(f[j], f[j + 1]) else Constant(p.nx, 2.0 * p.top)
  }

  /** What a step divides by. */
  function Whole(p: Problem): real {
    2.0 * (p.wx + p.wy + 2.0)
  }

  ghost function Gathered(p: Problem, f: seq<seq<real>>, j: int): (r: seq<real>)
    requires IsField(p, f) && 0 <= j < p.ny
    ensures |r| == p.nx
  {
    Plus(Spread(4.0 - 2.0 * p.wy, p.wx, f[j], p.left, p.right),
         ScaledBy(p.wy, Plus(WithBelow(p, f, j), WithAbove(p, f, j))))
  }

  lemma UpdatedTimes(x: real, r: real, t: real, v: real, d: real)
    requires v > 0.0 && t * d == v
    ensures d * Updated(x, r, t, v) == d * x - r
  {
    var y := r * t / v;
    assert y * v == r * t;
    assert d * y * v == r * v;
    assert (d * y - r) * v == 0.0;
  }

  /** A side's flux is its weight times the difference to the neighbour or mirror image. */
  lemma FluxAcrossX(p: Problem, f: seq<seq<real>>, i: int, j: int)
    requires IsField(p, f) && IsCell(p, i, j)
    ensures SideFlux(p, f, i, j, Left) == p.wx * (At(f[j], p.left, p.right, i - 1) - f[j][i])
    ensures SideFlux(p, f, i, j, Right) == p.wx * (At(f[j], p.left, p.right, i + 1) - f[j][i])
  {
  }

  lemma FluxAcrossY(p: Problem, f: seq<seq<real>>, i: int, j: int)
    requires IsField(p, f) && IsCell(p, i, j)
    ensures SideFlux(p, f, i, j, Bottom) == p.wy * (WithBelow(p, f, j)[i] - 2.0 * f[j][i])
    ensures SideFlux(p, f, i, j, Top) == p.wy * (WithAbove(p, f, j)[i] - 2.0 * f[j][i])
  {
  }

  lemma GatherAlgebra(wx: real, wy: real, x: real, l: real, r: real, b: real, t: real)
    ensures 2.0 * (wx + wy + 2.0) * x + (wx * (l - x) + wx * (r - x) + wy * (b - 2.0 * x) + wy * (t - 2.0 * x))
            == Mix(4.0 - 2.0 * wy, wx, x, l + r) + wy * (b + t)
  {
  }

  lemma CellGathered(p: Problem, f: seq<seq<real>>, i: int, j: int)
    requires p.StepChosen() && IsField(p, f) && IsCell(p, i, j)
    ensures Whole(p) * ExplicitStep(p, f)[j][i] == Gathered(p, f, j)[i]
  {
    hide SideFlux, Updated, At, WithBelow, WithAbove, Mix;
    UpdatedTimes(f[j][i], ResidualOf(p, f, i, j), p.dt, p.volume, Whole(p));
    FluxAcrossX(p, f, i, j);
    FluxAcrossY(p, f, i, j);
    GatherAlgebra(p.wx, p.wy, f[j][i], At(f[j], p.left, p.right, i - 1), At(f[j], p.left, p.right, i + 1),
                  WithBelow(p, f, j)[i], WithAbove(p, f, j)[i]);
  }

  /** One over what a step divides by. */
  function Part(p: Problem): real
    requires p.Valid()
  {
    1.0 / Whole(p)
  }

  lemma PartOf(p: Problem, x: real, y: real)
    requires p.Valid() && Whole(p) * x == y
    ensures x == Part(p) * y && Part(p) > 0.0
  {
    DivideOut(Whole(p), x, y);
    Quotient(1.0, Whole(p));
  }

  lemma RowGathered(p: Problem, f: seq<seq<real>>, j: int)
    requires p.StepChosen() && IsField(p, f) && 0 <= j < p.ny
    ensures ExplicitStep(p, f)[j] == ScaledBy(Part(p), Gathered(p, f, j))
  {
    hide Gathered, ExplicitStep, Whole, Part;
    var row, gathered := ExplicitStep(p, f)[j], Gathered(p, f, j);
    forall i | 0 <= i < p.nx
      ensures row[i] == ScaledBy(Part(p), gathered)[i]
    {
      CellGathered(p, f, i, j);
      PartOf(p, row[i], gathered[i]);
    }
  }

  // ----- the response to the left side -----

  ghost predicate AllFalling(p: Problem, f: seq<seq<real>>, top: real)
    requires IsField(p, f)
  {
    forall j :: 0 <= j < p.ny ==> Falling(f[j], top)
  }

  lemma NeighboursFall(p: Problem, f: seq<seq<real>>, j: int, top: real)
    requires IsField(p, f) && 0 <= j < p.ny && top >= 0.0 && p.bottom == p.top == 0.0 && AllFalling(p, f, top)
    ensures Falling(WithBelow(p, f, j), 2.0 * top) && Falling(WithAbove(p, f, j), 2.0 * top)
  {
    hide Falling;
    FallingZero(p.nx, 2.0 * top);
    if j > 0 {
      FallingSum(f[j], top, f[j - 1], top);
    } else {
      assert WithBelow(p, f, j) == Zeros(p.nx);
    }
    if j < p.ny - 1 {
      FallingSum(f[j], top, f[j + 1], top);
    } else {
      assert WithAbove(p, f, j) == Zeros(p.nx);
    }
  }

  lemma WholeSplits(p: Problem, x: real)
    ensures Mix(4.0 - 2.0 * p.wy, p.wx, x, 2.0 * x) + p.wy * (2.0 * x + 2.0 * x) == Whole(p) * x
  {
  }

  lemma GatheredFalls(p: Problem, f: seq<seq<real>>, j: int, top: real, most: real)
    requires most == Whole(p) * top
    requires IsField(p, f) && 0 <= j < p.ny && p.wy <= 1.0 && p.left == top >= 0.0
             && p.right == p.bottom == p.top == 0.0
    requires AllFalling(p, f, top)
    ensures Falling(Gathered(p, f, j), most)
  {
    hide Falling, Spread, Whole, Mix, WithBelow, WithAbove;
    var below, above, h := WithBelow(p, f, j), WithAbove(p, f, j), 4.0 - 2.0 * p.wy;
    NeighboursFall(p, f, j, top);
    FallingSum(below, 2.0 * top, above, 2.0 * top);
    FallingScaled(p.wy, Plus(below, above), 2.0 * top + 2.0 * top);
    FallingSpread(h, p.wx, f[j], top);
    FallingSum(Spread(h, p.wx, f[j], top, 0.0), Mix(h, p.wx, top, 2.0 * top),
               ScaledBy(p.wy, Plus(below, above)), p.wy * (2.0 * top + 2.0 * top));
    WholeSplits(p, top);
  }

  lemma FallingPart(c: real, row: seq<real>, most: real, top: real)
    requires c >= 0.0 && Falling(row, most) && top == c * most
    ensures Falling(ScaledBy(c, row), top)
  {
    FallingScaled(c, row, most);
  }

  lemma FallingStep(p: Problem, f: seq<seq<real>>)
    requires p.StepChosen() && IsField(p, f) && p.wy <= 1.0 && p.left >= 0.0 && p.right == p.bottom == p.top == 0.0
    requires AllFalling(p, f, p.left)
    ensures AllFalling(p, ExplicitStep(p, f), p.left)
  {
    hide Falling, Gathered, Whole, Part;
    var most := Whole(p) * p.left;
    PartOf(p, p.left, most);
    forall j | 0 <= j < p.ny
      ensures Falling(ExplicitStep(p, f)[j], p.left)
    {
      GatheredFalls(p, f, j, p.left, most);
      RowGathered(p, f, j);
      FallingPart(Part(p), Gathered(p, f, j), most, p.left);
    }
  }

  lemma {:induction false} LeftResponse(p: Problem, steps: nat)
    requires p.StepChosen() && p.wy <= 1.0 && p.left >= 0.0 && p.right == p.bottom == p.top == 0.0
    ensures AllFalling(p, ExplicitRun(p, Uniform(p, 0.0), steps), p.left)
  {
    hide ExplicitStep;
    if steps > 0 {
      LeftResponse(p, steps - 1);
      FallingStep(p, ExplicitRun(p, Uniform(p, 0.0), steps - 1));
    }
  }

  // ----- the response to the start, the bottom and the top -----

  ghost predicate AllBalanced(p: Problem, f: seq<seq<real>>)
    requires IsField(p, f)
  {
    forall j :: 0 <= j < p.ny ==> Balanced(f[j])
  }

  /** The longer side of the grid is along the rows. */
  ghost predicate Wide(p: Problem) {
    p.StepChosen() && p.wy <= 1.0 <= p.wx && 2.0 * p.wx <= p.nx as real
  }

  lemma GatheredBalanced(p: Problem, f: seq<seq<real>>, j: int)
    requires IsField(p, f) && 0 <= j < p.ny && Wide(p) && p.left == p.right == 0.0 && p.bottom >= 0.0 && p.top >= 0.0
    requires AllBalanced(p, f)
    ensures Balanced(Gathered(p, f, j))
  {
    hide Balanced, Spread;
    BalancedConstant(p.nx, 2.0 * p.bottom);
    BalancedConstant(p.nx, 2.0 * p.top);
    if j > 0 {
      BalancedSum(f[j], f[j - 1]);
    }
    if j < p.ny - 1 {
      BalancedSum(f[j], f[j + 1]);
    }
    var below, above := WithBelow(p, f, j), WithAbove(p, f, j);
    BalancedSum(below, above);
    BalancedScaled(p.wy, Plus(below, above));
    BalancedSpread(4.0 - 2.0 * p.wy, p.wx, f[j]);
    BalancedSum(Spread(4.0 - 2.0 * p.wy, p.wx, f[j], 0.0, 0.0), ScaledBy(p.wy, Plus(below, above)));
  }

  lemma BalancedStep(p: Problem, f: seq<seq<real>>)
    requires IsField(p, f) && Wide(p) && p.left == p.right == 0.0 && p.bottom >= 0.0 && p.top >= 0.0
             && AllBalanced(p, f)
    ensures AllBalanced(p, ExplicitStep(p, f))
  {
    hide Balanced, Gathered, Part;
    forall j | 0 <= j < p.ny
      ensures Balanced(ExplicitStep(p, f)[j])
    {
      GatheredBalanced(p, f, j);
      RowGathered(p, f, j);
      PartOf(p, 0.0, 0.0);
      BalancedScaled(Part(p), Gathered(p, f, j));
    }
  }

  lemma {:induction false} AlongResponse(p: Problem, start: real, steps: nat)
    requires Wide(p) && p.left == p.right == 0.0 && p.bottom >= 0.0 && p.top >= 0.0 && start >= 0.0
    ensures AllBalanced(p, ExplicitRun(p, Uniform(p, start), steps))
  {
    hide ExplicitStep, Balanced;
    if steps == 0 {
      BalancedConstant(p.nx, start);
      forall j | 0 <= j < p.ny
        ensures Balanced(Uniform(p, start)[j])
      {
        assert Uniform(p, start)[j] == Constant(p.nx, start);
      }
    } else {
      AlongResponse(p, start, steps - 1);
      BalancedStep(p, ExplicitRun(p, Uniform(p, start), steps - 1));
    }
  }

  // ----- no response is negative -----

  ghost predicate SidesNotNegative(p: Problem) {
    p.left >= 0.0 && p.right >= 0.0 && p.bottom >= 0.0 && p.top >= 0.0
  }

  ghost predicate NeverNegative(p: Problem, start: real, steps: nat)
    requires p.Valid()
  {
    forall i, j :: IsCell(p, i, j) ==> ExplicitRun(p, Uniform(p, start), steps)[j][i] >= 0.0
  }

  lemma LeftNotNegative(p: Problem, steps: nat)
    requires Wide(p) && p.left >= 0.0 && p.right == p.bottom == p.top == 0.0
    ensures NeverNegative(p, 0.0, steps)
  {
    LeftResponse(p, steps);
    var run := ExplicitRun(p, Uniform(p, 0.0), steps);
    forall i, j | IsCell(p, i, j)
      ensures run[j][i] >= 0.0
    {
      assert Falling(run[j], p.left);
    }
  }

  /** The right side's response is the left one's, mirrored. */
  lemma RightNotNegative(p: Problem, steps: nat)
    requires Wide(p) && p.right >= 0.0 && p.left == p.bottom == p.top == 0.0
    ensures NeverNegative(p, 0.0, steps)
  {
    hide ExplicitRun, Uniform;
    LeftNotNegative(TurnedProblem(Mirrored, p), steps);
    forall i, j | IsCell(p, i, j)
      ensures ExplicitRun(p, Uniform(p, 0.0), steps)[j][i] >= 0.0
    {
      UniformRunTurned(Mirrored, p, 0.0, steps, i, j);
    }
  }

  lemma AlongNotNegative(p: Problem, start: real, steps: nat)
    requires Wide(p) && p.left == p.right == 0.0 && p.bottom >= 0.0 && p.top >= 0.0 && start >= 0.0
    ensures NeverNegative(p, start, steps)
  {
    hide Balanced;
    AlongResponse(p, start, steps);
    var run := ExplicitRun(p, Uniform(p, start), steps);
    forall i, j | IsCell(p, i, j)
      ensures run[j][i] >= 0.0
    {
      BalancedNotNegative(run[j], i);
    }
  }

  /** Responses add up. */
  lemma RunIsSum(p: Problem, start: real, p1: Problem, start1: real, c: real, p2: Problem, start2: real, steps: nat,
                 i: int, j: int)
    requires ProblemCombined(p, p1, c, p2) && start == start1 + c * start2 && IsCell(p, i, j)
    ensures p1.Valid() && p2.Valid() && IsCell(p1, i, j) && IsCell(p2, i, j)
    ensures ExplicitRun(p, Uniform(p, start), steps)[j][i]
            == ExplicitRun(p1, Uniform(p1, start1), steps)[j][i] + c * ExplicitRun(p2, Uniform(p2, start2), steps)[j][i]
  {
    hide ExplicitStep;
    assert IsCell(p1, i, j) && IsCell(p2, i, j);
    forall k, l | IsCell(p, k, l)
      ensures Uniform(p, start)[l][k] == Uniform(p1, start1)[l][k] + c * Uniform(p2, start2)[l][k]
    {
      assert IsCell(p1, k, l) && IsCell(p2, k, l);
    }
    RunCombined(p, Uniform(p, start), p1, Uniform(p1, start1), c, p2, Uniform(p2, start2), steps);
  }

  lemma WideNotNegative(p: Problem, start: real, steps: nat)
    requires Wide(p) && SidesNotNegative(p) && start >= 0.0
    ensures NeverNegative(p, start, steps)
  {
    hide ExplicitRun, Uniform;
    var along := p.(left := 0.0, right := 0.0);
    var left := p.(right := 0.0, bottom := 0.0, top := 0.0);
    var right := p.(left := 0.0, bottom := 0.0, top := 0.0);
    var rest := p.(right := 0.0);
    AlongNotNegative(along, start, steps);
    LeftNotNegative(left, steps);
    RightNotNegative(right, steps);
    forall i, j | IsCell(p, i, j)
      ensures ExplicitRun(p, Uniform(p, start), steps)[j][i] >= 0.0
    {
      RunIsSum(rest, start, along, start, 1.0, left, 0.0, steps, i, j);
      RunIsSum(p, start, rest, start, 1.0, right, 0.0, steps, i, j);
    }
  }

  lemma LongFactors(x: real, y: real, a: real, b: real)
    requires x >= y >= 2.0 && a * y == x && b * x == y && a > 0.0
    ensures b <= 1.0 <= a && 2.0 * a <= x
  {
    Compare(y, 1.0, a);
    Compare(x, b, 1.0);
    Scale(a, 2.0, y);
  }

  lemma LongWeights(x: real, y: real)
    requires x >= y >= 2.0
    ensures y / x <= 1.0 <= x / y && 2.0 * (x / y) <= x
  {
    Quotient(x, y);
    Quotient(y, x);
    LongFactors(x, y, x / y, y / x);
  }

  lemma WideWhenLong(p: Problem)
    requires UnitSquare(p) && p.nx >= p.ny
    ensures Wide(p)
  {
    UnitSquareValid(p);
    LongWeights(p.nx as real, p.ny as real);
  }

  lemma UnitSquareTurned(p: Problem)
    requires UnitSquare(p)
    ensures UnitSquare(TurnedProblem(Transposed, p))
  {
  }

  /** A uniform start and sides that are not negative give a solution that never is, whatever
      the grid: along its longer side the rows stay balanced or falling. */
  lemma SolutionNotNegative(p: Problem, start: real, steps: nat)
    requires UnitSquare(p) && SidesNotNegative(p) && start >= 0.0
    ensures p.Valid() && NeverNegative(p, start, steps)
  {
    hide ExplicitRun, Uniform;
    UnitSquareValid(p);
    if p.nx >= p.ny {
      WideWhenLong(p);
      WideNotNegative(p, start, steps);
    } else {
      var q := TurnedProblem(Transposed, p);
      UnitSquareTurned(p);
      WideWhenLong(q);
      WideNotNegative(q, start, steps);
      forall i, j | IsCell(p, i, j)
        ensures ExplicitRun(p, Uniform(p, start), steps)[j][i] >= 0.0
      {
        UniformRunTurned(Transposed, p, start, steps, i, j);
      }
    }
  }

  // ----- bounds -----

  /** All sides at one value. */
  function Flat(p: Problem, value: real): Problem {
    p.(left := value, right := value, bottom := value, top := value)
  }

  lemma {:induction false} FlatRun(p: Problem, value: real, steps: nat)
    requires p.Valid()
    ensures ExplicitRun(Flat(p, value), Uniform(Flat(p, value), value), steps) == Uniform(Flat(p, value), value)
  {
    var q, f := Flat(p, value), Uniform(Flat(p, value), value);
    if steps > 0 {
      FlatRun(p, value, steps - 1);
      forall i, j | IsCell(q, i, j)
        ensures ExplicitStep(q, f)[j][i] == value
      {
        FlatCell(q, f, value, i, j);
      }
      assert forall j :: 0 <= j < q.ny ==> ExplicitStep(q, f)[j] == f[j];
    }
  }

  lemma FlatCell(p: Problem, f: seq<seq<real>>, value: real, i: int, j: int)
    requires p.left == p.right == p.bottom == p.top == value && IsField(p, f) && IsCell(p, i, j)
    requires forall i, j :: IsCell(p, i, j) ==> f[j][i] == value
    ensures ExplicitAt(p, f, i, j) == value
  {
    forall s: Side
      ensures SideFlux(p, f, i, j, s) == 0.0
    {
      match s
      case Left => if i > 0 { assert IsCell(p, i - 1, j); }
      case Right => if i < p.nx - 1 { assert IsCell(p, i + 1, j); }
      case Bottom => if j > 0 { assert IsCell(p, i, j - 1); }
      case Top => if j < p.ny - 1 { assert IsCell(p, i, j + 1); }
    }
  }

  /** How far p is above lo, and how far below hi. */
  function Above(p: Problem, lo: real): Problem {
    p.(left := p.left - lo, right := p.right - lo, bottom := p.bottom - lo, top := p.top - lo)
  }

  function Below(p: Problem, hi: real): Problem {
    p.(left := hi - p.left, right := hi - p.right, bottom := hi - p.bottom, top := hi - p.top)
  }

  lemma ShiftedSquare(p: Problem, lo: real, hi: real)
    requires UnitSquare(p)
    ensures UnitSquare(Above(p, lo)) && UnitSquare(Below(p, hi))
  {
  }

  lemma CellStaysAbove(p: Problem, start: real, lo: real, steps: nat, i: int, j: int)
    requires UnitSquare(Above(p, lo)) && lo <= start && SidesNotNegative(Above(p, lo)) && IsCell(p, i, j)
    ensures ExplicitRun(p, Uniform(p, start), steps)[j][i] >= lo
  {
    hide ExplicitRun, UnitSquare, Uniform;
    var q := Above(p, lo);
    SolutionNotNegative(q, start - lo, steps);
    assert IsCell(q, i, j) && IsCell(Flat(p, lo), i, j);
    RunIsSum(p, start, Flat(p, lo), lo, 1.0, q, start - lo, steps, i, j);
    FlatRun(p, lo, steps);
    UniformCell(Flat(p, lo), lo, i, j);
  }

  lemma CellStaysBelow(p: Problem, start: real, hi: real, steps: nat, i: int, j: int)
    requires UnitSquare(Below(p, hi)) && start <= hi && SidesNotNegative(Below(p, hi)) && IsCell(p, i, j)
    ensures ExplicitRun(p, Uniform(p, start), steps)[j][i] <= hi
  {
    hide ExplicitRun, UnitSquare, Uniform;
    var q := Below(p, hi);
    SolutionNotNegative(q, hi - start, steps);
    assert IsCell(q, i, j) && IsCell(Flat(p, hi), i, j);
    RunIsSum(p, start, Flat(p, hi), hi, -1.0, q, hi - start, steps, i, j);
    FlatRun(p, hi, steps);
    UniformCell(Flat(p, hi), hi, i, j);
  }

  lemma UniformCell(p: Problem, value: real, i: int, j: int)
    requires IsCell(p, i, j)
    ensures Uniform(p, value)[j][i] == value
  {
  }

  /** From a uniform start the solution stays within the bounds of the start and the four
      sides: at every step, on every grid. */
  lemma RunStaysBounded(p: Problem, start: real, lo: real, hi: real, steps: nat)
    requires UnitSquare(p) && lo <= start <= hi && BoundaryWithin(p, lo, hi)
    ensures p.Valid() && Within(p, ExplicitRun(p, Uniform(p, start), steps), lo, hi)
  {
    hide UnitSquare, ExplicitRun, Uniform;
    UnitSquareValid(p);
    ShiftedSquare(p, lo, hi);
    forall i, j | IsCell(p, i, j)
      ensures lo <= ExplicitRun(p, Uniform(p, start), steps)[j][i] <= hi
    {
      CellStaysAbove(p, start, lo, steps, i, j);
      CellStaysBelow(p, start, hi, steps, i, j);
    }
  }
}
