/** The diffusion problem on the whole grid, without ranks, arrays or matrices: each cell
    exchanges with its four sides, a neighbour or the boundary half a cell away. It is the
    reference the distributed code is compared with. */
module Stencil {
  import opened RealFacts

  datatype Side = Left | Right | Bottom | Top

  /** An nx by ny grid: the area over distance of its inner faces across x and across y, the
      volume of its cells, the explicit time step, and the boundary values. */
  datatype Problem = Problem(nx: nat, ny: nat, wx: real, wy: real, volume: real, dt: real,
                             left: real, right: real, bottom: real, top: real)
  {
    ghost predicate Valid() {
      nx >= 2 && ny >= 2 && wx > 0.0 && wy > 0.0 && volume > 0.0 && dt > 0.0
    }

    /** delta_t / volume, as compute_time_step chooses it. */
    ghost predicate StepChosen() {
      Valid() && dt * (2.0 * (wx + wy + 2.0)) == volume
    }

    function Boundary(s: Side): real {
      match s
      case Left => left
      case Right => right
      case Bottom => bottom
      case Top => top
    }
  }

  ghost predicate IsCell(p: Problem, i: int, j: int) {
    p.Valid() && 0 <= i < p.nx && 0 <= j < p.ny
  }

  /** One value per cell; f[j][i] belongs to column i of row j. */
  ghost predicate IsField(p: Problem, f: seq<seq<real>>) {
    p.Valid() && |f| == p.ny && forall j :: 0 <= j < |f| ==> |f[j]| == p.nx
  }

  /** The same value in every cell. */
  ghost function Uniform(p: Problem, value: real): (f: seq<seq<real>>)
    requires p.Valid()
    ensures IsField(p, f) && forall i, j :: IsCell(p, i, j) ==> f[j][i] == value
  {
    seq(p.ny, j => seq(p.nx, i => value))
  }

  /** h == f + a g, cell by cell. */
  ghost predicate Combined(p: Problem, h: seq<seq<real>>, f: seq<seq<real>>, a: real, g: seq<seq<real>>)
    requires IsField(p, h) && IsField(p, f) && IsField(p, g)
  {
    forall i, j :: IsCell(p, i, j) ==> h[j][i] == f[j][i] + a * g[j][i]
  }

  predicate HasNeighbour(p: Problem, i: int, j: int, s: Side) {
    match s
    case Left => i > 0
    case Right => i < p.nx - 1
    case Bottom => j > 0
    case Top => j < p.ny - 1
  }

  function Weight(p: Problem, s: Side): real {
    if s.Left? || s.Right? then p.wx else p.wy
  }

  /** The boundary is half a cell away. */
  function Conductance(p: Problem, i: int, j: int, s: Side): real {
    if HasNeighbour(p, i, j, s) then Weight(p, s) else 2.0 * Weight(p, s)
  }

  ghost function Across(p: Problem, f: seq<seq<real>>, i: int, j: int, s: Side): real
    requires IsField(p, f) && IsCell(p, i, j) && HasNeighbour(p, i, j, s)
  {
    match s
    case Left => f[j][i - 1]
    case Right => f[j][i + 1]
    case Bottom => f[j - 1][i]
    case Top => f[j + 1][i]
  }

  /** What lies across a side: the neighbour's value or the boundary's. */
  ghost function Beyond(p: Problem, f: seq<seq<real>>, i: int, j: int, s: Side): real
    requires IsField(p, f) && IsCell(p, i, j)
  {
    if HasNeighbour(p, i, j, s) then Across(p, f, i, j, s) else p.Boundary(s)
  }

  ghost function SideFlux(p: Problem, f: seq<seq<real>>, i: int, j: int, s: Side): real
    requires IsField(p, f) && IsCell(p, i, j)
  {
    Flow(Beyond(p, f, i, j, s), f[j][i], Conductance(p, i, j, s))
  }

  /** The residual of a cell: minus the fluxes through its four sides. */
  ghost function ResidualOf(p: Problem, f: seq<seq<real>>, i: int, j: int): real
    requires IsField(p, f) && IsCell(p, i, j)
  {
    -(SideFlux(p, f, i, j, Left) + SideFlux(p, f, i, j, Right) + SideFlux(p, f, i, j, Bottom)
      + SideFlux(p, f, i, j, Top))
  }

  function TotalConductance(p: Problem, i: int, j: int): real {
    Conductance(p, i, j, Left) + Conductance(p, i, j, Right) + Conductance(p, i, j, Bottom) + Conductance(p, i, j, Top)
  }

  // ----- the numbers of the unit square -----

  /** dx = 1 / nx, dy = 1 / ny; a face across x has area dy and distance dx, one across y the
      reverse; delta_t is what compute_time_step finds for the explicit solver. */
  ghost predicate UnitSquare(p: Problem) {
    && p.nx >= 2 && p.ny >= 2
    && p.wx == p.nx as real / p.ny as real && p.wy == p.ny as real / p.nx as real
    && p.volume == 1.0 / p.nx as real * (1.0 / p.ny as real)
    && p.dt == 1.0 / ((p.nx + p.ny) as real * (p.nx + p.ny) as real * 2.0)
  }

  lemma WeightsOf(x: real, y: real)
    requires x > 0.0 && y > 0.0
    ensures x / y > 0.0 && y / x > 0.0
    ensures x * y * (x / y + y / x) == x * x + y * y
  {
    var a, b := x / y, y / x;
    Quotient(x, y);
    Quotient(y, x);
    assert x * y * a == x * (a * y) && x * y * b == y * (b * x);
  }

  lemma VolumeOf(x: real, y: real)
    requires x > 0.0 && y > 0.0
    ensures 1.0 / x * (1.0 / y) * (x * y) == 1.0 && 1.0 / x * (1.0 / y) > 0.0
  {
    var a, b := 1.0 / x, 1.0 / y;
    Quotient(1.0, x);
    Quotient(1.0, y);
    assert a * b * (x * y) == (a * x) * (b * y);
  }

  lemma StepAlgebra(t: real, v: real, u: real, x: real, y: real)
    requires x > 0.0 && y > 0.0
    requires t * ((x + y) * (x + y) * 2.0) == 1.0 && v * (x * y) == 1.0
    requires x * y * u == x * x + y * y
    ensures t * (2.0 * (u + 2.0)) == v
  {
    var w := x * y;
    assert (x + y) * (x + y) == w * u + 2.0 * w;
    assert (x + y) * (x + y) * 2.0 == w * (2.0 * (u + 2.0));
    var k := 2.0 * (u + 2.0);
    assert t * (w * k) == 1.0;
    assert (t * k) * w == 1.0;
    assert (t * k - v) * w == 0.0;
  }

  lemma UnitSquareValid(p: Problem)
    requires UnitSquare(p)
    ensures p.StepChosen()
  {
    var x, y := p.nx as real, p.ny as real;
    var s := (p.nx + p.ny) as real;
    WeightsOf(x, y);
    VolumeOf(x, y);
    Quotient(1.0, s * s * 2.0);
    StepAlgebra(p.dt, p.volume, p.wx + p.wy, x, y);
  }
}
