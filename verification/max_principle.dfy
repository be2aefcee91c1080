/** One explicit update. Applied to an arbitrary field it obeys a maximum principle exactly when
    nx^2 + ny^2 <= 4 nx ny; the fields the solver reaches stay in bounds on every grid
    (UniformStart). */
module MaxPrinciple {
  import opened RealFacts
  import opened Stencil

  /** Q -= residual * delta_t / volume. */
  function Updated(x: real, residual: real, t: real, v: real): real
    requires v > 0.0
  {
    x - residual * t / v
  }

  /** One explicit step of update_solution, for a cell. */
  ghost function ExplicitAt(p: Problem, f: seq<seq<real>>, i: int, j: int): real
    requires IsField(p, f) && IsCell(p, i, j)
  {
    Updated(f[j][i], ResidualOf(p, f, i, j), p.dt, p.volume)
  }

  ghost function ExplicitStep(p: Problem, f: seq<seq<real>>): (r: seq<seq<real>>)
    requires IsField(p, f)
    ensures IsField(p, r) && forall i, j :: IsCell(p, i, j) ==> r[j][i] == ExplicitAt(p, f, i, j)
  {
    seq(p.ny, j requires 0 <= j < p.ny => seq(p.nx, i requires 0 <= i < p.nx => ExplicitAt(p, f, i, j)))
  }

  ghost function ExplicitRun(p: Problem, f: seq<seq<real>>, steps: nat): (r: seq<seq<real>>)
    requires IsField(p, f)
    ensures IsField(p, r)
  {
    if steps == 0 then f else ExplicitStep(p, ExplicitRun(p, f, steps - 1))
  }

  ghost predicate Within(p: Problem, f: seq<seq<real>>, lo: real, hi: real)
    requires IsField(p, f)
  {
    forall i, j :: IsCell(p, i, j) ==> lo <= f[j][i] <= hi
  }

  ghost predicate BoundaryWithin(p: Problem, lo: real, hi: real) {
    lo <= p.left <= hi && lo <= p.right <= hi && lo <= p.bottom <= hi && lo <= p.top <= hi
  }

  /** Every step of every run, whatever field it starts from, stays within the bounds of its
      initial and boundary values. */
  ghost predicate KeepsBounds(nx: nat, ny: nat) {
    forall p: Problem, f: seq<seq<real>>, lo: real, hi: real, steps: nat ::
      p.nx == nx && p.ny == ny && UnitSquare(p) && IsField(p, f) && Within(p, f, lo, hi)
        && BoundaryWithin(p, lo, hi) ==>
        Within(p, ExplicitRun(p, f, steps), lo, hi)
  }

  // ----- the condition -----

  ghost predicate Stable(nx: nat, ny: nat) {
    nx * nx + ny * ny <= 4 * nx * ny
  }

  /** In terms of the weights: the condition is that they sum to at most four. */
  lemma StableIsSpread(p: Problem)
    requires UnitSquare(p)
    ensures Stable(p.nx, p.ny) <==> p.wx + p.wy <= 4.0
  {
    var x, y, u := p.nx as real, p.ny as real, p.wx + p.wy;
    WeightsOf(x, y);
    assert (p.nx * p.nx + p.ny * p.ny) as real == x * x + y * y;
    assert (4 * p.nx * p.ny) as real == 4.0 * (x * y);
    Compare(x * y, u, 4.0);
  }

  // ----- bounded when stable -----

  lemma SideRange(p: Problem, f: seq<seq<real>>, i: int, j: int, s: Side, lo: real, hi: real)
    requires IsField(p, f) && IsCell(p, i, j) && Within(p, f, lo, hi) && BoundaryWithin(p, lo, hi)
    ensures lo <= Beyond(p, f, i, j, s) <= hi && Conductance(p, i, j, s) > 0.0
  {
    assert HasNeighbour(p, i, j, s) ==> lo <= Across(p, f, i, j, s) <= hi;
  }

  /** A side's flux is between what the bounds themselves would drive through it. */
  lemma SideBound(p: Problem, f: seq<seq<real>>, i: int, j: int, s: Side, lo: real, hi: real)
    returns (flux: real, k: real)
    requires IsField(p, f) && IsCell(p, i, j) && Within(p, f, lo, hi) && BoundaryWithin(p, lo, hi)
    ensures flux == SideFlux(p, f, i, j, s) && k == Conductance(p, i, j, s)
    ensures (lo - f[j][i]) * k <= flux <= (hi - f[j][i]) * k
  {
    hide Beyond, Conductance;
    SideRange(p, f, i, j, s, lo, hi);
    flux, k := SideFlux(p, f, i, j, s), Conductance(p, i, j, s);
    Sandwich(Beyond(p, f, i, j, s) - f[j][i], Conductance(p, i, j, s), lo - f[j][i], hi - f[j][i]);
  }

  lemma BoundsAdd(a: real, b: real, f0: real, k0: real, f1: real, k1: real, f2: real, k2: real, f3: real, k3: real)
    requires a * k0 <= f0 <= b * k0 && a * k1 <= f1 <= b * k1 && a * k2 <= f2 <= b * k2 && a * k3 <= f3 <= b * k3
    ensures a * (k0 + k1 + k2 + k3) <= f0 + f1 + f2 + f3 <= b * (k0 + k1 + k2 + k3)
  {
    Distribute(a, k0, k1, k2, k3);
    Distribute(b, k0, k1, k2, k3);
  }

  /** So is the net flux into the cell. */
  lemma FluxBound(p: Problem, f: seq<seq<real>>, i: int, j: int, lo: real, hi: real) returns (residual: real, k: real)
    requires IsField(p, f) && IsCell(p, i, j) && Within(p, f, lo, hi) && BoundaryWithin(p, lo, hi)
    ensures residual == ResidualOf(p, f, i, j) && k == TotalConductance(p, i, j)
    ensures (lo - f[j][i]) * k <= -residual <= (hi - f[j][i]) * k
  {
    hide SideFlux, Conductance;
    var f0, k0 := SideBound(p, f, i, j, Left, lo, hi);
    var f1, k1 := SideBound(p, f, i, j, Right, lo, hi);
    var f2, k2 := SideBound(p, f, i, j, Bottom, lo, hi);
    var f3, k3 := SideBound(p, f, i, j, Top, lo, hi);
    residual, k := -(f0 + f1 + f2 + f3), k0 + k1 + k2 + k3;
    BoundsAdd(lo - f[j][i], hi - f[j][i], f0, k0, f1, k1, f2, k2, f3, k3);
  }

  lemma Divide(a: real, v: real, lo: real, hi: real)
    requires v > 0.0 && lo * v <= a <= hi * v
    ensures lo <= a / v <= hi
  {
    Quotient(a, v);
    Compare(v, lo, a / v);
    Compare(v, a / v, hi);
  }

  lemma FractionSum(x: real, r: real, t: real, v: real)
    requires v > 0.0
    ensures x - r * t / v == (x * v + -r * t) / v
  {
    var y := r * t;
    Quotient(y, v);
    assert (x - y / v) * v == x * v - y;
    Quotient(x * v - y, v);
    assert -r * t == -y;
  }

  /** A step whose conductances fit stays within the bounds. */
  lemma StepBounded(x: real, r: real, t: real, v: real, k: real, lo: real, hi: real)
    requires v > 0.0 && t > 0.0 && t * k <= v && lo <= x <= hi
    requires (lo - x) * k <= -r <= (hi - x) * k
    ensures lo <= Updated(x, r, t, v) <= hi
  {
    FractionSum(x, r, t, v);
    Sandwich(-r, t, (lo - x) * k, (hi - x) * k);
    Shrink(x - lo, k, t, v);
    Shrink(hi - x, k, t, v);
    assert (lo - x) * k * t == -((x - lo) * k * t);
    Divide(x * v + -r * t, v, lo, hi);
  }

  lemma Shrink(d: real, k: real, t: real, v: real)
    requires d >= 0.0 && t * k <= v
    ensures d * k * t <= d * v
  {
    assert d * k * t == d * (t * k);
    Scale(d, t * k, v);
  }

  /** A corner cell has the most conductance, three times both weights. */
  lemma ConductanceBound(p: Problem, i: int, j: int)
    requires IsCell(p, i, j)
    ensures TotalConductance(p, i, j) <= 3.0 * (p.wx + p.wy)
  {
  }

  lemma StepFits(t: real, v: real, u: real, k: real)
    requires t > 0.0 && t * (2.0 * (u + 2.0)) == v && k <= 3.0 * u && u <= 4.0
    ensures t * k <= v
  {
    Scale(t, k, 2.0 * (u + 2.0));
  }

  lemma StepKeepsBounds(p: Problem, f: seq<seq<real>>, lo: real, hi: real, i: int, j: int)
    requires p.StepChosen() && IsField(p, f) && IsCell(p, i, j) && p.wx + p.wy <= 4.0
    requires Within(p, f, lo, hi) && BoundaryWithin(p, lo, hi)
    ensures lo <= ExplicitAt(p, f, i, j) <= hi
  {
    hide ResidualOf, TotalConductance, Updated;
    ConductanceBound(p, i, j);
    var residual, k := FluxBound(p, f, i, j, lo, hi);
    StepFits(p.dt, p.volume, p.wx + p.wy, k);
    StepBounded(f[j][i], ResidualOf(p, f, i, j), p.dt, p.volume, k, lo, hi);
  }

  lemma {:induction false} RunKeepsBounds(p: Problem, f: seq<seq<real>>, lo: real, hi: real, steps: nat)
    requires p.StepChosen() && IsField(p, f) && p.wx + p.wy <= 4.0
    requires Within(p, f, lo, hi) && BoundaryWithin(p, lo, hi)
    ensures Within(p, ExplicitRun(p, f, steps), lo, hi)
  {
    if steps > 0 {
      var g := ExplicitRun(p, f, steps - 1);
      RunKeepsBounds(p, f, lo, hi, steps - 1);
      forall i, j | IsCell(p, i, j)
        ensures lo <= ExplicitAt(p, g, i, j) <= hi
      {
        StepKeepsBounds(p, g, lo, hi, i, j);
      }
    }
  }

  // ----- broken otherwise -----

  /** One in the corner cell, zero elsewhere and on the boundary. */
  ghost function Spike(p: Problem): (f: seq<seq<real>>)
    requires p.Valid()
    ensures IsField(p, f) && forall i, j :: IsCell(p, i, j) ==> f[j][i] == if i == 0 && j == 0 then 1.0 else 0.0
  {
    seq(p.ny, j => seq(p.nx, i => if i == 0 && j == 0 then 1.0 else 0.0))
  }

  lemma CornerResidual(p: Problem, f: seq<seq<real>>, i: int, j: int)
    requires IsField(p, f) && f == Spike(p) && i == 0 && j == 0 && p.left == p.right == p.bottom == p.top == 0.0
    ensures ResidualOf(p, f, i, j) == 3.0 * (p.wx + p.wy)
  {
    assert IsCell(p, 0, 0) && IsCell(p, 1, 0) && IsCell(p, 0, 1);
    assert f[0][0] == 1.0 && f[0][1] == 0.0 && f[1][0] == 0.0;
    assert SideFlux(p, f, i, j, Left) == -2.0 * p.wx && SideFlux(p, f, i, j, Bottom) == -2.0 * p.wy;
    assert SideFlux(p, f, i, j, Right) == -p.wx && SideFlux(p, f, i, j, Top) == -p.wy;
  }

  lemma Undershoot(t: real, v: real, u: real, r: real)
    requires t > 0.0 && v > 0.0 && t * (2.0 * (u + 2.0)) == v && u > 4.0 && r == 3.0 * u
    ensures Updated(1.0, r, t, v) < 0.0
  {
    var y := r * t;
    assert y - v == t * (u - 4.0);
    assert t * (u - 4.0) > 0.0;
    QuotientAboveOne(y, v);
  }

  lemma CornerUndershoots(p: Problem, f: seq<seq<real>>, i: int, j: int)
    requires p.StepChosen() && p.wx + p.wy > 4.0 && f == Spike(p) && i == 0 && j == 0
    requires p.left == p.right == p.bottom == p.top == 0.0
    ensures IsCell(p, i, j) && ExplicitAt(p, f, i, j) < 0.0
  {
    hide ResidualOf, Updated;
    CornerResidual(p, f, i, j);
    Undershoot(p.dt, p.volume, p.wx + p.wy, ResidualOf(p, f, i, j));
    assert f[j][i] == 1.0;
  }

  /** The unit square with the boundary held at zero. */
  ghost function ColdSquare(nx: nat, ny: nat): (p: Problem)
    requires nx >= 2 && ny >= 2
    ensures UnitSquare(p) && p.nx == nx && p.ny == ny && p.left == p.right == p.bottom == p.top == 0.0
  {
    Problem(nx, ny, nx as real / ny as real, ny as real / nx as real, 1.0 / nx as real * (1.0 / ny as real),
            1.0 / ((nx + ny) as real * (nx + ny) as real * 2.0), 0.0, 0.0, 0.0, 0.0)
  }

  lemma SpikeBreaksBounds(p: Problem)
    requires p.StepChosen() && p.wx + p.wy > 4.0 && BoundaryWithin(p, 0.0, 0.0)
    ensures Within(p, Spike(p), 0.0, 1.0) && !Within(p, ExplicitRun(p, Spike(p), 1), 0.0, 1.0)
  {
    CornerUndershoots(p, Spike(p), 0, 0);
    var run := ExplicitRun(p, Spike(p), 1);
    assert ExplicitRun(p, Spike(p), 0) == Spike(p);
    assert run == ExplicitStep(p, Spike(p));
    assert run[0][0] == ExplicitAt(p, Spike(p), 0, 0);
  }

  /** From arbitrary fields the bounds are kept exactly when nx^2 + ny^2 <= 4 nx ny. */
  lemma BoundsKeptIffStable(nx: nat, ny: nat)
    requires nx >= 2 && ny >= 2
    ensures KeepsBounds(nx, ny) <==> Stable(nx, ny)
  {
    if Stable(nx, ny) {
      forall p: Problem, f: seq<seq<real>>, lo: real, hi: real, steps: nat
        | p.nx == nx && p.ny == ny && UnitSquare(p) && IsField(p, f) && Within(p, f, lo, hi)
          && BoundaryWithin(p, lo, hi)
        ensures Within(p, ExplicitRun(p, f, steps), lo, hi)
      {
        UnitSquareValid(p);
        StableIsSpread(p);
        RunKeepsBounds(p, f, lo, hi, steps);
      }
    } else {
      var p := ColdSquare(nx, ny);
      UnitSquareValid(p);
      StableIsSpread(p);
      SpikeBreaksBounds(p);
      assert IsField(p, Spike(p)) && BoundaryWithin(p, 0.0, 1.0);
    }
  }
}
