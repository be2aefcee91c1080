/** The implicit time step on the whole grid: what it solves, and what an exact solution of
    its linear system means. */
module ImplicitStepping {
  import opened RealFacts
  import opened Stencil
  import opened Contraction

  /** compute_residual's right-hand side: minus the residual. */
  ghost function RhsOf(p: Problem, f: seq<seq<real>>): (r: seq<seq<real>>)
    requires IsField(p, f)
    ensures IsField(p, r) && forall i, j :: IsCell(p, i, j) ==> r[j][i] == -ResidualOf(p, f, i, j)
  {
    seq(p.ny, j requires 0 <= j < p.ny => seq(p.nx, i requires 0 <= i < p.nx => -ResidualOf(p, f, i, j)))
  }

  ghost function Sum(p: Problem, f: seq<seq<real>>, d: seq<seq<real>>): (r: seq<seq<real>>)
    requires IsField(p, f) && IsField(p, d)
    ensures IsField(p, r) && forall i, j :: IsCell(p, i, j) ==> r[j][i] == f[j][i] + d[j][i]
  {
    seq(p.ny, j requires 0 <= j < p.ny => seq(p.nx, i requires 0 <= i < p.nx => f[j][i] + d[j][i]))
  }

  /** One implicit step with that many Jacobi sweeps from zero. */
  ghost function ImplicitStep(p: Problem, f: seq<seq<real>>, sweeps: nat): (r: seq<seq<real>>)
    requires p.StepChosen() && IsField(p, f)
    ensures IsField(p, r)
  {
    Sum(p, f, JacobiRun(p, RhsOf(p, f), Uniform(p, 0.0), sweeps))
  }

  ghost function ImplicitRun(p: Problem, f: seq<seq<real>>, sweeps: nat, steps: nat): (r: seq<seq<real>>)
    requires p.StepChosen() && IsField(p, f)
    ensures IsField(p, r)
  {
    if steps == 0 then f else ImplicitStep(p, ImplicitRun(p, f, sweeps, steps - 1), sweeps)
  }

  // ----- the residual of a sum -----

  lemma FlowAdds(a: real, b: real, x: real, y: real, w: real)
    ensures Flow(a + b, x + y, w) == Flow(a, x, w) + (w * b - w * y)
    ensures Flow(a, x + y, w) == Flow(a, x, w) - w * y
  {
    assert (a + b - (x + y)) * w == (a - x) * w + (b - y) * w;
    assert (b - y) * w == w * b - w * y;
    assert (a - (x + y)) * w == (a - x) * w - y * w;
  }

  /** Adding d changes the flux through a side by what the matrix row says of that side. */
  lemma SideOfSum(p: Problem, f: seq<seq<real>>, d: seq<seq<real>>, i: int, j: int, s: Side)
    requires IsField(p, f) && IsField(p, d) && IsCell(p, i, j)
    ensures SideFlux(p, Sum(p, f, d), i, j, s)
            == SideFlux(p, f, i, j, s) + (Towards(p, d, i, j, s) - Conductance(p, i, j, s) * d[j][i])
  {
    var w := Conductance(p, i, j, s);
    if HasNeighbour(p, i, j, s) {
      assert Across(p, Sum(p, f, d), i, j, s) == Across(p, f, i, j, s) + Across(p, d, i, j, s);
      FlowAdds(Across(p, f, i, j, s), Across(p, d, i, j, s), f[j][i], d[j][i], w);
    } else {
      FlowAdds(p.Boundary(s), 0.0, f[j][i], d[j][i], w);
    }
  }

  /** The matrix of the whole grid is the Jacobian of the residual of the whole grid. */
  lemma GridJacobian(p: Problem, f: seq<seq<real>>, d: seq<seq<real>>, i: int, j: int)
    requires p.dt > 0.0 && IsField(p, f) && IsField(p, d) && IsCell(p, i, j)
    ensures ResidualOf(p, Sum(p, f, d), i, j) - ResidualOf(p, f, i, j)
            == RowOf(p, d, i, j) - ImplicitTimeTerm(p) * d[j][i]
  {
    hide SideFlux, Towards, Conductance, Sum, ImplicitTimeTerm;
    SideOfSum(p, f, d, i, j, Left);
    SideOfSum(p, f, d, i, j, Right);
    SideOfSum(p, f, d, i, j, Bottom);
    SideOfSum(p, f, d, i, j, Top);
    DiagonalTimes(ImplicitTimeTerm(p), Conductance(p, i, j, Left), Conductance(p, i, j, Right),
                  Conductance(p, i, j, Bottom), Conductance(p, i, j, Top), d[j][i]);
  }

  lemma DiagonalTimes(t: real, a: real, b: real, c: real, e: real, x: real)
    ensures (t + (a + b + c + e)) * x == t * x + (a * x + b * x + c * x + e * x)
  {
    Distribute(x, a, b, c, e);
  }

  /** An exact solution of the linear system is exactly a backward Euler step: the change of
      the cell over the time step balances the residual at the new values. */
  lemma ExactStepIsBackwardEuler(p: Problem, f: seq<seq<real>>, d: seq<seq<real>>)
    requires p.dt > 0.0 && IsField(p, f) && IsField(p, d)
    ensures Solves(p, RhsOf(p, f), d) <==>
            forall i, j :: IsCell(p, i, j) ==> ImplicitTimeTerm(p) * d[j][i] + ResidualOf(p, Sum(p, f, d), i, j) == 0.0
  {
    hide RowOf, ResidualOf, ImplicitTimeTerm, Sum;
    forall i, j | IsCell(p, i, j)
      ensures RowOf(p, d, i, j) == -ResidualOf(p, f, i, j) <==>
              ImplicitTimeTerm(p) * d[j][i] + ResidualOf(p, Sum(p, f, d), i, j) == 0.0
    {
      GridJacobian(p, f, d, i, j);
    }
  }
}
