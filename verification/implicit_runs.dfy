/** What implicit runs do in every step. With Jacobi sweeps a step brings the field towards the
    exact backward Euler step by the factor that the sweeps give it, and what it misses of
    backward Euler shrinks by it; with BiCGSTAB a step misses exactly the remainder of its solve. */
module ImplicitRuns {
  import opened Bicgstab
  import opened BicgstabSteps
  import opened Contraction
  import opened GridLayout
  import opened GridTopology
  import opened Halo
  import opened HaloExchange
  import opened ImplicitStepping
  import opened RankMesh
  import opened RealFacts
  import opened Stencil

  // ----- the sweeps -----

  /** next is x after one sweep: the diagonal times the change is what x leaves of the system. */
  ghost predicate Corrects(p: Problem, rhs: seq<seq<real>>, x: seq<seq<real>>, next: seq<seq<real>>) {
    && IsField(p, rhs) && IsField(p, x) && IsField(p, next)
    && forall i, j :: IsCell(p, i, j) ==>
         DiagonalOf(p, i, j) * (next[j][i] - x[j][i]) == rhs[j][i] - RowOf(p, x, i, j)
  }

  lemma CellCorrected(p: Problem, rhs: seq<seq<real>>, x: seq<seq<real>>, y: real, i: int, j: int)
    requires p.StepChosen() && IsField(p, rhs) && IsField(p, x) && IsCell(p, i, j)
    ensures DiagonalOf(p, i, j) * (y - x[j][i]) == rhs[j][i] - RowOf(p, x, i, j) <==> y == JacobiOf(p, rhs, x, i, j)
  {
    hide NeighbourSum, DiagonalOf, InnerWeight;
    DiagonalDominates(p, i, j);
    var d, b := DiagonalOf(p, i, j), rhs[j][i] + NeighbourSum(p, x, i, j);
    OverIs(b, d, y);
    assert d * (y - x[j][i]) == d * y - d * x[j][i];
  }

  lemma SweepCorrects(p: Problem, rhs: seq<seq<real>>, x: seq<seq<real>>, next: seq<seq<real>>)
    requires p.StepChosen() && IsField(p, rhs) && IsField(p, x) && IsField(p, next)
    ensures Corrects(p, rhs, x, next) <==> next == JacobiStep(p, rhs, x)
  {
    hide DiagonalOf, RowOf, JacobiOf;
    var step := JacobiStep(p, rhs, x);
    forall i, j | IsCell(p, i, j)
      ensures DiagonalOf(p, i, j) * (next[j][i] - x[j][i]) == rhs[j][i] - RowOf(p, x, i, j) <==>
              next[j][i] == step[j][i]
    {
      CellCorrected(p, rhs, x, next[j][i], i, j);
    }
    if Corrects(p, rhs, x, next) {
      forall j | 0 <= j < p.ny
        ensures next[j] == step[j]
      {
        assert forall i :: 0 <= i < p.nx ==> IsCell(p, i, j);
      }
    }
  }

  /** Fields from zero on, each a sweep of the one before. */
  ghost predicate Sweeps(p: Problem, rhs: seq<seq<real>>, xs: seq<seq<seq<real>>>) {
    && |xs| > 0 && p.Valid() && xs[0] == Uniform(p, 0.0)
    && forall k :: 0 < k < |xs| ==> Corrects(p, rhs, xs[k - 1], xs[k])
  }

  lemma {:induction false} RunIsSweeps(p: Problem, rhs: seq<seq<real>>, xs: seq<seq<seq<real>>>, k: nat)
    requires p.StepChosen() && IsField(p, rhs) && Sweeps(p, rhs, xs) && k < |xs|
    ensures xs[k] == JacobiRun(p, rhs, Uniform(p, 0.0), k)
  {
    hide JacobiStep, Corrects, Uniform;
    if k > 0 {
      RunIsSweeps(p, rhs, xs, k - 1);
      assert Corrects(p, rhs, xs[k - 1], xs[k]);
      CorrectsFields(p, rhs, xs[k - 1], xs[k]);
      SweepCorrects(p, rhs, xs[k - 1], xs[k]);
    }
  }

  lemma CorrectsFields(p: Problem, rhs: seq<seq<real>>, x: seq<seq<real>>, next: seq<seq<real>>)
    requires Corrects(p, rhs, x, next)
    ensures IsField(p, x) && IsField(p, next)
  {
  }

  /** There are such fields: the conditions can be met. */
  lemma {:induction false} SweepsExist(p: Problem, rhs: seq<seq<real>>, k: nat) returns (xs: seq<seq<seq<real>>>)
    requires p.StepChosen() && IsField(p, rhs)
    ensures |xs| == k + 1 && Sweeps(p, rhs, xs)
  {
    hide JacobiStep, Corrects, Uniform;
    if k == 0 {
      xs := [Uniform(p, 0.0)];
    } else {
      var rest := SweepsExist(p, rhs, k - 1);
      RunIsSweeps(p, rhs, rest, k - 1);
      SweepCorrects(p, rhs, rest[k - 1], JacobiStep(p, rhs, rest[k - 1]));
      xs := rest + [JacobiStep(p, rhs, rest[k - 1])];
    }
  }

  /** The run starts with f, and a step adds the last of num_iter sweeps, whichever fields meet
      the conditions of the sweeps. */
  lemma StepAddsSweeps(p: Problem, f: seq<seq<real>>, numIter: nat, n: nat, xs: seq<seq<seq<real>>>, i: int, j: int)
    requires p.StepChosen() && IsField(p, f) && IsCell(p, i, j) && |xs| == numIter + 1
    requires Sweeps(p, RhsOf(p, ImplicitRun(p, f, numIter, n)), xs)
    ensures ImplicitRun(p, f, numIter, 0) == f && IsField(p, xs[numIter])
    ensures ImplicitRun(p, f, numIter, n + 1)[j][i] == ImplicitRun(p, f, numIter, n)[j][i] + xs[numIter][j][i]
  {
    hide Sweeps, RhsOf, JacobiRun;
    RunIsSweeps(p, RhsOf(p, ImplicitRun(p, f, numIter, n)), xs, numIter);
  }

  // ----- a step and the exact step -----

  /** e is one backward Euler step from f: what a cell gains is what flows into it at the end. */
  ghost predicate BackwardEuler(p: Problem, f: seq<seq<real>>, e: seq<seq<real>>) {
    && p.dt > 0.0 && IsField(p, f) && IsField(p, e)
    && forall i, j :: IsCell(p, i, j) ==> ImplicitTimeTerm(p) * (e[j][i] - f[j][i]) + ResidualOf(p, e, i, j) == 0.0
  }

  ghost function Difference(p: Problem, e: seq<seq<real>>, f: seq<seq<real>>): (d: seq<seq<real>>)
    requires IsField(p, e) && IsField(p, f)
    ensures IsField(p, d) && forall i, j :: IsCell(p, i, j) ==> d[j][i] == e[j][i] - f[j][i]
  {
    seq(p.ny, j requires 0 <= j < p.ny => seq(p.nx, i requires 0 <= i < p.nx => e[j][i] - f[j][i]))
  }

  lemma SumOfDifference(p: Problem, e: seq<seq<real>>, f: seq<seq<real>>)
    requires IsField(p, e) && IsField(p, f)
    ensures Sum(p, f, Difference(p, e, f)) == e
  {
    var sum := Sum(p, f, Difference(p, e, f));
    forall j | 0 <= j < p.ny
      ensures sum[j] == e[j]
    {
      assert forall i :: 0 <= i < p.nx ==> IsCell(p, i, j);
    }
  }

  lemma ExactChangeSolves(p: Problem, f: seq<seq<real>>, e: seq<seq<real>>)
    requires BackwardEuler(p, f, e)
    ensures Solves(p, RhsOf(p, f), Difference(p, e, f))
  {
    hide ResidualOf, ImplicitTimeTerm, Solves, Sum;
    SumOfDifference(p, e, f);
    ExactStepIsBackwardEuler(p, f, Difference(p, e, f));
  }

  lemma SumClose(p: Problem, f: seq<seq<real>>, x: seq<seq<real>>, e: seq<seq<real>>, bound: real)
    requires IsField(p, f) && IsField(p, x) && IsField(p, e) && Close(p, x, Difference(p, e, f), bound)
    ensures Close(p, Sum(p, f, x), e, bound)
  {
  }

  lemma StepApproaches(p: Problem, f: seq<seq<real>>, numIter: nat, e: seq<seq<real>>, d: real, bound: real)
    requires p.StepChosen() && BackwardEuler(p, f, e) && d >= 0.0 && Close(p, e, f, d)
    requires bound == Power(10.0 / 11.0, numIter) * d
    ensures Close(p, ImplicitStep(p, f, numIter), e, bound)
  {
    hide Solves, RhsOf, ImplicitTimeTerm, ResidualOf, JacobiRun, Power;
    var change := Difference(p, e, f);
    ExactChangeSolves(p, f, e);
    JacobiConverges(p, RhsOf(p, f), Uniform(p, 0.0), change, d, numIter);
    SumClose(p, f, JacobiRun(p, RhsOf(p, f), Uniform(p, 0.0), numIter), e, bound);
  }

  /** Whatever the run has come to, num_iter sweeps bring it that much closer to the exact
      backward Euler step from there. */
  lemma RunApproaches(p: Problem, f: seq<seq<real>>, numIter: nat, n: nat, e: seq<seq<real>>, d: real, bound: real)
    requires p.StepChosen() && IsField(p, f) && BackwardEuler(p, ImplicitRun(p, f, numIter, n), e)
    requires d >= 0.0 && Close(p, e, ImplicitRun(p, f, numIter, n), d) && bound == Power(10.0 / 11.0, numIter) * d
    ensures ImplicitRun(p, f, numIter, 0) == f && IsField(p, e)
    ensures Close(p, ImplicitRun(p, f, numIter, n + 1), e, bound)
  {
    hide Close, Power, ImplicitStep, ResidualOf, ImplicitTimeTerm;
    StepApproaches(p, ImplicitRun(p, f, numIter, n), numIter, e, d, bound);
  }

  lemma ShownClose(p: Problem, l: Layout, q: nat, v: seq<real>, f: seq<seq<real>>, e: seq<seq<real>>, bound: real,
                   k: nat)
    requires IsField(p, f) && IsField(p, e) && Close(p, f, e, bound) && Setting(l) && Shows(p, l, q, v, f) && k < |v|
    ensures |v| == |LocalCells(l, q)| && LocalCells(l, q)[k] < p.nx * p.ny
    ensures -bound <= v[k] - Flatten(p, e)[LocalCells(l, q)[k]] <= bound
  {
    hide Setting;
    LocalCellsInRange(l, q, k);
    var c := LocalCells(l, q)[k];
    CellOfNumber(p.nx, p.ny, c);
    FlattenAt(p, f, c % p.nx, c / p.nx);
    FlattenAt(p, e, c % p.nx, c / p.nx);
  }

  /** So does every local value on every rank, ghosts included. */
  lemma LocalApproaches(p: Problem, l: Layout, q: nat, v: seq<real>, f: seq<seq<real>>, numIter: nat, n: nat,
                        e: seq<seq<real>>, d: real, bound: real, k: nat)
    requires p.StepChosen() && IsField(p, f) && BackwardEuler(p, ImplicitRun(p, f, numIter, n), e)
    requires d >= 0.0 && Close(p, e, ImplicitRun(p, f, numIter, n), d) && bound == Power(10.0 / 11.0, numIter) * d
    requires Setting(l) && Shows(p, l, q, v, ImplicitRun(p, f, numIter, n + 1)) && k < |v|
    ensures IsField(p, e) && |v| == |LocalCells(l, q)| && LocalCells(l, q)[k] < p.nx * p.ny
    ensures -bound <= v[k] - Flatten(p, e)[LocalCells(l, q)[k]] <= bound
  {
    hide ImplicitRun, Power, Setting, BackwardEuler, Close, Shows;
    RunApproaches(p, f, numIter, n, e, d, bound);
    ShownClose(p, l, q, v, ImplicitRun(p, f, numIter, n + 1), e, bound, k);
  }

  // ----- what a step misses of backward Euler -----

  lemma {:induction false} RunShifts(p: Problem, rhs: seq<seq<real>>, x: seq<seq<real>>, k: nat)
    requires p.StepChosen() && IsField(p, rhs) && IsField(p, x)
    ensures JacobiRun(p, rhs, x, k + 1) == JacobiRun(p, rhs, JacobiStep(p, rhs, x), k)
  {
    hide JacobiStep;
    if k > 0 {
      RunShifts(p, rhs, x, k - 1);
    } else {
      assert JacobiRun(p, rhs, x, 0) == x;
    }
  }

  lemma FirstSweep(p: Problem, rhs: seq<seq<real>>, d: real, i: int, j: int)
    requires p.StepChosen() && IsField(p, rhs) && IsCell(p, i, j)
    requires -d * DiagonalOf(p, i, j) <= rhs[j][i] <= d * DiagonalOf(p, i, j)
    ensures -d <= JacobiOf(p, rhs, Uniform(p, 0.0), i, j) <= d
  {
    hide DiagonalOf, InnerWeight, Uniform, Over;
    DiagonalDominates(p, i, j);
    assert NeighbourSum(p, Uniform(p, 0.0), i, j) == 0.0;
    OverIs(rhs[j][i] + 0.0, DiagonalOf(p, i, j), JacobiOf(p, rhs, Uniform(p, 0.0), i, j));
    Compare(DiagonalOf(p, i, j), JacobiOf(p, rhs, Uniform(p, 0.0), i, j), d);
    Compare(DiagonalOf(p, i, j), -d, JacobiOf(p, rhs, Uniform(p, 0.0), i, j));
  }

  /** The change of one more sweep after k of them. */
  lemma LastChange(p: Problem, rhs: seq<seq<real>>, d: real, k: nat, e: real)
    requires p.StepChosen() && IsField(p, rhs) && d >= 0.0 && e == Power(10.0 / 11.0, k) * d
    requires forall i, j :: IsCell(p, i, j) ==> -d * DiagonalOf(p, i, j) <= rhs[j][i] <= d * DiagonalOf(p, i, j)
    ensures Close(p, JacobiRun(p, rhs, Uniform(p, 0.0), k + 1), JacobiRun(p, rhs, Uniform(p, 0.0), k), e)
  {
    hide DiagonalOf, JacobiOf, JacobiRun, Power, Decayed, Uniform;
    var zero := Uniform(p, 0.0);
    forall i, j | IsCell(p, i, j)
      ensures -d <= JacobiStep(p, rhs, zero)[j][i] - zero[j][i] <= d
    {
      FirstSweep(p, rhs, d, i, j);
    }
    RunShifts(p, rhs, zero, k);
    RunsContract(p, rhs, JacobiStep(p, rhs, zero), zero, d, k);
    DecayedIsPower(d, k);
  }

  lemma SweptDefect(p: Problem, f: seq<seq<real>>, x: seq<seq<real>>, next: seq<seq<real>>, e: real, i: int, j: int)
    requires p.StepChosen() && IsField(p, f) && Corrects(p, RhsOf(p, f), x, next) && Close(p, next, x, e)
             && IsCell(p, i, j)
    ensures var defect := ImplicitTimeTerm(p) * x[j][i] + ResidualOf(p, Sum(p, f, x), i, j);
            -e * DiagonalOf(p, i, j) <= defect <= e * DiagonalOf(p, i, j)
  {
    hide ResidualOf, ImplicitTimeTerm, RowOf, DiagonalOf, Sum, InnerWeight;
    GridJacobian(p, f, x, i, j);
    DiagonalDominates(p, i, j);
    Sandwich(next[j][i] - x[j][i], DiagonalOf(p, i, j), -e, e);
    assert DiagonalOf(p, i, j) * (next[j][i] - x[j][i]) == (next[j][i] - x[j][i]) * DiagonalOf(p, i, j);
  }

  /** If the residual of the run is at most d times the diagonal, its next step fails backward
      Euler by no more than (10/11)^num_iter of that, in every cell. */
  lemma RunDefect(p: Problem, f: seq<seq<real>>, numIter: nat, n: nat, d: real, i: int, j: int)
    requires p.StepChosen() && IsField(p, f) && IsCell(p, i, j) && d >= 0.0
    requires forall i, j :: IsCell(p, i, j) ==>
               -d * DiagonalOf(p, i, j) <= -ResidualOf(p, ImplicitRun(p, f, numIter, n), i, j)
                 <= d * DiagonalOf(p, i, j)
    ensures var was, now, e := ImplicitRun(p, f, numIter, n), ImplicitRun(p, f, numIter, n + 1),
                               Power(10.0 / 11.0, numIter) * d;
            -e * DiagonalOf(p, i, j)
            <= ImplicitTimeTerm(p) * (now[j][i] - was[j][i]) + ResidualOf(p, now, i, j)
            <= e * DiagonalOf(p, i, j)
  {
    hide ResidualOf, ImplicitTimeTerm, DiagonalOf, Power, Uniform, JacobiRun, Corrects, Close, RhsOf, Sum;
    var was := ImplicitRun(p, f, numIter, n);
    var rhs, zero, e := RhsOf(p, was), Uniform(p, 0.0), Power(10.0 / 11.0, numIter) * d;
    LastChange(p, rhs, d, numIter, e);
    var x, next := JacobiRun(p, rhs, zero, numIter), JacobiRun(p, rhs, zero, numIter + 1);
    OneMoreSweep(p, rhs, numIter);
    SweepCorrects(p, rhs, x, next);
    SweptDefect(p, was, x, next, e, i, j);
  }

  lemma OneMoreSweep(p: Problem, rhs: seq<seq<real>>, k: nat)
    requires p.StepChosen() && IsField(p, rhs)
    ensures JacobiRun(p, rhs, Uniform(p, 0.0), k + 1) == JacobiStep(p, rhs, JacobiRun(p, rhs, Uniform(p, 0.0), k))
  {
  }

  // ----- with BiCGSTAB -----

  /** The run starts with f; it has another step exactly if the solve there is defined, and the
      step then fails backward Euler by what the solve leaves of its right-hand side. */
  lemma BicgstabRunMisses(p: Problem, f: seq<seq<real>>, numIter: nat, n: nat, i: int, j: int)
    requires p.Valid() && IsField(p, f) && IsCell(p, i, j)
    ensures BicgstabRun(p, f, numIter, 0) == Reached(f)
    ensures BicgstabRun(p, f, numIter, n + 1).Reached? <==>
            BicgstabRun(p, f, numIter, n).Reached? && StepDefined(p, BicgstabRun(p, f, numIter, n).value, numIter)
    ensures BicgstabRun(p, f, numIter, n + 1).Reached? ==>
              var was, now := BicgstabRun(p, f, numIter, n).value, BicgstabRun(p, f, numIter, n + 1).value;
              && 0 <= Cell(p.nx, i, j) < p.nx * p.ny
              && ImplicitTimeTerm(p) * (now[j][i] - was[j][i]) + ResidualOf(p, now, i, j)
                 == -Remainder(p, was, numIter)[Cell(p.nx, i, j)]
  {
    hide ResidualOf, ImplicitTimeTerm, StepDefined, Remainder, Change;
    if BicgstabRun(p, f, numIter, n + 1).Reached? {
      RemainderIsDefect(p, BicgstabRun(p, f, numIter, n).value, numIter, i, j);
    }
  }
}
