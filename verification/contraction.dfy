/** The implicit system on the whole grid, and why its Jacobi sweeps converge: each one brings
    any two iterates closer by a factor of at most 10/11, on every grid. */
module Contraction {
  import opened RealFacts
  import opened Stencil

  ghost function Towards(p: Problem, x: seq<seq<real>>, i: int, j: int, s: Side): real
    requires IsField(p, x) && IsCell(p, i, j)
  {
    if HasNeighbour(p, i, j, s) then Weight(p, s) * Across(p, x, i, j, s) else 0.0
  }

  /** The off-diagonal part of a row, moved to the right-hand side. */
  ghost function NeighbourSum(p: Problem, x: seq<seq<real>>, i: int, j: int): real
    requires IsField(p, x) && IsCell(p, i, j)
  {
    Towards(p, x, i, j, Left) + Towards(p, x, i, j, Right) + Towards(p, x, i, j, Bottom) + Towards(p, x, i, j, Top)
  }

  /** volume / delta_t, the implicit delta_t being ten times the explicit one. */
  function ImplicitTimeTerm(p: Problem): real
    requires p.dt > 0.0
  {
    p.volume / (p.dt * 10.0)
  }

  ghost function DiagonalOf(p: Problem, i: int, j: int): real
    requires IsCell(p, i, j)
  {
    ImplicitTimeTerm(p) + TotalConductance(p, i, j)
  }

  /** Row (i, j) of the implicit matrix times x. */
  ghost function RowOf(p: Problem, x: seq<seq<real>>, i: int, j: int): real
    requires IsField(p, x) && IsCell(p, i, j)
  {
    DiagonalOf(p, i, j) * x[j][i] - NeighbourSum(p, x, i, j)
  }

  ghost predicate Solves(p: Problem, rhs: seq<seq<real>>, x: seq<seq<real>>)
    requires IsField(p, rhs) && IsField(p, x)
  {
    forall i, j :: IsCell(p, i, j) ==> RowOf(p, x, i, j) == rhs[j][i]
  }

  function Over(a: real, d: real): real
    requires d > 0.0
  {
    a / d
  }

  /** One Jacobi update of a cell. */
  ghost function JacobiOf(p: Problem, rhs: seq<seq<real>>, x: seq<seq<real>>, i: int, j: int): real
    requires p.StepChosen() && IsField(p, rhs) && IsField(p, x) && IsCell(p, i, j)
  {
    DiagonalDominates(p, i, j);
    Over(rhs[j][i] + NeighbourSum(p, x, i, j), DiagonalOf(p, i, j))
  }

  ghost function JacobiStep(p: Problem, rhs: seq<seq<real>>, x: seq<seq<real>>): (r: seq<seq<real>>)
    requires p.StepChosen() && IsField(p, rhs) && IsField(p, x)
    ensures IsField(p, r) && forall i, j :: IsCell(p, i, j) ==> r[j][i] == JacobiOf(p, rhs, x, i, j)
  {
    seq(p.ny, j requires 0 <= j < p.ny => seq(p.nx, i requires 0 <= i < p.nx => JacobiOf(p, rhs, x, i, j)))
  }

  ghost function JacobiRun(p: Problem, rhs: seq<seq<real>>, x: seq<seq<real>>, sweeps: nat): (r: seq<seq<real>>)
    requires p.StepChosen() && IsField(p, rhs) && IsField(p, x)
    ensures IsField(p, r)
  {
    if sweeps == 0 then x else JacobiStep(p, rhs, JacobiRun(p, rhs, x, sweeps - 1))
  }

  // ----- the diagonal dominates -----

  ghost function Share(p: Problem, i: int, j: int, s: Side): real {
    if HasNeighbour(p, i, j, s) then Weight(p, s) else 0.0
  }

  ghost function InnerWeight(p: Problem, i: int, j: int): real {
    Share(p, i, j, Left) + Share(p, i, j, Right) + Share(p, i, j, Bottom) + Share(p, i, j, Top)
  }

  lemma TimeTermIs(t: real, v: real, k: real)
    requires t > 0.0 && t * k == v
    ensures v / (t * 10.0) * 10.0 == k
  {
    Quotient(v, t * 10.0);
    var q := v / (t * 10.0);
    assert (q * 10.0 - k) * t == 0.0;
  }

  /** The diagonal exceeds the off-diagonals by at least a tenth of them. */
  lemma DiagonalDominates(p: Problem, i: int, j: int)
    requires p.StepChosen() && IsCell(p, i, j)
    ensures 0.0 < 11.0 * InnerWeight(p, i, j) <= 10.0 * DiagonalOf(p, i, j)
  {
    TimeTermIs(p.dt, p.volume, 2.0 * (p.wx + p.wy + 2.0));
  }

  // ----- contraction -----

  /** Every cell differs by at most e. */
  ghost predicate Close(p: Problem, x: seq<seq<real>>, y: seq<seq<real>>, e: real)
    requires IsField(p, x) && IsField(p, y)
  {
    forall i, j :: IsCell(p, i, j) ==> -e <= x[j][i] - y[j][i] <= e
  }

  lemma SideClose(p: Problem, x: seq<seq<real>>, y: seq<seq<real>>, e: real, i: int, j: int, s: Side)
    requires IsField(p, x) && IsField(p, y) && Close(p, x, y, e) && IsCell(p, i, j)
    ensures -(Share(p, i, j, s) * e) <= Towards(p, x, i, j, s) - Towards(p, y, i, j, s) <= Share(p, i, j, s) * e
  {
    hide Close, Across;
    if HasNeighbour(p, i, j, s) {
      AcrossClose(p, x, y, e, i, j, s);
      TimesBetween(Weight(p, s), Across(p, x, i, j, s), Across(p, y, i, j, s), e);
    }
  }

  lemma AcrossClose(p: Problem, x: seq<seq<real>>, y: seq<seq<real>>, e: real, i: int, j: int, s: Side)
    requires IsField(p, x) && IsField(p, y) && Close(p, x, y, e) && IsCell(p, i, j) && HasNeighbour(p, i, j, s)
    ensures -e <= Across(p, x, i, j, s) - Across(p, y, i, j, s) <= e
  {
  }

  lemma TimesBetween(w: real, a: real, b: real, e: real)
    requires w >= 0.0 && -e <= a - b <= e
    ensures -(w * e) <= w * a - w * b <= w * e
  {
    assert w * (e - (a - b)) >= 0.0 && w * (e + (a - b)) >= 0.0;
  }

  lemma SumClose(p: Problem, x: seq<seq<real>>, y: seq<seq<real>>, e: real, i: int, j: int)
    requires IsField(p, x) && IsField(p, y) && Close(p, x, y, e) && IsCell(p, i, j)
    ensures -(InnerWeight(p, i, j) * e) <= NeighbourSum(p, x, i, j) - NeighbourSum(p, y, i, j)
            <= InnerWeight(p, i, j) * e
  {
    hide Towards, Share;
    SideClose(p, x, y, e, i, j, Left);
    SideClose(p, x, y, e, i, j, Right);
    SideClose(p, x, y, e, i, j, Bottom);
    SideClose(p, x, y, e, i, j, Top);
    Distribute(e, Share(p, i, j, Left), Share(p, i, j, Right), Share(p, i, j, Bottom), Share(p, i, j, Top));
  }

  lemma OverGap(a: real, b: real, d: real)
    requires d > 0.0
    ensures d * (Over(a, d) - Over(b, d)) == a - b
  {
    Quotient(a, d);
    Quotient(b, d);
  }

  lemma Bounded(d: real, gap: real, w: real, e: real)
    requires 0.0 < 11.0 * w <= 10.0 * d && e >= 0.0 && d * gap <= w * e
    ensures gap <= 10.0 / 11.0 * e
  {
    var bound := 10.0 / 11.0 * e;
    NonNegative(10.0 * d - 11.0 * w, e);
    assert 11.0 * (d * bound) == 10.0 * d * e;
    assert (10.0 * d - 11.0 * w) * e == 10.0 * d * e - 11.0 * (w * e);
    Compare(d, gap, bound);
  }

  /** The difference of two quotients over the same, dominant, diagonal. */
  lemma QuotientsClose(r: real, a: real, b: real, w: real, d: real, e: real)
    requires 0.0 < 11.0 * w <= 10.0 * d && e >= 0.0 && -(w * e) <= a - b <= w * e
    ensures -(10.0 / 11.0 * e) <= Over(r + a, d) - Over(r + b, d) <= 10.0 / 11.0 * e
  {
    hide Over;
    OverGap(r + a, r + b, d);
    OverGap(r + b, r + a, d);
    Bounded(d, Over(r + a, d) - Over(r + b, d), w, e);
    Bounded(d, Over(r + b, d) - Over(r + a, d), w, e);
  }

  lemma SweepContracts(p: Problem, rhs: seq<seq<real>>, x: seq<seq<real>>, y: seq<seq<real>>, e: real)
    requires p.StepChosen() && IsField(p, rhs) && IsField(p, x) && IsField(p, y) && e >= 0.0 && Close(p, x, y, e)
    ensures Close(p, JacobiStep(p, rhs, x), JacobiStep(p, rhs, y), 10.0 / 11.0 * e)
  {
    forall i, j | IsCell(p, i, j)
      ensures -(10.0 / 11.0 * e) <= JacobiOf(p, rhs, x, i, j) - JacobiOf(p, rhs, y, i, j) <= 10.0 / 11.0 * e
    {
      CellContracts(p, rhs, x, y, e, i, j);
    }
  }

  lemma CellContracts(p: Problem, rhs: seq<seq<real>>, x: seq<seq<real>>, y: seq<seq<real>>, e: real, i: int, j: int)
    requires p.StepChosen() && IsField(p, rhs) && IsField(p, x) && IsField(p, y) && e >= 0.0 && Close(p, x, y, e)
    requires IsCell(p, i, j)
    ensures -(10.0 / 11.0 * e) <= JacobiOf(p, rhs, x, i, j) - JacobiOf(p, rhs, y, i, j) <= 10.0 / 11.0 * e
  {
    hide NeighbourSum, InnerWeight, DiagonalOf, Over;
    DiagonalDominates(p, i, j);
    SumClose(p, x, y, e, i, j);
    QuotientsClose(rhs[j][i], NeighbourSum(p, x, i, j), NeighbourSum(p, y, i, j), InnerWeight(p, i, j),
                   DiagonalOf(p, i, j), e);
  }

  /** A solution is what the sweep leaves alone. */
  lemma SolutionIsFixed(p: Problem, rhs: seq<seq<real>>, x: seq<seq<real>>)
    requires p.StepChosen() && IsField(p, rhs) && IsField(p, x)
    ensures Solves(p, rhs, x) <==> JacobiStep(p, rhs, x) == x
  {
    var next := JacobiStep(p, rhs, x);
    forall i, j | IsCell(p, i, j)
      ensures RowOf(p, x, i, j) == rhs[j][i] <==> next[j][i] == x[j][i]
    {
      CellFixed(p, rhs, x, i, j);
    }
    if Solves(p, rhs, x) {
      forall j | 0 <= j < p.ny
        ensures next[j] == x[j]
      {
        assert forall i :: 0 <= i < p.nx ==> IsCell(p, i, j);
      }
    }
  }

  lemma CellFixed(p: Problem, rhs: seq<seq<real>>, x: seq<seq<real>>, i: int, j: int)
    requires p.StepChosen() && IsField(p, rhs) && IsField(p, x) && IsCell(p, i, j)
    ensures RowOf(p, x, i, j) == rhs[j][i] <==> JacobiOf(p, rhs, x, i, j) == x[j][i]
  {
    hide NeighbourSum, InnerWeight, DiagonalOf;
    DiagonalDominates(p, i, j);
    OverIs(rhs[j][i] + NeighbourSum(p, x, i, j), DiagonalOf(p, i, j), x[j][i]);
  }

  lemma OverIs(a: real, d: real, x: real)
    requires d > 0.0
    ensures Over(a, d) == x <==> a == d * x
  {
    Quotient(a, d);
    if a == d * x {
      assert (Over(a, d) - x) * d == 0.0;
    }
  }

  /** e after that many factors of 10/11. */
  function Decayed(e: real, sweeps: nat): (r: real)
    requires e >= 0.0
    ensures 0.0 <= r <= e
  {
    if sweeps == 0 then e else 10.0 / 11.0 * Decayed(e, sweeps - 1)
  }

  function Power(b: real, n: nat): real {
    if n == 0 then 1.0 else b * Power(b, n - 1)
  }

  lemma {:induction false} DecayedIsPower(e: real, sweeps: nat)
    requires e >= 0.0
    ensures Decayed(e, sweeps) == Power(10.0 / 11.0, sweeps) * e
  {
    if sweeps > 0 {
      DecayedIsPower(e, sweeps - 1);
    }
  }

  /** Any two runs, after any number of sweeps. */
  lemma {:induction false} RunsContract(p: Problem, rhs: seq<seq<real>>, x: seq<seq<real>>, y: seq<seq<real>>, e: real,
                                        sweeps: nat)
    requires p.StepChosen() && IsField(p, rhs) && IsField(p, x) && IsField(p, y) && e >= 0.0 && Close(p, x, y, e)
    ensures Close(p, JacobiRun(p, rhs, x, sweeps), JacobiRun(p, rhs, y, sweeps), Decayed(e, sweeps))
  {
    hide Close, JacobiStep;
    if sweeps > 0 {
      RunsContract(p, rhs, x, y, e, sweeps - 1);
      SweepContracts(p, rhs, JacobiRun(p, rhs, x, sweeps - 1), JacobiRun(p, rhs, y, sweeps - 1),
                     Decayed(e, sweeps - 1));
    }
  }

  lemma {:induction false} SolutionStays(p: Problem, rhs: seq<seq<real>>, x: seq<seq<real>>, sweeps: nat)
    requires p.StepChosen() && IsField(p, rhs) && IsField(p, x) && Solves(p, rhs, x)
    ensures JacobiRun(p, rhs, x, sweeps) == x
  {
    if sweeps > 0 {
      SolutionStays(p, rhs, x, sweeps - 1);
      SolutionIsFixed(p, rhs, x);
    }
  }

  /** After num_iter sweeps the distance to an exact solution is at most (10/11)^num_iter of
      what it was. */
  lemma JacobiConverges(p: Problem, rhs: seq<seq<real>>, start: seq<seq<real>>, exact: seq<seq<real>>, e: real,
                        sweeps: nat)
    requires p.StepChosen() && IsField(p, rhs) && IsField(p, start) && IsField(p, exact)
    requires Solves(p, rhs, exact) && e >= 0.0 && Close(p, start, exact, e)
    ensures Close(p, JacobiRun(p, rhs, start, sweeps), exact, Power(10.0 / 11.0, sweeps) * e)
  {
    hide Close, JacobiRun, Solves, Power, Decayed;
    RunsContract(p, rhs, start, exact, e, sweeps);
    SolutionStays(p, rhs, exact, sweeps);
    DecayedIsPower(e, sweeps);
  }
}
