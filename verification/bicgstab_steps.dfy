/** Implicit time steps with BiCGSTAB on all ranks: the same on any number of ranks and on
    either device, and exact backward Euler steps when the residual vanishes. */
module BicgstabSteps {
  import opened GridTopology
  import opened Renumbering
  import opened Halo
  import opened HaloExchange
  import opened GridLayout
  import opened Stencil
  import opened Contraction
  import opened ImplicitStepping
  import opened RankMesh
  import opened Csr
  import opened DistributedMesh
  import opened DistributedSolver
  import opened DistributedJacobi
  import opened GridOperator
  import opened DistributedBicgstab
  import opened Bicgstab
  import opened Vectors

  // ----- the step on the whole grid -----

  /** Every pass of the step's solve has its quotients. */
  ghost predicate StepDefined(p: Problem, f: seq<seq<real>>, numIter: nat)
    requires p.Valid() && IsField(p, f)
  {
    TimesIsLinear(p);
    Iterates(Times(p), Flatten(p, RhsOf(p, f)), numIter).Reached?
  }

  /** Where the passes lead. */
  ghost function Final(p: Problem, f: seq<seq<real>>, numIter: nat): (st: State)
    requires p.Valid() && IsField(p, f) && StepDefined(p, f, numIter)
    ensures Bicgstab.Shaped(st, p.nx * p.ny)
  {
    TimesIsLinear(p);
    Iterates(Times(p), Flatten(p, RhsOf(p, f)), numIter).value
  }

  /** dQ after that many passes, cell by cell. */
  ghost function Change(p: Problem, f: seq<seq<real>>, numIter: nat): (d: seq<seq<real>>)
    requires p.Valid() && IsField(p, f) && StepDefined(p, f, numIter)
    ensures IsField(p, d)
  {
    FieldOf(p, Final(p, f, numIter).x)
  }

  /** What is left of the right-hand side. */
  ghost function Remainder(p: Problem, f: seq<seq<real>>, numIter: nat): (r: seq<real>)
    requires p.Valid() && IsField(p, f) && StepDefined(p, f, numIter)
    ensures |r| == p.nx * p.ny
  {
    Final(p, f, numIter).r
  }

  ghost function BicgstabStep(p: Problem, f: seq<seq<real>>, numIter: nat): (r: seq<seq<real>>)
    requires p.Valid() && IsField(p, f) && StepDefined(p, f, numIter)
    ensures IsField(p, r)
  {
    Sum(p, f, Change(p, f, numIter))
  }

  /** That many steps, if all of them are defined. */
  ghost function BicgstabRun(p: Problem, f: seq<seq<real>>, numIter: nat, steps: nat): (o: Outcome<seq<seq<real>>>)
    requires p.Valid() && IsField(p, f)
    ensures o.Reached? ==> IsField(p, o.value)
  {
    if steps == 0 then Reached(f)
    else match BicgstabRun(p, f, numIter, steps - 1)
      case Undefined => Undefined
      case Reached(g) => if StepDefined(p, g, numIter) then Reached(BicgstabStep(p, g, numIter)) else Undefined
  }

  lemma {:induction false} UndefinedRunStays(p: Problem, f: seq<seq<real>>, numIter: nat, m: nat, steps: nat)
    requires p.Valid() && IsField(p, f) && m <= steps && BicgstabRun(p, f, numIter, m).Undefined?
    ensures BicgstabRun(p, f, numIter, steps).Undefined?
    decreases steps
  {
    hide StepDefined, BicgstabStep;
    if m < steps {
      UndefinedRunStays(p, f, numIter, m, steps - 1);
    }
  }

  /** The remainder is, cell by cell, what backward Euler still misses at the new values. */
  lemma RemainderIsDefect(p: Problem, f: seq<seq<real>>, numIter: nat, i: int, j: int)
    requires p.Valid() && IsField(p, f) && IsCell(p, i, j) && StepDefined(p, f, numIter)
    ensures 0 <= Cell(p.nx, i, j) < p.nx * p.ny
    ensures var d := Change(p, f, numIter);
            Remainder(p, f, numIter)[Cell(p.nx, i, j)]
            == -(ImplicitTimeTerm(p) * d[j][i] + ResidualOf(p, BicgstabStep(p, f, numIter), i, j))
  {
    hide ResidualOf, RowOf, ImplicitTimeTerm, Iterates, FieldOf, Flatten, Times, Linear, Sum, RhsOf;
    TimesIsLinear(p);
    var b := Flatten(p, RhsOf(p, f));
    var x := Final(p, f, numIter).x;
    var c := Cell(p.nx, i, j);
    NumberParts(p.nx, p.ny, i, j);
    ResidualIsTrue(Times(p), b, numIter);
    FlattenAt(p, RhsOf(p, f), i, j);
    TimesAt(p, x, c);
    GridJacobian(p, f, FieldOf(p, x), i, j);
    assert Remainder(p, f, numIter)[c] == b[c] + -1.0 * Times(p)(x)[c];
  }

  /** So the solver has made an exact backward Euler step exactly when its residual is zero. */
  lemma ZeroRemainderIsBackwardEuler(p: Problem, f: seq<seq<real>>, numIter: nat)
    requires p.Valid() && IsField(p, f) && StepDefined(p, f, numIter)
    ensures Remainder(p, f, numIter) == Zeros(p.nx * p.ny) <==>
            forall i, j :: IsCell(p, i, j) ==>
              ImplicitTimeTerm(p) * Change(p, f, numIter)[j][i] + ResidualOf(p, BicgstabStep(p, f, numIter), i, j)
                == 0.0
  {
    hide ResidualOf, ImplicitTimeTerm, Change, Remainder, BicgstabStep, StepDefined;
    forall i, j | IsCell(p, i, j)
      ensures 0 <= Cell(p.nx, i, j) < p.nx * p.ny
      ensures Remainder(p, f, numIter)[Cell(p.nx, i, j)] == 0.0 <==>
              ImplicitTimeTerm(p) * Change(p, f, numIter)[j][i] + ResidualOf(p, BicgstabStep(p, f, numIter), i, j)
                == 0.0
    {
      RemainderIsDefect(p, f, numIter, i, j);
    }
    if forall i, j :: IsCell(p, i, j) ==>
         ImplicitTimeTerm(p) * Change(p, f, numIter)[j][i] + ResidualOf(p, BicgstabStep(p, f, numIter), i, j) == 0.0
    {
      forall c | 0 <= c < p.nx * p.ny
        ensures Remainder(p, f, numIter)[c] == Zeros(p.nx * p.ny)[c]
      {
        CellOfNumber(p.nx, p.ny, c);
        assert IsCell(p, c % p.nx, c / p.nx);
      }
    }
  }

  // ----- the step on all ranks -----

  lemma RhsIsOwn(p: Problem, l: Layout, q: nat, rhs: seq<real>, field: seq<seq<real>>)
    requires p.Valid() && Setting(l) && IsGrid(l, p.nx, p.ny) && IsField(p, field) && |l.owner| == p.nx * p.ny
    requires RhsHolds(p, l, q, rhs, field)
    ensures rhs == Own(l, q, Flatten(p, field))
  {
    hide Flatten;
    forall k | 0 <= k < NumOwned(l.owner, q)
      ensures rhs[k] == Own(l, q, Flatten(p, field))[k]
    {
      var i, j := CellOfLocal(p, l, q, k);
      FlattenAt(p, field, i, j);
    }
  }

  lemma HeldIsField(p: Problem, l: Layout, q: nat, v: seq<real>, x: seq<real>)
    requires p.Valid() && Setting(l) && IsGrid(l, p.nx, p.ny) && |x| == |l.owner| == p.nx * p.ny && Holds(l, q, v, x)
    ensures HoldsField(p, l, q, v, FieldOf(p, x))
  {
    hide FieldOf;
    forall k, i, j | IsLocal(p, l, q, k, i, j)
      ensures k < |v| && v[k] == FieldOf(p, x)[j][i]
    {
      FieldOfAt(p, x, i, j);
      assert v[k] == v[..NumOwned(l.owner, q)][k];
    }
  }

  /** dQ on every rank, by BiCGSTAB. */
  method SolveForChange(p: Problem, l: Layout, hs: seq<RankHalo>, ranks: seq<Rank>, matrices: seq<Matrix>, numIter: nat,
                        gpuSolver: bool, rhs: seq<seq<real>>, ghost f: seq<seq<real>>)
    returns (ok: bool, dQ: seq<array<real>>)
    requires Setting(l) && Ready(p, l, hs, ranks, matrices) && IsField(p, f) && p.Valid() && |rhs| == l.procs
    requires forall q :: 0 <= q < l.procs ==> RhsHolds(p, l, q, rhs[q], RhsOf(p, f))
    ensures fresh(dQ) && (ok <==> StepDefined(p, f, numIter))
    ensures ok ==>
              && |dQ| == l.procs
              && forall q :: 0 <= q < l.procs ==> HoldsField(p, l, q, dQ[q][..], Change(p, f, numIter))
  {
    hide Setting, Flatten, RhsHolds, IsGrid, AllBuilt, RanksBuilt, MatricesBuilt, HoldsField, Held, FieldOf, Own,
         IsField, Linear, Times, Iterates;
    ghost var b := Flatten(p, RhsOf(p, f));
    TimesIsLinear(p);
    forall q | 0 <= q < l.procs
      ensures rhs[q] == Own(l, q, b)
    {
      RhsIsOwn(p, l, q, rhs[q], RhsOf(p, f));
    }
    var rs, ps;
    ok, dQ, rs, ps := Solve(p, l, hs, ranks, matrices, rhs, numIter, gpuSolver, Times(p), b);
    if ok {
      ghost var x := Final(p, f, numIter).x;
      HeldFits(l, dQ, x);
      forall q | 0 <= q < l.procs
        ensures HoldsField(p, l, q, dQ[q][..], Change(p, f, numIter))
      {
        HeldIsField(p, l, q, dQ[q][..], x);
      }
    }
  }

  /** update_solution of the implicit solver with BiCGSTAB: the step of the whole grid, when
      the solve has no division by zero, which ok tells. */
  method StepBicgstab(p: Problem, l: Layout, hs: seq<RankHalo>, ranks: seq<Rank>, matrices: seq<Matrix>, numIter: nat,
                      gpuSolver: bool, vecs: seq<array<real>>, ghost f: seq<seq<real>>) returns (ok: bool)
    requires Setting(l) && Ready(p, l, hs, ranks, matrices) && p.Valid() && Fitting(l, vecs) && |vecs| == l.procs
             && IsField(p, f)
    requires forall q :: 0 <= q < l.procs ==> Shows(p, l, q, vecs[q][..], f)
    modifies vecs
    ensures ok <==> StepDefined(p, f, numIter)
    ensures ok ==> forall q :: 0 <= q < l.procs ==> Shows(p, l, q, vecs[q][..], BicgstabStep(p, f, numIter))
  {
    hide IsGrid, AllBuilt, Setting, HoldsField, IsField, LocalCells, Shows, RankBuilt, RhsHolds, MatricesBuilt, Change,
         Sum, StepDefined;
    var rhs := AllRhs(p, l, ranks, vecs, f);
    var dQ;
    ok, dQ := SolveForChange(p, l, hs, ranks, matrices, numIter, gpuSolver, rhs, f);
    if ok {
      ghost var d := Change(p, f, numIter);
      for q := 0 to l.procs
        invariant forall r :: 0 <= r < q ==> HoldsField(p, l, r, vecs[r][..], Sum(p, f, d))
        invariant forall r :: q <= r < l.procs ==> Shows(p, l, r, vecs[r][..], f)
        invariant forall r :: 0 <= r < l.procs ==> HoldsField(p, l, r, dQ[r][..], d)
      {
        AddChange(p, l, q, ranks[q], vecs[q], dQ[q], f, d);
      }
      ExchangeAll(p, l, hs, vecs, Sum(p, f, d));
    }
  }

  /** The implicit solver with BiCGSTAB, from the grid size to any number of time steps: every
      local value on every rank is that of one run of the whole grid, whatever the number of
      ranks and whichever device the solver uses. The run is defined as long as no division
      is by zero, which ok tells. (Valid, StepChosen and the positive sizes follow from
      UnitSquare.) */
  method SolveImplicit(p: Problem, procs: nat, initial: real, steps: nat, numIter: nat, gpuSolver: bool)
    returns (ok: bool, l: Layout, vecs: seq<array<real>>)
    requires UnitSquare(p) && p.Valid() && p.nx > 0 && p.ny > 0 && procs > 0
             && (p.nx + p.ny) as real <= TimeStepping.START
    requires p.StepChosen()
    ensures Setting(l) && l.procs == procs && FairlyDealt(l, p.nx, p.ny) && Fitting(l, vecs)
    ensures ok <==> BicgstabRun(p, Uniform(p, initial), numIter, steps).Reached?
    ensures ok ==> forall q :: 0 <= q < procs ==>
                     Shows(p, l, q, vecs[q][..], BicgstabRun(p, Uniform(p, initial), numIter, steps).value)
  {
    hide IsGrid, FairlyDealt, AllBuilt, Setting, HoldsField, IsField, LocalCells, Shows, RankBuilt, UnitSquare, Uniform,
         MatricesBuilt, BicgstabStep, StepDefined;
    var hs, ranks;
    l, hs, ranks := BuildRanks(p, procs);
    GridSizes(p, l);
    vecs := InitializeSolution(p, l, hs, initial);
    var deltaT := ComputeTimeStep(p, l, ranks, true);
    var matrices := AssembleAll(p, l, ranks, deltaT);
    MatrixCount(p, l, ranks, matrices);
    ghost var f := Uniform(p, initial);
    ok := true;
    var n := 0;
    while n < steps && ok
      invariant n <= steps && Fitting(l, vecs) && IsField(p, f) && fresh(vecs)
      invariant ok ==> BicgstabRun(p, Uniform(p, initial), numIter, n) == Reached(f)
      invariant ok ==> forall q :: 0 <= q < l.procs ==> Shows(p, l, q, vecs[q][..], f)
      invariant !ok ==> BicgstabRun(p, Uniform(p, initial), numIter, n).Undefined?
    {
      ok := StepBicgstab(p, l, hs, ranks, matrices, numIter, gpuSolver, vecs, f);
      if ok {
        f := BicgstabStep(p, f, numIter);
      }
      n := n + 1;
    }
    if !ok {
      UndefinedRunStays(p, Uniform(p, initial), numIter, n, steps);
    }
  }
}
