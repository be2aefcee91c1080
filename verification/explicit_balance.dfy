/** What an explicit run does in every step, and over all of them: the heat a cell gains is what
    flows into it, and the heat the whole grid has gained is what came in through its sides,
    whatever the number of steps and of ranks. */
module ExplicitBalance {
  import opened Conservation
  import opened DistributedSums
  import opened GridLayout
  import opened GridTopology
  import opened Halo
  import opened HaloExchange
  import opened MaxPrinciple
  import opened RankMesh
  import opened RealFacts
  import opened RealSums
  import opened Renumbering
  import opened Stencil
  import opened Vectors

  // ----- one cell -----

  lemma UpdateBalance(x: real, r: real, t: real, v: real)
    requires v > 0.0
    ensures (Updated(x, r, t, v) - x) * v == -t * r
  {
    Quotient(r * t, v);
    var q := r * t / v;
    assert (x - q - x) * v == -(q * v);
  }

  /** g is f after one step: what every cell has gained is what flows into it. */
  ghost predicate Gains(p: Problem, f: seq<seq<real>>, g: seq<seq<real>>) {
    && IsField(p, f) && IsField(p, g)
    && forall i, j :: IsCell(p, i, j) ==> (g[j][i] - f[j][i]) * p.volume == -p.dt * ResidualOf(p, f, i, j)
  }

  lemma StepGains(p: Problem, f: seq<seq<real>>, g: seq<seq<real>>)
    requires IsField(p, f) && IsField(p, g)
    ensures Gains(p, f, g) <==> g == ExplicitStep(p, f)
  {
    hide ResidualOf, Updated;
    var step := ExplicitStep(p, f);
    forall i, j | IsCell(p, i, j)
      ensures (step[j][i] - f[j][i]) * p.volume == -p.dt * ResidualOf(p, f, i, j)
      ensures Gains(p, f, g) ==> g[j][i] == step[j][i]
    {
      UpdateBalance(f[j][i], ResidualOf(p, f, i, j), p.dt, p.volume);
      if Gains(p, f, g) {
        SameGain(g[j][i], step[j][i], f[j][i], p.volume);
      }
    }
    if Gains(p, f, g) {
      forall j | 0 <= j < p.ny
        ensures g[j] == step[j]
      {
        assert forall i :: 0 <= i < p.nx ==> IsCell(p, i, j);
      }
    }
  }

  lemma SameGain(x: real, y: real, from: real, v: real)
    requires v > 0.0 && (x - from) * v == (y - from) * v
    ensures x == y
  {
    assert (x - y) * v == 0.0;
  }

  // ----- the whole run -----

  /** Fields from f on, each the next one's predecessor by one step. */
  ghost predicate Evolves(p: Problem, f: seq<seq<real>>, fields: seq<seq<seq<real>>>) {
    && |fields| > 0 && fields[0] == f
    && forall n :: 0 < n < |fields| ==> Gains(p, fields[n - 1], fields[n])
  }

  /** The run is the sequence of fields that the balance of every cell determines. */
  lemma {:induction false} RunIsEvolution(p: Problem, f: seq<seq<real>>, fields: seq<seq<seq<real>>>, n: nat)
    requires IsField(p, f) && Evolves(p, f, fields) && n < |fields|
    ensures fields[n] == ExplicitRun(p, f, n)
  {
    hide Gains, ExplicitStep;
    if n > 0 {
      RunIsEvolution(p, f, fields, n - 1);
      assert Gains(p, fields[n - 1], fields[n]);
      GainsFields(p, fields[n - 1], fields[n]);
      StepGains(p, fields[n - 1], fields[n]);
    }
  }

  lemma GainsFields(p: Problem, f: seq<seq<real>>, g: seq<seq<real>>)
    requires Gains(p, f, g)
    ensures IsField(p, f) && IsField(p, g)
  {
  }

  /** It starts with f, and in every later step every cell keeps its balance. */
  lemma RunBalance(p: Problem, f: seq<seq<real>>, n: nat)
    requires IsField(p, f)
    ensures ExplicitRun(p, f, 0) == f
    ensures Gains(p, ExplicitRun(p, f, n), ExplicitRun(p, f, n + 1))
  {
    hide Gains, ExplicitStep;
    StepGains(p, ExplicitRun(p, f, n), ExplicitRun(p, f, n + 1));
  }

  // ----- all cells -----

  /** The heat of the grid, per unit of volume. */
  ghost function Total(p: Problem, f: seq<seq<real>>): real
    requires IsField(p, f)
  {
    SumOf(Flatten(p, f))
  }

  /** What flows in through the boundary during each of the first n steps. */
  ghost function Inflows(p: Problem, f: seq<seq<real>>, n: nat): (r: seq<real>)
    requires IsField(p, f)
    ensures |r| == n && forall m :: 0 <= m < n ==> r[m] == TotalBoundary(p, ExplicitRun(p, f, m), p.ny)
  {
    seq(n, m requires 0 <= m < n => TotalBoundary(p, ExplicitRun(p, f, m), p.ny))
  }

  lemma FlatGains(p: Problem, f: seq<seq<real>>, g: seq<seq<real>>, c: nat)
    requires Gains(p, f, g) && c < p.nx * p.ny
    ensures (Flatten(p, g)[c] - Flatten(p, f)[c]) * p.volume == -p.dt * FlatResidual(p, f)[c]
  {
    hide ResidualOf;
    CellOfNumber(p.nx, p.ny, c);
    assert IsCell(p, c % p.nx, c / p.nx);
  }

  lemma SumsBalance(before: seq<real>, after: seq<real>, loss: seq<real>, v: real, t: real)
    requires |before| == |after| == |loss|
    requires forall c :: 0 <= c < |loss| ==> (after[c] - before[c]) * v == -t * loss[c]
    ensures v * (SumOf(after) - SumOf(before)) == -t * SumOf(loss)
  {
    var scaled, was, gain := ScaledBy(v, after), ScaledBy(v, before), ScaledBy(-t, loss);
    forall c | 0 <= c < |loss|
      ensures scaled[c] == was[c] + gain[c]
    {
      assert (after[c] - before[c]) * v == v * after[c] - v * before[c];
    }
    SumPlus(scaled, was, gain);
    SumScaled(scaled, v, after);
    SumScaled(was, v, before);
    SumScaled(gain, -t, loss);
  }

  lemma StepTotal(p: Problem, f: seq<seq<real>>, g: seq<seq<real>>)
    requires Gains(p, f, g)
    ensures IsField(p, f) && IsField(p, g)
    ensures p.volume * (Total(p, g) - Total(p, f)) == p.dt * TotalBoundary(p, f, p.ny)
  {
    hide Gains, Flatten, FlatResidual, TotalBoundary, TotalResidual;
    GainsFields(p, f, g);
    forall c | 0 <= c < p.nx * p.ny
      ensures (Flatten(p, g)[c] - Flatten(p, f)[c]) * p.volume == -p.dt * FlatResidual(p, f)[c]
    {
      FlatGains(p, f, g, c);
    }
    SumsBalance(Flatten(p, f), Flatten(p, g), FlatResidual(p, f), p.volume, p.dt);
    RowsSum(p, f, p.ny);
    assert p.ny * p.nx == p.nx * p.ny;
    InteriorFluxesCancel(p, f);
    Opposites(p.dt, SumOf(FlatResidual(p, f)), TotalBoundary(p, f, p.ny));
  }

  lemma Opposites(t: real, loss: real, inflow: real)
    requires loss == -inflow
    ensures -t * loss == t * inflow
  {
  }

  /** After any number of steps the grid has gained what came in through its sides. */
  lemma {:induction false} HeatBalance(p: Problem, f: seq<seq<real>>, n: nat)
    requires IsField(p, f)
    ensures p.volume * (Total(p, ExplicitRun(p, f, n)) - Total(p, f)) == p.dt * SumOf(Inflows(p, f, n))
  {
    hide TotalBoundary, Total, Gains, ExplicitRun;
    RunBalance(p, f, 0);
    if n > 0 {
      HeatBalance(p, f, n - 1);
      RunBalance(p, f, n - 1);
      StepTotal(p, ExplicitRun(p, f, n - 1), ExplicitRun(p, f, n));
      SumPrefix(Inflows(p, f, n), Inflows(p, f, n - 1), n - 1);
      StepsAdd(p.volume, Total(p, ExplicitRun(p, f, n)), Total(p, ExplicitRun(p, f, n - 1)), Total(p, f), p.dt,
               SumOf(Inflows(p, f, n - 1)), Inflows(p, f, n)[n - 1]);
    }
  }

  lemma StepsAdd(v: real, last: real, before: real, first: real, t: real, sum: real, inflow: real)
    requires v * (before - first) == t * sum && v * (last - before) == t * inflow
    ensures v * (last - first) == t * (sum + inflow)
  {
    assert v * (last - first) == v * (last - before) + v * (before - first);
  }

  // ----- as the ranks hold it -----

  lemma OwnOfShown(p: Problem, l: Layout, q: nat, v: seq<real>, f: seq<seq<real>>)
    requires Shows(p, l, q, v, f)
    ensures Setting(l) && IsField(p, f) && |l.owner| == p.nx * p.ny && NumOwned(l.owner, q) <= |v|
    ensures OwnValues(l.owner, q, Flatten(p, f), v[..NumOwned(l.owner, q)])
  {
    hide IsGrid, Flatten;
    GridSetting(p, l);
    var own := v[..NumOwned(l.owner, q)];
    forall k | 0 <= k < |own|
      ensures Owned(l.owner, q, |l.owner|)[k] < |l.owner| && own[k] == Flatten(p, f)[Owned(l.owner, q, |l.owner|)[k]]
    {
      assert LocalCells(l, q)[k] == Owned(l.owner, q, |l.owner|)[k];
    }
  }

  lemma GridSetting(p: Problem, l: Layout)
    requires IsGrid(l, p.nx, p.ny)
    ensures Setting(l) && |l.owner| == p.nx * p.ny && Owners(l.owner, l.procs)
  {
  }

  /** owns are the ranks' own cells of the vectors, which show f. */
  ghost predicate OwnsShown(p: Problem, l: Layout, vecs: seq<seq<real>>, owns: seq<seq<real>>, f: seq<seq<real>>) {
    && |vecs| == |owns| == l.procs
    && forall q :: 0 <= q < l.procs ==>
         Shows(p, l, q, vecs[q], f) && NumOwned(l.owner, q) <= |vecs[q]| && owns[q] == vecs[q][..NumOwned(l.owner, q)]
  }

  /** Summed over all ranks, every cell counts once. */
  lemma RanksTotal(p: Problem, l: Layout, vecs: seq<seq<real>>, owns: seq<seq<real>>, f: seq<seq<real>>)
    requires IsField(p, f) && IsGrid(l, p.nx, p.ny) && OwnsShown(p, l, vecs, owns, f)
    ensures RankSums(owns, l.procs) == Total(p, f)
  {
    hide Shows, IsGrid, Flatten, OwnValues;
    GridSetting(p, l);
    forall q | 0 <= q < l.procs
      ensures OwnValues(l.owner, q, Flatten(p, f), owns[q])
    {
      OwnOfShown(p, l, q, vecs[q], f);
    }
    RanksSumAll(l.owner, Flatten(p, f), owns, l.procs);
  }

  /** So what all ranks together hold has gained just that, on any partition. */
  lemma RanksBalance(p: Problem, l: Layout, f: seq<seq<real>>, n: nat, vecs: seq<seq<real>>, owns: seq<seq<real>>)
    requires IsField(p, f) && IsGrid(l, p.nx, p.ny) && OwnsShown(p, l, vecs, owns, ExplicitRun(p, f, n))
    ensures p.volume * (RankSums(owns, l.procs) - Total(p, f)) == p.dt * SumOf(Inflows(p, f, n))
  {
    hide IsGrid, OwnsShown, ExplicitRun, Inflows, Total;
    RanksTotal(p, l, vecs, owns, ExplicitRun(p, f, n));
    HeatBalance(p, f, n);
  }
}
