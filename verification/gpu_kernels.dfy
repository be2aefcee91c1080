/** The solver's GPU kernels compute what the CPU loops compute: the residual, face by face,
    and the Jacobi sweep, under every thread count and schedule. */
module GpuKernels {
  import opened RealSums
  import opened GridStride
  import opened GpuOperations
  import opened Vectors
  import opened LocalMesh
  import opened Csr

  // ----- one atomic addition per index -----

  /** Index b adds v[b] to cell[b]. */
  function Scatter(cell: seq<nat>, v: seq<real>): (ops: seq<seq<Op>>)
    requires |cell| == |v|
    ensures |ops| == |v| && forall b :: 0 <= b < |ops| ==> ops[b] == [Add(cell[b], v[b])]
  {
    seq(|v|, b requires 0 <= b < |v| => [Add(cell[b], v[b])])
  }

  /** All contributions to cell c. */
  ghost function Share(cell: seq<nat>, v: seq<real>, c: nat): (r: seq<real>)
    requires |cell| == |v|
    ensures |r| == |v| && forall i :: 0 <= i < |r| ==> r[i] == if cell[i] == c then v[i] else 0.0
  {
    seq(|v|, i requires 0 <= i < |v| => if cell[i] == c then v[i] else 0.0)
  }

  /** Whatever the thread count and the schedule, every cell has gained all its contributions,
      however many threads share it. */
  lemma EveryScheduleScatters(cell: seq<nat>, v: seq<real>, start: seq<real>, threads: nat, schedule: seq<nat>)
    requires threads > 0 && |cell| == |v| && forall b :: 0 <= b < |cell| ==> cell[b] < |start|
    requires Completes(Scatter(cell, v), start, threads, schedule)
    ensures forall c :: 0 <= c < |start| ==>
              Result(Scatter(cell, v), start, threads, schedule)[c] == start[c] + SumOf(Share(cell, v, c))
  {
    hide Completes, Result;
    EveryScheduleAdds(Scatter(cell, v), start, threads, schedule);
    forall c | 0 <= c < |start|
      ensures Totals(Scatter(cell, v), c, start[c]) == Share(cell, v, c)
    {
      ScatterTotals(cell, v, c, start[c]);
    }
  }

  lemma ScatterTotals(cell: seq<nat>, v: seq<real>, c: nat, x: real)
    requires |cell| == |v|
    ensures Totals(Scatter(cell, v), c, x) == Share(cell, v, c)
  {
    forall b | 0 <= b < |v|
      ensures Totals(Scatter(cell, v), c, x)[b] == Share(cell, v, c)[b]
    {
      assert After(Scatter(cell, v)[b], 0, c, x) == x;
    }
  }

  // ----- one private cell per index -----

  /** Cell i gains the terms, one by one. */
  function Gather(i: nat, terms: seq<real>): (ops: seq<Op>)
    ensures |ops| == |terms| && forall k :: 0 <= k < |ops| ==> ops[k] == Add(i, terms[k])
  {
    seq(|terms|, k requires 0 <= k < |terms| => Add(i, terms[k]))
  }

  lemma {:induction false} GatherTo(i: nat, terms: seq<real>, n: nat, x: real)
    requires n <= |terms|
    ensures After(Gather(i, terms), n, i, x) == x + SumTo(terms, n)
  {
    if n > 0 {
      GatherTo(i, terms, n - 1, x);
    }
  }

  /** The same, cleared first. */
  function GatherFresh(i: nat, terms: seq<real>): (ops: seq<Op>)
    ensures |ops| == |terms| + 1 && ops[0] == Clear(i) && forall k :: 0 < k < |ops| ==> ops[k] == Add(i, terms[k - 1])
  {
    [Clear(i)] + Gather(i, terms)
  }

  lemma {:induction false} GatherFreshTo(i: nat, terms: seq<real>, n: nat, x: real)
    requires n <= |terms|
    ensures After(GatherFresh(i, terms), n + 1, i, x) == SumTo(terms, n)
  {
    if n > 0 {
      GatherFreshTo(i, terms, n - 1, x);
    } else {
      assert After(GatherFresh(i, terms), 0, i, x) == x;
    }
  }

  ghost function GatherAll(v: seq<seq<real>>, clear: bool): (ops: seq<seq<Op>>)
    ensures |ops| == |v|
    ensures forall i :: 0 <= i < |ops| ==> ops[i] == if clear then GatherFresh(i, v[i]) else Gather(i, v[i])
  {
    seq(|v|, i requires 0 <= i < |v| => if clear then GatherFresh(i, v[i]) else Gather(i, v[i]))
  }

  lemma GatherTouches(v: seq<seq<real>>, clear: bool, i: nat, c: nat)
    requires i < |v| && c != i
    ensures !Touches(GatherAll(v, clear)[i], c)
  {
  }

  lemma GatheredCell(v: seq<seq<real>>, clear: bool, i: nat, x: real)
    requires i < |v|
    ensures x + SumOf(Totals(GatherAll(v, clear), i, x)) == (if clear then 0.0 else x) + SumOf(v[i])
  {
    hide Touches, After, Totals, Gather, GatherFresh;
    forall k | 0 <= k < |v| && k != i
      ensures !Touches(GatherAll(v, clear)[k], i)
    {
      GatherTouches(v, clear, k, i);
    }
    OwnCell(GatherAll(v, clear), i, x, i);
    GatherTo(i, v[i], |v[i]|, x);
    GatherFreshTo(i, v[i], |v[i]|, x);
  }

  lemma UngatheredCell(v: seq<seq<real>>, clear: bool, c: nat, x: real)
    requires c >= |v|
    ensures SumOf(Totals(GatherAll(v, clear), c, x)) == 0.0
  {
    hide Touches, Totals, Gather, GatherFresh;
    forall k | 0 <= k < |v|
      ensures !Touches(GatherAll(v, clear)[k], c)
    {
      GatherTouches(v, clear, k, c);
    }
    FreeCell(GatherAll(v, clear), c, x);
  }

  lemma GatherFits(v: seq<seq<real>>, clear: bool, n: nat)
    requires |v| <= n
    ensures Fits(GatherAll(v, clear), n) && ClearsOwn(GatherAll(v, clear))
  {
  }

  /** However the threads' single operations interleave, a finished launch has added the sum of
      each row to its cell, or put it there. */
  lemma EveryScheduleGathers(v: seq<seq<real>>, clear: bool, start: seq<real>, threads: nat, schedule: seq<nat>)
    requires threads > 0 && |v| <= |start| && Completes(GatherAll(v, clear), start, threads, schedule)
    ensures var out := Result(GatherAll(v, clear), start, threads, schedule);
            && (forall i :: 0 <= i < |v| ==> out[i] == (if clear then 0.0 else start[i]) + SumOf(v[i]))
            && (forall i :: |v| <= i < |start| ==> out[i] == start[i])
  {
    hide Completes, Result, Totals, GatherAll, SumOf, Fits, ClearsOwn;
    GatherFits(v, clear, |start|);
    EveryScheduleAdds(GatherAll(v, clear), start, threads, schedule);
    forall i | 0 <= i < |start|
      ensures Result(GatherAll(v, clear), start, threads, schedule)[i]
              == if i < |v| then (if clear then 0.0 else start[i]) + SumOf(v[i]) else start[i]
    {
      if i < |v| {
        GatheredCell(v, clear, i, start[i]);
      } else {
        UngatheredCell(v, clear, i, start[i]);
      }
    }
  }

  // ----- compute_residual on the GPU -----

  /** What kg_residual_interior_diffusion subtracts in row i. */
  ghost function InnerLosses(m: Mesh, q: seq<real>): (v: seq<seq<real>>)
    requires Values(m, q)
    ensures |v| == m.solved && forall i :: 0 <= i < |v| ==> v[i] == ScaledBy(-1.0, FluxTerms(m, q, i))
  {
    seq(m.solved, i requires 0 <= i < m.solved => ScaledBy(-1.0, FluxTerms(m, q, i)))
  }

  ghost function BoundaryCells(m: Mesh): (r: seq<nat>)
    requires Shaped(m)
    ensures |r| == |m.faceCell| && forall b :: 0 <= b < |r| ==> r[b] == m.faceCell[b] < m.solved
  {
    seq(|m.faceCell|, b requires 0 <= b < |m.faceCell| => m.faceCell[b])
  }

  /** What kg_residual_boundary_diffusion subtracts at face b. */
  ghost function BoundaryLosses(m: Mesh, q: seq<real>, qb: seq<real>): (r: seq<real>)
    requires Values(m, q) && |qb| == |m.faceCell|
    ensures |r| == |qb| && forall b :: 0 <= b < |r| ==> r[b] == -FaceFlux(m, q, qb, b)
  {
    seq(|qb|, b requires 0 <= b < |qb| => -FaceFlux(m, q, qb, b))
  }

  ghost function InnerResidual(m: Mesh, q: seq<real>, start: seq<real>, threads: nat,
                               schedule: seq<nat>): (r: seq<real>)
    requires Values(m, q)
    ensures |r| == |start|
  {
    Result(GatherAll(InnerLosses(m, q), true), start, threads, schedule)
  }

  lemma LossesSum(m: Mesh, q: seq<real>, qb: seq<real>, i: nat)
    requires Values(m, q) && |qb| == |m.faceCell| && i < m.solved
    ensures SumOf(InnerLosses(m, q)[i]) == -SumOf(FluxTerms(m, q, i))
    ensures SumOf(Share(BoundaryCells(m), BoundaryLosses(m, q, qb), i)) == -SumOf(FaceTerms(m, q, qb, i))
  {
    hide Flux, FaceFlux;
    SumScaled(InnerLosses(m, q)[i], -1.0, FluxTerms(m, q, i));
    SumScaled(Share(BoundaryCells(m), BoundaryLosses(m, q, qb), i), -1.0, FaceTerms(m, q, qb, i));
  }

  /** The interior kernel, then the boundary kernel with its atomic subtractions: whatever the
      thread counts and schedules of the two launches, the residuals are those of the CPU. */
  lemma GpuResidualIsCpuResidual(m: Mesh, q: seq<real>, qb: seq<real>, start: seq<real>,
                                 threads: nat, schedule: seq<nat>, boundaryThreads: nat, boundarySchedule: seq<nat>)
    requires Values(m, q) && |qb| == |m.faceCell| && |start| == m.involved && threads > 0 && boundaryThreads > 0
    requires Completes(GatherAll(InnerLosses(m, q), true), start, threads, schedule)
    requires Completes(Scatter(BoundaryCells(m), BoundaryLosses(m, q, qb)),
                       InnerResidual(m, q, start, threads, schedule),
                       boundaryThreads, boundarySchedule)
    ensures Result(Scatter(BoundaryCells(m), BoundaryLosses(m, q, qb)), InnerResidual(m, q, start, threads, schedule),
                   boundaryThreads, boundarySchedule)[..m.solved] == Residual(m, q, qb)
  {
    hide Completes, Result, Flux, FaceFlux;
    EveryScheduleGathers(InnerLosses(m, q), true, start, threads, schedule);
    EveryScheduleScatters(BoundaryCells(m), BoundaryLosses(m, q, qb), InnerResidual(m, q, start, threads, schedule),
                          boundaryThreads, boundarySchedule);
    forall i | 0 <= i < m.solved
      ensures Residual(m, q, qb)[i]
              == SumOf(InnerLosses(m, q)[i]) + SumOf(Share(BoundaryCells(m), BoundaryLosses(m, q, qb), i))
    {
      LossesSum(m, q, qb, i);
    }
  }

  // ----- the Jacobi sweep and the vector kernels on the GPU -----

  /** The body of kg_jacobi_linear_solver: it reads only vectors the launch does not write. */
  ghost function JacobiBody(c: Matrix, rows: nat, rhs: seq<real>, x: seq<real>): (nat, real) -> real
    requires DiagonalNonzero(c, rows, |x|) && rows <= |rhs|
  {
    (i: nat, was: real) => if i < rows then JacobiAt(c, rows, rhs, x, i) else was
  }

  /** The GPU sweep is the CPU sweep. */
  lemma GpuSweepIsCpuSweep(c: Matrix, rows: nat, rhs: seq<real>, x: seq<real>, start: seq<real>, threads: nat,
                           schedule: seq<nat>)
    requires DiagonalNonzero(c, rows, |x|) && rows <= |rhs| && rows <= |start| && threads > 0
    requires Finished(MapRun(JacobiBody(c, rows, rhs, x), rows, Machine(FirstIndices(threads), start), schedule).pos,
                      rows)
    ensures MapRun(JacobiBody(c, rows, rhs, x), rows, Machine(FirstIndices(threads), start), schedule).out[..rows]
            == JacobiSweep(c, rows, rhs, x)
  {
    hide JacobiAt, MapRun;
    EveryScheduleMaps(JacobiBody(c, rows, rhs, x), rows, start, threads, schedule);
  }

  /** Which operand of x + b y, if any, the result is written over. */
  datatype Over = First | Second | Neither

  /** The body of kg_bicgstab_xpby: an operand the launch writes over is read from the result,
      at the index itself. */
  ghost function XpbyBody(over: Over, x: seq<real>, b: real, y: seq<real>): (nat, real) -> real
    requires |x| == |y|
  {
    (i: nat, was: real) =>
      if i >= |x| then was
      else (if over.First? then was else x[i]) + b * (if over.Second? then was else y[i])
  }

  /** The result is that of the CPU's Xpby whatever the schedule, in place over either operand
      or not: no index reads what another one writes. */
  lemma GpuXpbyIsAxpy(over: Over, x: seq<real>, b: real, y: seq<real>, start: seq<real>, threads: nat,
                      schedule: seq<nat>)
    requires |x| == |y| <= |start| && threads > 0
    requires (over.First? ==> start[..|x|] == x) && (over.Second? ==> start[..|y|] == y)
    requires Finished(MapRun(XpbyBody(over, x, b, y), |x|, Machine(FirstIndices(threads), start), schedule).pos, |x|)
    ensures var out := MapRun(XpbyBody(over, x, b, y), |x|, Machine(FirstIndices(threads), start), schedule).out;
            |out| == |start| && out[..|x|] == Axpy(x, b, y)
  {
    hide MapRun;
    EveryScheduleMaps(XpbyBody(over, x, b, y), |x|, start, threads, schedule);
    var out := MapRun(XpbyBody(over, x, b, y), |x|, Machine(FirstIndices(threads), start), schedule).out;
    forall i | 0 <= i < |x|
      ensures out[i] == x[i] + b * y[i]
    {
      assert over.First? ==> start[i] == start[..|x|][i];
      assert over.Second? ==> start[i] == start[..|y|][i];
    }
  }
}
