/** Exchanging left with right, or the rows with the columns, gives another problem of the same
    kind, and its run is the same run seen from there. */
module GridSymmetry {
  import opened MaxPrinciple
  import opened Stencil

  datatype Turn = Mirrored | Transposed

  function TurnedProblem(t: Turn, p: Problem): Problem {
    match t
    case Mirrored => p.(left := p.right, right := p.left)
    case Transposed =>
      Problem(p.ny, p.nx, p.wy, p.wx, p.volume, p.dt, p.bottom, p.top, p.left, p.right)
  }

  /** Where column i and row j are afterwards. */
  function ColumnAfter(t: Turn, p: Problem, i: int, j: int): int {
    if t.Mirrored? then p.nx - 1 - i else j
  }

  function RowAfter(t: Turn, i: int, j: int): int {
    if t.Mirrored? then j else i
  }

  function SideAfter(t: Turn, s: Side): Side {
    match t
    case Mirrored => (match s case Left => Right case Right => Left case Bottom => Bottom case Top => Top)
    case Transposed => (match s case Left => Bottom case Right => Top case Bottom => Left case Top => Right)
  }

  /** g holds the values of f where the cells are afterwards. */
  ghost predicate Turned(t: Turn, p: Problem, f: seq<seq<real>>, g: seq<seq<real>>) {
    && IsField(p, f) && IsField(TurnedProblem(t, p), g)
    && forall i, j :: IsCell(p, i, j) ==> g[RowAfter(t, i, j)][ColumnAfter(t, p, i, j)] == f[j][i]
  }

  lemma CellTurned(t: Turn, p: Problem, i: int, j: int)
    requires IsCell(p, i, j)
    ensures IsCell(TurnedProblem(t, p), ColumnAfter(t, p, i, j), RowAfter(t, i, j))
  {
  }

  lemma BeyondTurned(t: Turn, p: Problem, f: seq<seq<real>>, g: seq<seq<real>>, i: int, j: int, s: Side)
    requires Turned(t, p, f, g) && IsCell(p, i, j)
    requires IsCell(TurnedProblem(t, p), ColumnAfter(t, p, i, j), RowAfter(t, i, j))
    ensures Beyond(TurnedProblem(t, p), g, ColumnAfter(t, p, i, j), RowAfter(t, i, j), SideAfter(t, s))
            == Beyond(p, f, i, j, s)
  {
    match s
    case Left => if i > 0 { assert IsCell(p, i - 1, j); }
    case Right => if i < p.nx - 1 { assert IsCell(p, i + 1, j); }
    case Bottom => if j > 0 { assert IsCell(p, i, j - 1); }
    case Top => if j < p.ny - 1 { assert IsCell(p, i, j + 1); }
  }

  lemma FluxTurned(t: Turn, p: Problem, f: seq<seq<real>>, g: seq<seq<real>>, i: int, j: int, s: Side)
    requires Turned(t, p, f, g) && IsCell(p, i, j)
    requires IsCell(TurnedProblem(t, p), ColumnAfter(t, p, i, j), RowAfter(t, i, j))
    ensures SideFlux(TurnedProblem(t, p), g, ColumnAfter(t, p, i, j), RowAfter(t, i, j), SideAfter(t, s))
            == SideFlux(p, f, i, j, s)
  {
    hide Beyond;
    BeyondTurned(t, p, f, g, i, j, s);
  }

  lemma StepTurned(t: Turn, p: Problem, f: seq<seq<real>>, g: seq<seq<real>>)
    requires Turned(t, p, f, g)
    ensures Turned(t, p, ExplicitStep(p, f), ExplicitStep(TurnedProblem(t, p), g))
  {
    hide SideFlux, Updated;
    var q := TurnedProblem(t, p);
    forall i, j | IsCell(p, i, j)
      ensures ExplicitStep(q, g)[RowAfter(t, i, j)][ColumnAfter(t, p, i, j)] == ExplicitStep(p, f)[j][i]
    {
      CellTurned(t, p, i, j);
      FluxTurned(t, p, f, g, i, j, Left);
      FluxTurned(t, p, f, g, i, j, Right);
      FluxTurned(t, p, f, g, i, j, Bottom);
      FluxTurned(t, p, f, g, i, j, Top);
    }
  }

  lemma {:induction false} RunTurned(t: Turn, p: Problem, f: seq<seq<real>>, g: seq<seq<real>>, steps: nat)
    requires Turned(t, p, f, g)
    ensures Turned(t, p, ExplicitRun(p, f, steps), ExplicitRun(TurnedProblem(t, p), g, steps))
  {
    hide ExplicitStep, IsCell, RowAfter, ColumnAfter, TurnedProblem;
    if steps > 0 {
      RunTurned(t, p, f, g, steps - 1);
      StepTurned(t, p, ExplicitRun(p, f, steps - 1), ExplicitRun(TurnedProblem(t, p), g, steps - 1));
    }
  }

  lemma UniformTurned(t: Turn, p: Problem, value: real)
    requires p.Valid()
    ensures TurnedProblem(t, p).Valid() && Turned(t, p, Uniform(p, value), Uniform(TurnedProblem(t, p), value))
  {
    forall i, j | IsCell(p, i, j)
      ensures Uniform(TurnedProblem(t, p), value)[RowAfter(t, i, j)][ColumnAfter(t, p, i, j)] == value
    {
      CellTurned(t, p, i, j);
    }
  }

  /** The cell's value in a run from a uniform start is the turned cell's in the turned run. */
  lemma UniformRunTurned(t: Turn, p: Problem, value: real, steps: nat, i: int, j: int)
    requires IsCell(p, i, j)
    ensures IsCell(TurnedProblem(t, p), ColumnAfter(t, p, i, j), RowAfter(t, i, j))
    ensures ExplicitRun(TurnedProblem(t, p), Uniform(TurnedProblem(t, p), value),
                        steps)[RowAfter(t, i, j)][ColumnAfter(t, p, i, j)]
            == ExplicitRun(p, Uniform(p, value), steps)[j][i]
  {
    CellTurned(t, p, i, j);
    UniformTurned(t, p, value);
    RunTurned(t, p, Uniform(p, value), Uniform(TurnedProblem(t, p), value), steps);
  }
}
