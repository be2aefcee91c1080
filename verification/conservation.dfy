/** Interior fluxes cancel: summed over the grid, the residual is minus the boundary fluxes. */
module Conservation {
  import opened RealSums
  import opened Stencil

  /** The flux into cell (i, j) from its right neighbour, none at the ends of the row. */
  ghost function East(p: Problem, f: seq<seq<real>>, i: int, j: int): real
    requires IsField(p, f) && 0 <= j < p.ny
  {
    if 0 <= i < p.nx - 1 then (f[j][i + 1] - f[j][i]) * p.wx else 0.0
  }

  /** The flux into cell (i, j) from its upper neighbour, none at the ends of the column. */
  ghost function North(p: Problem, f: seq<seq<real>>, i: int, j: int): real
    requires IsField(p, f) && 0 <= i < p.nx
  {
    if 0 <= j < p.ny - 1 then (f[j + 1][i] - f[j][i]) * p.wy else 0.0
  }

  ghost function FromOutside(p: Problem, f: seq<seq<real>>, i: int, j: int, s: Side): real
    requires IsField(p, f) && IsCell(p, i, j)
  {
    if HasNeighbour(p, i, j, s) then 0.0 else SideFlux(p, f, i, j, s)
  }

  /** The fluxes into a cell through the boundary of the domain. */
  ghost function BoundaryFlux(p: Problem, f: seq<seq<real>>, i: int, j: int): real
    requires IsField(p, f) && IsCell(p, i, j)
  {
    FromOutside(p, f, i, j, Left) + FromOutside(p, f, i, j, Right)
    + FromOutside(p, f, i, j, Bottom) + FromOutside(p, f, i, j, Top)
  }

  ghost function InnerX(p: Problem, f: seq<seq<real>>, j: int): (r: seq<real>)
    requires IsField(p, f) && 0 <= j < p.ny
    ensures |r| == p.nx && forall i :: 0 <= i < p.nx ==> r[i] == East(p, f, i, j) - East(p, f, i - 1, j)
  {
    seq(p.nx, i requires 0 <= i < p.nx => East(p, f, i, j) - East(p, f, i - 1, j))
  }

  ghost function NorthRow(p: Problem, f: seq<seq<real>>, j: int): (r: seq<real>)
    requires IsField(p, f)
    ensures |r| == p.nx && forall i :: 0 <= i < p.nx ==> r[i] == North(p, f, i, j)
  {
    seq(p.nx, i requires 0 <= i < p.nx => North(p, f, i, j))
  }

  ghost function InnerY(p: Problem, f: seq<seq<real>>, j: int): (r: seq<real>)
    requires IsField(p, f)
    ensures |r| == p.nx && forall i :: 0 <= i < p.nx ==> r[i] == North(p, f, i, j) - North(p, f, i, j - 1)
  {
    seq(p.nx, i requires 0 <= i < p.nx => North(p, f, i, j) - North(p, f, i, j - 1))
  }

  ghost function BoundaryRow(p: Problem, f: seq<seq<real>>, j: int): (r: seq<real>)
    requires IsField(p, f) && 0 <= j < p.ny
    ensures |r| == p.nx && forall i :: 0 <= i < p.nx ==> r[i] == BoundaryFlux(p, f, i, j)
  {
    seq(p.nx, i requires 0 <= i < p.nx => BoundaryFlux(p, f, i, j))
  }

  ghost function ResidualRow(p: Problem, f: seq<seq<real>>, j: int): (r: seq<real>)
    requires IsField(p, f) && 0 <= j < p.ny
    ensures |r| == p.nx && forall i :: 0 <= i < p.nx ==> r[i] == ResidualOf(p, f, i, j)
  {
    seq(p.nx, i requires 0 <= i < p.nx => ResidualOf(p, f, i, j))
  }

  /** The total residual of the first rows rows. */
  ghost function TotalResidual(p: Problem, f: seq<seq<real>>, rows: nat): real
    requires IsField(p, f) && rows <= p.ny
  {
    if rows == 0 then 0.0 else TotalResidual(p, f, rows - 1) + SumOf(ResidualRow(p, f, rows - 1))
  }

  ghost function TotalBoundary(p: Problem, f: seq<seq<real>>, rows: nat): real
    requires IsField(p, f) && rows <= p.ny
  {
    if rows == 0 then 0.0 else TotalBoundary(p, f, rows - 1) + SumOf(BoundaryRow(p, f, rows - 1))
  }

  // ----- one cell -----

  /** A face seen from its two cells carries opposite fluxes. */
  lemma CellBalance(p: Problem, f: seq<seq<real>>, i: int, j: int)
    requires IsField(p, f) && IsCell(p, i, j)
    ensures -ResidualOf(p, f, i, j)
            == East(p, f, i, j) - East(p, f, i - 1, j) + (North(p, f, i, j) - North(p, f, i, j - 1))
              + BoundaryFlux(p, f, i, j)
  {
    LeftFlux(p, f, i, j);
    BottomFlux(p, f, i, j);
    assert SideFlux(p, f, i, j, Right) == East(p, f, i, j) + FromOutside(p, f, i, j, Right);
    assert SideFlux(p, f, i, j, Top) == North(p, f, i, j) + FromOutside(p, f, i, j, Top);
    hide SideFlux, East, North, FromOutside;
  }

  lemma LeftFlux(p: Problem, f: seq<seq<real>>, i: int, j: int)
    requires IsField(p, f) && IsCell(p, i, j)
    ensures SideFlux(p, f, i, j, Left) == -East(p, f, i - 1, j) + FromOutside(p, f, i, j, Left)
  {
    if i > 0 {
      Opposite(f[j][i - 1], f[j][i], p.wx);
    }
  }

  lemma BottomFlux(p: Problem, f: seq<seq<real>>, i: int, j: int)
    requires IsField(p, f) && IsCell(p, i, j)
    ensures SideFlux(p, f, i, j, Bottom) == -North(p, f, i, j - 1) + FromOutside(p, f, i, j, Bottom)
  {
    if j > 0 {
      Opposite(f[j - 1][i], f[j][i], p.wy);
    }
  }

  lemma Opposite(a: real, b: real, w: real)
    ensures (a - b) * w == -((b - a) * w)
  {
  }

  // ----- rows telescope -----

  lemma {:induction false} RowTelescopes(p: Problem, f: seq<seq<real>>, j: int, n: nat)
    requires IsField(p, f) && 0 <= j < p.ny && n <= p.nx
    ensures SumTo(InnerX(p, f, j), n) == East(p, f, n - 1, j)
  {
    if n > 0 {
      RowTelescopes(p, f, j, n - 1);
    }
  }

  lemma RowBalance(p: Problem, f: seq<seq<real>>, j: int)
    requires IsField(p, f) && 0 <= j < p.ny
    ensures -SumOf(ResidualRow(p, f, j))
            == SumOf(NorthRow(p, f, j)) - SumOf(NorthRow(p, f, j - 1)) + SumOf(BoundaryRow(p, f, j))
  {
    RowTelescopes(p, f, j, p.nx);
    var zero := seq(p.nx, _ => 0.0);
    var x, y, b, r := InnerX(p, f, j), InnerY(p, f, j), BoundaryRow(p, f, j), ResidualRow(p, f, j);
    var inner := seq(p.nx, i requires 0 <= i < p.nx => x[i] + y[i]);
    var flux := seq(p.nx, i requires 0 <= i < p.nx => inner[i] + b[i]);
    SumPlus(inner, x, y);
    SumPlus(flux, inner, b);
    SumPlus(NorthRow(p, f, j), y, NorthRow(p, f, j - 1));
    forall i | 0 <= i < p.nx
      ensures zero[i] == flux[i] + r[i]
    {
      CellBalance(p, f, i, j);
    }
    SumPlus(zero, flux, r);
    SumZero(zero, p.nx);
  }

  lemma {:induction false} RowsTelescope(p: Problem, f: seq<seq<real>>, rows: nat)
    requires IsField(p, f) && rows <= p.ny
    ensures TotalResidual(p, f, rows) == -SumOf(NorthRow(p, f, rows - 1)) - TotalBoundary(p, f, rows)
  {
    if rows > 0 {
      RowsTelescope(p, f, rows - 1);
      RowBalance(p, f, rows - 1);
    } else {
      SumZero(NorthRow(p, f, -1), p.nx);
    }
  }

  /** The residual of the whole grid is minus the flux through the boundary, whatever the
      cell values are. */
  lemma InteriorFluxesCancel(p: Problem, f: seq<seq<real>>)
    requires IsField(p, f)
    ensures TotalResidual(p, f, p.ny) == -TotalBoundary(p, f, p.ny)
  {
    RowsTelescope(p, f, p.ny);
    SumZero(NorthRow(p, f, p.ny - 1), p.nx);
  }
}
