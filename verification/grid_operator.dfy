/** The product with the implicit matrix of the whole grid is a linear operator, so BiCGSTAB's
    theory applies to it. */
module GridOperator {
  import opened RealFacts
  import opened GridTopology
  import opened GridLayout
  import opened Stencil
  import opened Contraction
  import opened Bicgstab
  import opened Vectors

  /** A vector over cell numbers as a field. */
  ghost function FieldOf(p: Problem, x: seq<real>): (f: seq<seq<real>>)
    requires p.Valid() && |x| == p.nx * p.ny
    ensures IsField(p, f)
  {
    seq(p.ny, j requires 0 <= j < p.ny =>
        seq(p.nx, i requires 0 <= i < p.nx => CellInRange(p.nx, p.ny, i, j); x[Cell(p.nx, i, j)]))
  }

  lemma FieldOfAt(p: Problem, x: seq<real>, i: int, j: int)
    requires p.Valid() && |x| == p.nx * p.ny && IsCell(p, i, j)
    ensures 0 <= Cell(p.nx, i, j) < |x| && FieldOf(p, x)[j][i] == x[Cell(p.nx, i, j)]
  {
    CellInRange(p.nx, p.ny, i, j);
  }

  /** Entry c of the product is row (c % nx, c / nx) of the matrix times x. */
  ghost function Times(p: Problem): seq<real> -> seq<real>
    requires p.Valid()
  {
    (x: seq<real>) =>
      if |x| == p.nx * p.ny
      then seq(p.nx * p.ny, c requires 0 <= c < p.nx * p.ny =>
             CellOfNumber(p.nx, p.ny, c); RowOf(p, FieldOf(p, x), c % p.nx, c / p.nx))
      else x
  }

  lemma TimesAt(p: Problem, x: seq<real>, c: nat)
    requires p.Valid() && |x| == p.nx * p.ny && c < |x|
    ensures IsCell(p, c % p.nx, c / p.nx) && |Times(p)(x)| == |x|
    ensures Times(p)(x)[c] == RowOf(p, FieldOf(p, x), c % p.nx, c / p.nx)
  {
    CellOfNumber(p.nx, p.ny, c);
  }

  // ----- linearity of a row -----

  lemma TimesSum(w: real, f: real, a: real, g: real)
    ensures w * (f + a * g) == w * f + a * (w * g)
  {
    assert w * (a * g) == a * (w * g);
  }

  lemma TowardsCombined(p: Problem, h: seq<seq<real>>, f: seq<seq<real>>, a: real, g: seq<seq<real>>, i: int, j: int,
                        s: Side)
    requires IsField(p, h) && IsField(p, f) && IsField(p, g) && IsCell(p, i, j) && Combined(p, h, f, a, g)
    ensures Towards(p, h, i, j, s) == Towards(p, f, i, j, s) + a * Towards(p, g, i, j, s)
  {
    if HasNeighbour(p, i, j, s) {
      assert Across(p, h, i, j, s) == Across(p, f, i, j, s) + a * Across(p, g, i, j, s);
      TimesSum(Weight(p, s), Across(p, f, i, j, s), a, Across(p, g, i, j, s));
    }
  }

  lemma RowCombined(p: Problem, h: seq<seq<real>>, f: seq<seq<real>>, a: real, g: seq<seq<real>>, i: int, j: int)
    requires p.dt > 0.0 && IsField(p, h) && IsField(p, f) && IsField(p, g) && IsCell(p, i, j) && Combined(p, h, f, a, g)
    ensures RowOf(p, h, i, j) == RowOf(p, f, i, j) + a * RowOf(p, g, i, j)
  {
    hide Towards, DiagonalOf;
    TowardsCombined(p, h, f, a, g, i, j, Left);
    TowardsCombined(p, h, f, a, g, i, j, Right);
    TowardsCombined(p, h, f, a, g, i, j, Bottom);
    TowardsCombined(p, h, f, a, g, i, j, Top);
    TimesSum(DiagonalOf(p, i, j), f[j][i], a, g[j][i]);
    Distribute(a, Towards(p, g, i, j, Left), Towards(p, g, i, j, Right), Towards(p, g, i, j, Bottom),
               Towards(p, g, i, j, Top));
  }

  lemma FieldsCombined(p: Problem, x: seq<real>, a: real, y: seq<real>)
    requires p.Valid() && |x| == |y| == p.nx * p.ny
    ensures Combined(p, FieldOf(p, Axpy(x, a, y)), FieldOf(p, x), a, FieldOf(p, y))
  {
    forall i, j | IsCell(p, i, j)
      ensures FieldOf(p, Axpy(x, a, y))[j][i] == FieldOf(p, x)[j][i] + a * FieldOf(p, y)[j][i]
    {
      FieldOfAt(p, x, i, j);
      FieldOfAt(p, y, i, j);
      FieldOfAt(p, Axpy(x, a, y), i, j);
    }
  }

  /** The whole matrix acts linearly. */
  lemma TimesIsLinear(p: Problem)
    requires p.Valid()
    ensures Linear(Times(p), p.nx * p.ny)
  {
    var n := p.nx * p.ny;
    forall x: seq<real>, c: real, y: seq<real>
      ensures LinearAt(Times(p), n, x, c, y)
    {
      if |x| == |y| == n {
        CombinationMaps(p, x, c, y);
      }
    }
  }

  lemma TimesLength(p: Problem, x: seq<real>)
    requires p.Valid() && |x| == p.nx * p.ny
    ensures |Times(p)(x)| == |x|
  {
  }

  lemma EntryCombined(p: Problem, x: seq<real>, c: real, y: seq<real>, k: nat)
    requires p.Valid() && p.dt > 0.0 && |x| == |y| == p.nx * p.ny && k < |x|
    ensures |Times(p)(x)| == |Times(p)(y)| == |Times(p)(Axpy(x, c, y))| == |x|
    ensures Times(p)(Axpy(x, c, y))[k] == Times(p)(x)[k] + c * Times(p)(y)[k]
  {
    hide RowOf, FieldOf, Combined, Times, Axpy;
    FieldsCombined(p, x, c, y);
    TimesAt(p, x, k);
    TimesAt(p, y, k);
    TimesAt(p, Axpy(x, c, y), k);
    RowCombined(p, FieldOf(p, Axpy(x, c, y)), FieldOf(p, x), c, FieldOf(p, y), k % p.nx, k / p.nx);
  }

  lemma CombinationMaps(p: Problem, x: seq<real>, c: real, y: seq<real>)
    requires p.Valid() && |x| == |y| == p.nx * p.ny
    ensures |Times(p)(x)| == |Times(p)(y)| == |x| && Times(p)(Axpy(x, c, y)) == Axpy(Times(p)(x), c, Times(p)(y))
  {
    hide Times, Axpy;
    TimesLength(p, x);
    TimesLength(p, y);
    TimesLength(p, Axpy(x, c, y));
    forall k | 0 <= k < |x|
      ensures Times(p)(Axpy(x, c, y))[k] == Times(p)(x)[k] + c * Times(p)(y)[k]
    {
      EntryCombined(p, x, c, y, k);
    }
  }
}
