/** Products with a CSR matrix and Jacobi sweeps over it. */
module Csr {
  import opened RealSums

  datatype Matrix = Matrix(ia: seq<int>, ja: seq<int>, data: seq<real>)

  /** Row i is not empty and has its diagonal first. */
  ghost predicate RowFits(c: Matrix, i: int) {
    && 0 <= i < |c.ia| - 1 && |c.ja| == |c.data|
    && 0 <= c.ia[i] < c.ia[i + 1] <= |c.ja| && c.ja[c.ia[i]] == i
  }

  /** A matrix of that many rows over vectors of cols entries. */
  ghost predicate MatrixFits(c: Matrix, rows: nat, cols: nat) {
    && rows <= cols && |c.ia| == rows + 1 && |c.ja| == |c.data|
    && (forall i :: 0 <= i < rows ==> RowFits(c, i))
    && (forall k :: 0 <= k < |c.ja| ==> 0 <= c.ja[k] < cols)
  }

  ghost predicate DiagonalNonzero(c: Matrix, rows: nat, cols: nat) {
    MatrixFits(c, rows, cols) && forall i :: 0 <= i < rows ==> RowFits(c, i) && c.data[c.ia[i]] != 0.0
  }

  function Entry(c: Matrix, x: seq<real>, k: nat): real
    requires k < |c.ja| == |c.data| && 0 <= c.ja[k] < |x|
  {
    c.data[k] * x[c.ja[k]]
  }

  /** The off-diagonal terms of row i. */
  ghost function OffTerms(c: Matrix, rows: nat, x: seq<real>, i: nat): (r: seq<real>)
    requires MatrixFits(c, rows, |x|) && i < rows
    ensures RowFits(c, i) && |r| == c.ia[i + 1] - c.ia[i] - 1
    ensures forall k :: 0 <= k < |r| ==> r[k] == Entry(c, x, c.ia[i] + 1 + k)
  {
    assert RowFits(c, i);
    seq(c.ia[i + 1] - c.ia[i] - 1, k requires 0 <= k < c.ia[i + 1] - c.ia[i] - 1 => Entry(c, x, c.ia[i] + 1 + k))
  }

  /** Row i of the matrix times x. */
  ghost function RowProduct(c: Matrix, rows: nat, x: seq<real>, i: nat): real
    requires MatrixFits(c, rows, |x|) && i < rows
  {
    assert RowFits(c, i);
    Entry(c, x, c.ia[i]) + SumOf(OffTerms(c, rows, x, i))
  }

  ghost function Product(c: Matrix, rows: nat, x: seq<real>): (r: seq<real>)
    requires MatrixFits(c, rows, |x|)
    ensures |r| == rows && forall i :: 0 <= i < rows ==> r[i] == RowProduct(c, rows, x, i)
  {
    seq(rows, i requires 0 <= i < rows => RowProduct(c, rows, x, i))
  }

  // ----- matrix_vector_multiply -----

  method MultiplyRow(c: Matrix, rows: nat, x: seq<real>, out: array<real>, i: nat)
    requires MatrixFits(c, rows, |x|) && i < rows <= out.Length && out[i] == 0.0
    modifies out
    ensures out[i] == RowProduct(c, rows, x, i)
    ensures forall k :: 0 <= k < out.Length && k != i ==> out[k] == old(out[k])
  {
    assert RowFits(c, i);
    ghost var first, terms := Entry(c, x, c.ia[i]), OffTerms(c, rows, x, i);
    for j := c.ia[i] to c.ia[i + 1]
      invariant j == c.ia[i] ==> out[i] == 0.0
      invariant j > c.ia[i] ==> out[i] == first + SumTo(terms, j - c.ia[i] - 1)
      invariant forall k :: 0 <= k < out.Length && k != i ==> out[k] == old(out[k])
    {
      var product := c.data[j] * x[c.ja[j]];
      assert product == Entry(c, x, j);
      out[i] := out[i] + product;
    }
  }

  method MultiplyLocal(c: Matrix, rows: nat, x: seq<real>, out: array<real>)
    requires MatrixFits(c, rows, |x|) && rows <= out.Length
    modifies out
    ensures out[..rows] == Product(c, rows, x)
    ensures out[rows..] == old(out[rows..])
  {
    for i := 0 to rows
      invariant forall k :: 0 <= k < i ==> out[k] == 0.0
      invariant out[rows..] == old(out[rows..])
    {
      out[i] := 0.0;
    }
    for i := 0 to rows
      invariant forall k :: 0 <= k < i ==> out[k] == RowProduct(c, rows, x, k)
      invariant forall k :: i <= k < rows ==> out[k] == 0.0
      invariant out[rows..] == old(out[rows..])
    {
      MultiplyRow(c, rows, x, out, i);
    }
  }

  // ----- one Jacobi sweep -----

  /** The Jacobi update of entry i. */
  ghost function JacobiAt(c: Matrix, rows: nat, rhs: seq<real>, x: seq<real>, i: nat): real
    requires DiagonalNonzero(c, rows, |x|) && i < rows <= |rhs|
  {
    assert RowFits(c, i);
    (rhs[i] - SumOf(OffTerms(c, rows, x, i))) / c.data[c.ia[i]]
  }

  ghost function JacobiSweep(c: Matrix, rows: nat, rhs: seq<real>, x: seq<real>): (r: seq<real>)
    requires DiagonalNonzero(c, rows, |x|) && rows <= |rhs|
    ensures |r| == rows && forall i :: 0 <= i < rows ==> r[i] == JacobiAt(c, rows, rhs, x, i)
  {
    seq(rows, i requires 0 <= i < rows => JacobiAt(c, rows, rhs, x, i))
  }

  method SweepLocal(c: Matrix, rows: nat, rhs: seq<real>, x: seq<real>, out: array<real>)
    requires DiagonalNonzero(c, rows, |x|) && rows <= |rhs| && rows <= out.Length
    modifies out
    ensures out[..rows] == JacobiSweep(c, rows, rhs, x)
    ensures out[rows..] == old(out[rows..])
  {
    for i := 0 to rows
      invariant forall k :: 0 <= k < i ==> out[k] == JacobiAt(c, rows, rhs, x, k)
      invariant out[rows..] == old(out[rows..])
    {
      var value := SweepRow(c, rows, rhs, x, i);
      out[i] := value;
    }
  }

  method SweepRow(c: Matrix, rows: nat, rhs: seq<real>, x: seq<real>, i: nat) returns (value: real)
    requires DiagonalNonzero(c, rows, |x|) && i < rows <= |rhs|
    ensures value == JacobiAt(c, rows, rhs, x, i)
  {
    assert RowFits(c, i);
    var temp := MoveOffDiagonals(c, rows, rhs[i], x, i);
    var diagValue := c.data[c.ia[i]];
    value := temp / diagValue;
  }

  /** Transfer all the off-diagonals to the right-hand side. */
  method MoveOffDiagonals(c: Matrix, rows: nat, start: real, x: seq<real>, i: nat) returns (temp: real)
    requires MatrixFits(c, rows, |x|) && i < rows
    ensures temp == start - SumOf(OffTerms(c, rows, x, i))
  {
    ghost var terms := OffTerms(c, rows, x, i);
    temp := start;
    for j := c.ia[i] + 1 to c.ia[i + 1]
      invariant temp == start - SumTo(terms, j - c.ia[i] - 1)
    {
      var product := c.data[j] * x[c.ja[j]];
      assert product == Entry(c, x, j) == terms[j - c.ia[i] - 1];
      temp := temp - product;
    }
  }

  lemma DivideBack(p: real, d: real, x: real)
    requires d != 0.0
    ensures p / d == x <==> p == d * x
  {
    if p / d == x {
      assert p == d * (p / d);
    }
    if p == d * x {
      assert p / d == x;
    }
  }

  /** A vector solves row i exactly when the sweep leaves its entry i alone. */
  lemma FixedPointSolves(c: Matrix, rows: nat, rhs: seq<real>, x: seq<real>, i: nat)
    requires DiagonalNonzero(c, rows, |x|) && i < rows <= |rhs|
    ensures JacobiAt(c, rows, rhs, x, i) == x[i] <==> RowProduct(c, rows, x, i) == rhs[i]
  {
    assert RowFits(c, i);
    var off := SumOf(OffTerms(c, rows, x, i));
    DivideBack(rhs[i] - off, c.data[c.ia[i]], x[i]);
  }
}
