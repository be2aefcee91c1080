/** The assembled matrix is the exact Jacobian of the residual loop, plus the time term. */
module Jacobian {
  import opened RealSums
  import opened LocalMesh
  import opened SparseMatrix
  import opened SystemAssembly
  import opened Csr
  import opened Vectors

  /** Entry k of row i, after the diagonal, is inner face k of cell i. */
  ghost predicate EntryIs(m: Mesh, c: Matrix, i: nat, k: int) {
    && Shaped(m) && i < m.solved && i + 1 < |c.ia| && |c.ja| == |c.data|
    && 0 <= k < m.ends[i + 1] - m.ends[i] && m.ends[i] + k < |m.nbrs|
    && 0 <= c.ia[i] && c.ia[i] + 1 + k < |c.ja|
    && c.ja[c.ia[i] + 1 + k] == m.nbrs[m.ends[i] + k] && c.data[c.ia[i] + 1 + k] == -m.rdista[m.ends[i] + k]
  }

  /** Row i of the matrix: the diagonal, then minus the rdista of its inner faces. */
  ghost predicate MatrixRowIs(m: Mesh, c: Matrix, i: nat, diagonal: real) {
    && Shaped(m) && i < m.solved
    && RowFits(c, i) && c.ia[i + 1] - c.ia[i] - 1 == m.ends[i + 1] - m.ends[i]
    && c.data[c.ia[i]] == diagonal
    && forall k :: 0 <= k < c.ia[i + 1] - c.ia[i] - 1 ==> EntryIs(m, c, i, k)
  }

  /** The implicit matrix of a mesh, row by row. */
  ghost predicate BuiltMatrix(m: Mesh, dt: real, c: Matrix) {
    && Shaped(m) && dt != 0.0 && MatrixFits(c, m.solved, m.involved)
    && forall i :: 0 <= i < m.solved ==> MatrixRowIs(m, c, i, Diagonals(m, TimeTerms(m, dt))[i])
  }

  lemma AssembledRow(m: Mesh, c: Matrix, diagonal: seq<real>, i: nat)
    requires Shaped(m) && Structure(m, c.ia, c.ja) && i < m.solved
    requires Stores(m, c.data, diagonal, OffDone(m, m.ends[m.solved]))
    ensures MatrixRowIs(m, c, i, diagonal[i])
  {
    DiagonalsApart(m, i, m.solved);
    assert c.ia[i] == m.ends[i] + i && c.ia[i + 1] == m.ends[i + 1] + (i + 1);
    assert m.ends[i] <= m.ends[i + 1] <= m.ends[m.solved];
    forall k | 0 <= k < m.ends[i + 1] - m.ends[i]
      ensures EntryIs(m, c, i, k)
    {
      assert InRow(m, i, m.ends[i] + k);
    }
  }

  lemma AssembledIsBuilt(m: Mesh, dt: real, c: Matrix)
    requires Shaped(m) && dt != 0.0 && Structure(m, c.ia, c.ja) && Assembled(m, dt, c.data)
    ensures BuiltMatrix(m, dt, c)
  {
    var diagonal := Diagonals(m, TimeTerms(m, dt));
    forall i | 0 <= i < m.solved
      ensures MatrixRowIs(m, c, i, diagonal[i])
    {
      AssembledRow(m, c, diagonal, i);
    }
    forall k | 0 <= k < |c.ja|
      ensures 0 <= c.ja[k] < m.involved
    {
      SlotOwner(m, c.ja, k);
    }
  }

  /** setup_matrix_struct followed by compute_system. */
  method AssembleMatrix(m: Mesh, dt: real) returns (c: Matrix)
    requires Shaped(m) && RowsDistinct(m) && dt != 0.0
    ensures BuiltMatrix(m, dt, c)
  {
    var ia, ja, diag, idx, problem := SetupMatrixStruct(m);
    var data := new real[ja.Length];
    ComputeSystem(m, dt, diag[..], idx[..], data);
    c := Matrix(ia[..], ja[..], data[..]);
    AssembledIsBuilt(m, dt, c);
  }

  /** Every slot of the matrix is a diagonal or belongs to an inner face. */
  lemma SlotOwner(m: Mesh, ja: seq<int>, k: nat)
    requires Shaped(m) && DiagonalsFilled(m, ja, m.solved) && RowsFilled(m, ja, m.solved, 0) && k < |ja|
    ensures 0 <= ja[k] < m.involved
  {
    var i := 0;
    while k >= m.ends[i + 1] + i + 1
      invariant i < m.solved && m.ends[i] + i <= k
      decreases m.solved - i
    {
      if i + 1 == m.solved {
        assert false;
      }
      i := i + 1;
    }
    if k == m.ends[i] + i {
      assert ja[m.ends[i] + i] == i;
    } else {
      assert InRow(m, i, k - i - 1) && ja[i + 1 + (k - i - 1)] == m.nbrs[k - i - 1];
      RowInside(m, i, k - i - 1);
    }
  }

  // ----- the residual is affine, with the linear part below -----

  lemma FluxAdds(m: Mesh, q: seq<real>, d: seq<real>, i: nat, j: nat)
    requires Values(m, q) && |d| == |q| && i < m.solved && j < m.ends[m.solved]
    ensures Flux(m, Plus(q, d), i, j) == Flux(m, q, i, j) + Flux(m, d, i, j)
  {
    var a, b, w := q[m.nbrs[j]] - q[i], d[m.nbrs[j]] - d[i], m.rdista[j];
    assert (a + b) * w == a * w + b * w;
  }

  lemma FaceFluxAdds(m: Mesh, q: seq<real>, d: seq<real>, qb: seq<real>, b: nat)
    requires Values(m, q) && |d| == |q| && b < |qb| == |m.faceCell|
    ensures FaceFlux(m, Plus(q, d), qb, b) == FaceFlux(m, q, qb, b) + FaceFlux(m, d, Zeros(|qb|), b)
  {
    var x, y, w := qb[b] - q[m.faceCell[b]], 0.0 - d[m.faceCell[b]], m.faceRdista[b];
    assert (x + y) * w == x * w + y * w;
  }

  /** The residual of q + d is that of q plus that of d with zero boundary values. */
  lemma ResidualAffine(m: Mesh, q: seq<real>, d: seq<real>, qb: seq<real>, i: nat)
    requires Values(m, q) && |d| == |q| && |qb| == |m.faceCell| && i < m.solved
    ensures ResidualAt(m, Plus(q, d), qb, i) == ResidualAt(m, q, qb, i) + ResidualAt(m, d, Zeros(|qb|), i)
  {
    var sum, fluxes, change := FluxTerms(m, Plus(q, d), i), FluxTerms(m, q, i), FluxTerms(m, d, i);
    forall k | 0 <= k < |sum|
      ensures sum[k] == fluxes[k] + change[k]
    {
      FluxAdds(m, q, d, i, m.ends[i] + k);
    }
    SumPlus(sum, fluxes, change);
    var faceSum, faces, faceChange :=
      FaceTerms(m, Plus(q, d), qb, i), FaceTerms(m, q, qb, i), FaceTerms(m, d, Zeros(|qb|), i);
    forall b | 0 <= b < |qb|
      ensures faceSum[b] == faces[b] + faceChange[b]
    {
      FaceFluxAdds(m, q, d, qb, b);
    }
    SumPlus(faceSum, faces, faceChange);
  }

  // ----- the matrix row -----

  lemma FluxSplit(off: real, flux: real, a: real, b: real, w: real)
    requires off == -w * a && flux == (a - b) * w
    ensures -b * w == off + flux
  {
  }

  lemma FaceEntry(m: Mesh, c: Matrix, d: seq<real>, i: nat, k: nat, j: nat)
    requires Values(m, d) && EntryIs(m, c, i, k) && j == m.ends[i] + k && j < m.ends[m.solved]
    ensures 0 <= c.ja[c.ia[i] + 1 + k] < |d|
    ensures -d[i] * m.rdista[j] == Entry(c, d, c.ia[i] + 1 + k) + Flux(m, d, i, j)
  {
    FluxSplit(Entry(c, d, c.ia[i] + 1 + k), Flux(m, d, i, j), d[m.nbrs[j]], d[i], m.rdista[j]);
  }

  lemma InnerEntry(m: Mesh, c: Matrix, d: seq<real>, i: nat, diagonal: real, k: nat)
    requires Values(m, d) && MatrixRowIs(m, c, i, diagonal) && MatrixFits(c, m.solved, |d|)
    requires k < |OffTerms(c, m.solved, d, i)|
    ensures k < |RowWeights(m, i)| && k < |FluxTerms(m, d, i)|
    ensures ScaledBy(-d[i], RowWeights(m, i))[k] == OffTerms(c, m.solved, d, i)[k] + FluxTerms(m, d, i)[k]
  {
    hide Entry, Flux, MatrixFits;
    assert EntryIs(m, c, i, k);
    FaceEntry(m, c, d, i, k, m.ends[i] + k);
  }

  /** The inner part of row i: minus the fluxes is the off-diagonals plus the row's weight. */
  lemma InnerRow(m: Mesh, c: Matrix, d: seq<real>, i: nat, diagonal: real)
    requires Values(m, d) && MatrixRowIs(m, c, i, diagonal) && MatrixFits(c, m.solved, |d|)
    ensures -SumOf(FluxTerms(m, d, i)) == SumOf(OffTerms(c, m.solved, d, i)) + d[i] * SumOf(RowWeights(m, i))
  {
    hide EntryIs, RowFits, MatrixFits, Entry, Flux;
    var off, fluxes, scaled := OffTerms(c, m.solved, d, i), FluxTerms(m, d, i), ScaledBy(-d[i], RowWeights(m, i));
    forall k | 0 <= k < |scaled|
      ensures scaled[k] == off[k] + fluxes[k]
    {
      InnerEntry(m, c, d, i, diagonal, k);
    }
    SumPlus(scaled, off, fluxes);
    SumScaledBy(-d[i], RowWeights(m, i));
    Negated(d[i], SumOf(RowWeights(m, i)));
  }

  lemma SumScaledBy(x: real, s: seq<real>)
    ensures SumOf(ScaledBy(x, s)) == x * SumOf(s)
  {
    SumScaled(ScaledBy(x, s), x, s);
  }

  lemma Negated(a: real, b: real)
    ensures -a * b == -(a * b)
  {
  }

  lemma BoundaryRow(m: Mesh, d: seq<real>, i: nat)
    requires Values(m, d) && i < m.solved
    ensures -SumOf(FaceTerms(m, d, Zeros(|m.faceCell|), i)) == d[i] * SumOf(FaceWeights(m, i))
  {
    var terms, weights := FaceTerms(m, d, Zeros(|m.faceCell|), i), FaceWeights(m, i);
    forall b | 0 <= b < |terms|
      ensures terms[b] == -d[i] * weights[b]
    {
    }
    SumScaled(terms, -d[i], weights);
    Negated(d[i], SumOf(weights));
  }

  lemma DiagonalSplit(e: real, t: real, r: real, f: real, x: real)
    requires e == (t + r + f) * x
    ensures e == t * x + x * r + x * f
  {
  }

  lemma DiagonalEntry(m: Mesh, c: Matrix, d: seq<real>, i: nat, diagonal: real)
    requires Values(m, d) && MatrixRowIs(m, c, i, diagonal)
    ensures RowFits(c, i) && Entry(c, d, c.ia[i]) == diagonal * d[i]
  {
    hide EntryIs;
  }

  lemma LinearPart(m: Mesh, c: Matrix, d: seq<real>, i: nat, t: real)
    requires Values(m, d) && MatrixFits(c, m.solved, |d|) && i < m.solved
    requires MatrixRowIs(m, c, i, t + SumOf(RowWeights(m, i)) + SumOf(FaceWeights(m, i)))
    ensures ResidualAt(m, d, Zeros(|m.faceCell|), i) == RowProduct(c, m.solved, d, i) - t * d[i]
  {
    hide MatrixRowIs, Entry, Flux, FaceFlux;
    var rows, faces := SumOf(RowWeights(m, i)), SumOf(FaceWeights(m, i));
    InnerRow(m, c, d, i, t + rows + faces);
    BoundaryRow(m, d, i);
    DiagonalEntry(m, c, d, i, t + rows + faces);
    DiagonalSplit(Entry(c, d, c.ia[i]), t, rows, faces, d[i]);
  }

  lemma JacobianRow(m: Mesh, c: Matrix, q: seq<real>, d: seq<real>, qb: seq<real>, i: nat, t: real)
    requires Values(m, q) && |d| == |q| && |qb| == |m.faceCell| && MatrixFits(c, m.solved, |d|) && i < m.solved
    requires MatrixRowIs(m, c, i, t + SumOf(RowWeights(m, i)) + SumOf(FaceWeights(m, i)))
    ensures ResidualAt(m, Plus(q, d), qb, i) - ResidualAt(m, q, qb, i) == RowProduct(c, m.solved, d, i) - t * d[i]
  {
    ResidualAffine(m, q, d, qb, i);
    LinearPart(m, c, d, i, t);
  }

  lemma BuiltRow(m: Mesh, dt: real, c: Matrix, i: nat)
    requires BuiltMatrix(m, dt, c) && i < m.solved
    ensures Shaped(m) && dt != 0.0 && MatrixFits(c, m.solved, m.involved)
    ensures MatrixRowIs(m, c, i, TimeTerms(m, dt)[i] + SumOf(RowWeights(m, i)) + SumOf(FaceWeights(m, i)))
  {
    hide MatrixRowIs, MatrixFits;
    assert MatrixRowIs(m, c, i, Diagonals(m, TimeTerms(m, dt))[i]);
  }

  /** For every change d of the cell values, ghosts included, the matrix applied to d, less
      the time term, is exactly the change of the residual. */
  lemma MatrixIsJacobian(m: Mesh, dt: real, c: Matrix, q: seq<real>, d: seq<real>, qb: seq<real>, i: nat)
    requires BuiltMatrix(m, dt, c) && Values(m, q) && |d| == |q| && |qb| == |m.faceCell| && i < m.solved
    ensures MatrixFits(c, m.solved, |d|)
    ensures ResidualAt(m, Plus(q, d), qb, i) - ResidualAt(m, q, qb, i)
            == RowProduct(c, m.solved, d, i) - TimeTerms(m, dt)[i] * d[i]
  {
    hide ResidualAt, RowProduct, MatrixRowIs, MatrixFits, BuiltMatrix;
    BuiltRow(m, dt, c, i);
    JacobianRow(m, c, q, d, qb, i, TimeTerms(m, dt)[i]);
  }
}
