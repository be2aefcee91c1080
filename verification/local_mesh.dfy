/** What one rank knows of the mesh once generate_grid and compute_rdist have run, and the
    diffusion residual on it. */
module LocalMesh {
  import opened RealFacts
  import opened RealSums

  /** Owned cells come first; involved counts the ghosts too. Row i of the adjacency is
      nbrs[ends[i]..ends[i + 1]], with one rdista per entry. Boundary face b belongs to
      cell faceCell[b]. */
  datatype Mesh = Mesh(solved: nat, involved: nat, ends: seq<nat>, nbrs: seq<int>, rdista: seq<real>,
                       volume: seq<real>, faceCell: seq<int>, faceRdista: seq<real>)

  ghost predicate InRow(m: Mesh, i: int, j: int) {
    0 <= i < m.solved && i + 1 < |m.ends| && m.ends[i] <= j < m.ends[i + 1]
  }

  ghost predicate Shaped(m: Mesh) {
    && m.solved <= m.involved
    && |m.ends| == m.solved + 1 && m.ends[0] == 0
    && (forall i, j :: 0 <= i <= j <= m.solved ==> m.ends[i] <= m.ends[j])
    && m.ends[m.solved] <= |m.nbrs| == |m.rdista|
    && m.solved <= |m.volume|
    && |m.faceCell| == |m.faceRdista|
    && (forall b :: 0 <= b < |m.faceCell| ==> 0 <= m.faceCell[b] < m.solved)
    && (forall j :: 0 <= j < m.ends[m.solved] ==> 0 <= m.nbrs[j] < m.involved)
  }

  /** The faces of a cell lead to different cells, none of them the cell itself. */
  ghost predicate RowsDistinct(m: Mesh) {
    && (forall i, j :: InRow(m, i, j) && j < |m.nbrs| ==> m.nbrs[j] != i)
    && (forall i, j, k :: InRow(m, i, j) && InRow(m, i, k) && j < k < |m.nbrs| ==> m.nbrs[j] != m.nbrs[k])
  }

  lemma RowInside(m: Mesh, i: int, j: int)
    requires Shaped(m) && InRow(m, i, j)
    ensures m.ends[i] <= j < m.ends[i + 1] <= m.ends[m.solved] <= |m.nbrs|
  {
  }

  // ----- the residual as a function of the cell values -----

  ghost predicate Values(m: Mesh, q: seq<real>) {
    Shaped(m) && |q| == m.involved
  }

  /** The flux into cell i through inner face j of its row. */
  function Flux(m: Mesh, q: seq<real>, i: nat, j: nat): real
    requires Values(m, q) && i < m.solved && j < m.ends[m.solved]
  {
    Flow(q[m.nbrs[j]], q[i], m.rdista[j])
  }

  /** The flux into its cell through boundary face b. */
  function FaceFlux(m: Mesh, q: seq<real>, qb: seq<real>, b: nat): real
    requires Values(m, q) && b < |qb| == |m.faceCell|
  {
    Flow(qb[b], q[m.faceCell[b]], m.faceRdista[b])
  }

  /** The fluxes through the inner faces of cell i. */
  function FluxTerms(m: Mesh, q: seq<real>, i: nat): (r: seq<real>)
    requires Values(m, q) && i < m.solved
    ensures m.ends[i] <= m.ends[i + 1] <= m.ends[m.solved] && |r| == m.ends[i + 1] - m.ends[i]
    ensures forall k :: 0 <= k < |r| ==> r[k] == Flux(m, q, i, m.ends[i] + k)
  {
    assert m.ends[i + 1] <= m.ends[m.solved];
    seq(m.ends[i + 1] - m.ends[i], k requires 0 <= k < m.ends[i + 1] - m.ends[i] => Flux(m, q, i, m.ends[i] + k))
  }

  /** The fluxes through the boundary faces, zero where the face is not cell i's. */
  function FaceTerms(m: Mesh, q: seq<real>, qb: seq<real>, i: nat): (r: seq<real>)
    requires Values(m, q) && |qb| == |m.faceCell| && i < m.solved
    ensures |r| == |qb|
    ensures forall b :: 0 <= b < |r| ==> r[b] == if m.faceCell[b] == i then FaceFlux(m, q, qb, b) else 0.0
  {
    seq(|qb|, b requires 0 <= b < |qb| => if m.faceCell[b] == i then FaceFlux(m, q, qb, b) else 0.0)
  }

  /** Net outflow of cell i: minus all fluxes into it. */
  function ResidualAt(m: Mesh, q: seq<real>, qb: seq<real>, i: nat): real
    requires Values(m, q) && |qb| == |m.faceCell| && i < m.solved
  {
    -SumOf(FluxTerms(m, q, i)) - SumOf(FaceTerms(m, q, qb, i))
  }

  function Residual(m: Mesh, q: seq<real>, qb: seq<real>): (r: seq<real>)
    requires Values(m, q) && |qb| == |m.faceCell|
    ensures |r| == m.solved && forall i :: 0 <= i < m.solved ==> r[i] == ResidualAt(m, q, qb, i)
  {
    seq(m.solved, i requires 0 <= i < m.solved => ResidualAt(m, q, qb, i))
  }

  // ----- compute_residual -----

  method InnerFluxes(m: Mesh, q: seq<real>, residual: array<real>, il: nat)
    requires Values(m, q) && il < m.solved <= residual.Length
    modifies residual
    ensures residual[..] == old(residual[..])[il := -SumOf(FluxTerms(m, q, il))]
  {
    ghost var terms, before := FluxTerms(m, q, il), residual[..];
    residual[il] := 0.0;
    for jl := m.ends[il] to m.ends[il + 1]
      invariant residual[il] == -SumTo(terms, jl - m.ends[il])
      invariant forall i :: 0 <= i < residual.Length && i != il ==> residual[i] == before[i]
    {
      var right := m.nbrs[jl];
      var faceValue := (q[right] - q[il]) * m.rdista[jl];
      assert faceValue == terms[jl - m.ends[il]];
      residual[il] := residual[il] - faceValue;
    }
  }

  /** The cells' residuals once the boundary loop has treated the first n faces. */
  ghost predicate FacesDone(m: Mesh, q: seq<real>, qb: seq<real>, residual: seq<real>, n: int)
    requires Values(m, q) && |qb| == |m.faceCell|
  {
    0 <= n <= |qb| && m.solved <= |residual| &&
    forall i :: 0 <= i < m.solved ==>
      residual[i] == -SumOf(FluxTerms(m, q, i)) - SumTo(FaceTerms(m, q, qb, i), n)
  }

  lemma FaceAdded(m: Mesh, q: seq<real>, qb: seq<real>, before: seq<real>, b: nat, faceValue: real)
    requires Values(m, q) && |qb| == |m.faceCell| && b < |qb| && m.faceCell[b] < |before|
    requires FacesDone(m, q, qb, before, b) && faceValue == (qb[b] - q[m.faceCell[b]]) * m.faceRdista[b]
    ensures FacesDone(m, q, qb, before[m.faceCell[b] := before[m.faceCell[b]] - faceValue], b + 1)
  {
    assert faceValue == FaceFlux(m, q, qb, b);
  }

  method BoundaryFluxes(m: Mesh, q: seq<real>, qb: seq<real>, residual: array<real>)
    requires Values(m, q) && |qb| == |m.faceCell| && residual.Length == m.involved
    requires FacesDone(m, q, qb, residual[..], 0)
    modifies residual
    ensures FacesDone(m, q, qb, residual[..], |qb|)
    ensures residual[m.solved..] == old(residual[m.solved..])
  {
    hide FacesDone, FaceFlux;
    for b := 0 to |m.faceCell|
      invariant FacesDone(m, q, qb, residual[..], b)
      invariant residual[m.solved..] == old(residual[m.solved..])
    {
      ghost var before := residual[..];
      var cell := m.faceCell[b];
      var faceValue := (qb[b] - q[cell]) * m.faceRdista[b];
      residual[cell] := residual[cell] - faceValue;
      FaceAdded(m, q, qb, before, b, faceValue);
      assert residual[..] == before[cell := before[cell] - faceValue];
    }
  }

  method ComputeResidual(m: Mesh, q: seq<real>, qb: seq<real>, residual: array<real>)
    requires Values(m, q) && |qb| == |m.faceCell| && residual.Length == m.involved
    modifies residual
    ensures residual[..m.solved] == Residual(m, q, qb)
    ensures residual[m.solved..] == old(residual[m.solved..])
  {
    for il := 0 to m.solved
      invariant forall i :: 0 <= i < il ==> residual[i] == -SumOf(FluxTerms(m, q, i))
      invariant residual[m.solved..] == old(residual[m.solved..])
    {
      InnerFluxes(m, q, residual, il);
    }
    assert FacesDone(m, q, qb, residual[..], 0);
    BoundaryFluxes(m, q, qb, residual);
  }
}
