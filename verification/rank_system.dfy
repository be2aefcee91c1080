/** The implicit matrix a rank assembles is its rows of the matrix of the whole grid. */
module RankSystem {
  import opened RealSums
  import opened Halo
  import opened HaloExchange
  import opened GridLayout
  import opened Stencil
  import opened BoundaryFaces
  import opened SideSums
  import opened LocalMesh
  import opened SystemAssembly
  import opened Csr
  import opened Jacobian
  import opened Contraction
  import opened RankMesh

  // ----- the diagonal -----

  lemma RowWeightsMatch(p: Problem, l: Layout, q: nat, m: Mesh, k: nat, i: int, j: int)
    requires Setting(l) && Shaped(m) && k < m.solved && IsCell(p, i, j) && RowMatches(p, l, q, m, k, i, j)
    ensures var g := (s: Side) => Weight(p, s);
            SumOf(RowWeights(m, k)) == OnInner(p, i, j, g, Left) + OnInner(p, i, j, g, Right)
                                       + OnInner(p, i, j, g, Bottom) + OnInner(p, i, j, g, Top)
  {
    var g := (s: Side) => Weight(p, s);
    var terms := RowWeights(m, k);
    forall t | 0 <= t < |InnerSides(p, i, j)|
      ensures terms[t] == g(InnerSides(p, i, j)[t])
    {
      assert EntryMatches(p, l, q, m, k, i, j, t);
    }
    hide *;
    InnerSum(p, i, j, g, terms);
  }

  lemma FaceWeightMatches(p: Problem, l: Layout, q: nat, m: Mesh, qb: seq<real>, k: nat, n: nat, t: nat,
                          g: Side -> real)
    requires Setting(l) && p.Valid() && |l.owner| == p.nx * p.ny && Shaped(m)
    requires g == ((s: Side) => 2.0 * Weight(p, s)) && FaceMatches(p, l, q, m, qb, n, t)
    ensures OuterTerm(p, l, q, m, k, g, FaceWeights(m, k), n, t)
  {
    hide Setting, LocalCells, WholeSide, SideStart;
    assert g(SideNumber(n)) == 2.0 * Weight(p, SideNumber(n));
  }

  lemma FaceWeightsMatch(p: Problem, l: Layout, q: nat, m: Mesh, qb: seq<real>, k: nat, i: int, j: int)
    requires MeshOf(p, l, q, m, qb) && IsLocal(p, l, q, k, i, j)
    ensures var g := (s: Side) => 2.0 * Weight(p, s);
            SumOf(FaceWeights(m, k)) == OnBoundary(p, i, j, g, Left) + OnBoundary(p, i, j, g, Right)
                                        + OnBoundary(p, i, j, g, Bottom) + OnBoundary(p, i, j, g, Top)
  {
    var g := (s: Side) => 2.0 * Weight(p, s);
    var terms := FaceWeights(m, k);
    hide RowMatches, FaceMatches, OuterTerm, IsGrid, Setting, IsLocal, OnBoundary;
    forall n, t | 0 <= n < 4 && 0 <= t < |WholeSide(l.owner, q, p.nx, p.ny, SideNumber(n))|
      ensures OuterTerm(p, l, q, m, k, g, terms, n, t)
    {
      FaceAt(p, l, q, m, qb, n, t);
      FaceWeightMatches(p, l, q, m, qb, k, n, t, g);
    }
    OuterSum(p, l, q, m, qb, k, i, j, g, terms);
  }

  lemma SideConducts(p: Problem, i: int, j: int, g: Side -> real, h: Side -> real, s: Side)
    requires g == ((s: Side) => Weight(p, s)) && h == ((s: Side) => 2.0 * Weight(p, s))
    ensures OnInner(p, i, j, g, s) + OnBoundary(p, i, j, h, s) == Conductance(p, i, j, s)
  {
    assert g(s) == Weight(p, s) && h(s) == 2.0 * Weight(p, s);
  }

  /** The inner and boundary weights of a local cell add up to its conductance. */
  lemma WeightsMatch(p: Problem, l: Layout, q: nat, m: Mesh, qb: seq<real>, k: nat, i: int, j: int)
    requires MeshOf(p, l, q, m, qb) && IsLocal(p, l, q, k, i, j)
    ensures Shaped(m) && k < m.solved
    ensures SumOf(RowWeights(m, k)) + SumOf(FaceWeights(m, k)) == TotalConductance(p, i, j)
  {
    RowAt(p, l, q, m, qb, k, i, j);
    RowWeightsMatch(p, l, q, m, k, i, j);
    FaceWeightsMatch(p, l, q, m, qb, k, i, j);
    var g := (s: Side) => Weight(p, s);
    var h := (s: Side) => 2.0 * Weight(p, s);
    SideConducts(p, i, j, g, h, Left);
    SideConducts(p, i, j, g, h, Right);
    SideConducts(p, i, j, g, h, Bottom);
    SideConducts(p, i, j, g, h, Top);
    hide MeshOf, OnInner, OnBoundary, Conductance, Weight;
  }

  lemma DiagonalMatches(p: Problem, l: Layout, q: nat, m: Mesh, qb: seq<real>, k: nat, i: int, j: int)
    requires p.dt > 0.0 && MeshOf(p, l, q, m, qb) && IsLocal(p, l, q, k, i, j)
    ensures IsCell(p, i, j) && Shaped(m) && k < m.solved
    ensures Diagonals(m, TimeTerms(m, p.dt * 10.0))[k] == DiagonalOf(p, i, j)
  {
    WeightsMatch(p, l, q, m, qb, k, i, j);
    VolumeMatches(p, l, q, m, qb, k);
    hide MeshOf, IsGrid, TotalConductance, RowWeights, FaceWeights;
  }

  lemma VolumeMatches(p: Problem, l: Layout, q: nat, m: Mesh, qb: seq<real>, k: nat)
    requires p.dt > 0.0 && MeshOf(p, l, q, m, qb) && k < m.solved
    ensures TimeTerms(m, p.dt * 10.0)[k] == ImplicitTimeTerm(p)
  {
    hide IsGrid, RowMatches, FaceMatches;
  }

  // ----- the off-diagonals -----

  lemma OffTermMatches(p: Problem, l: Layout, q: nat, m: Mesh, c: Matrix, v: seq<real>, x: seq<seq<real>>, k: nat,
                       i: int, j: int, d: real, t: nat)
    requires Setting(l) && Shows(p, l, q, v, x) && IsLocal(p, l, q, k, i, j) && IsField(p, x) && IsCell(p, i, j)
    requires MatrixFits(c, m.solved, |v|) && k < m.solved && MatrixRowIs(m, c, k, d)
    requires RowMatches(p, l, q, m, k, i, j) && t < |InnerSides(p, i, j)|
    ensures |OffTerms(c, m.solved, v, k)| == |InnerSides(p, i, j)|
    ensures OffTerms(c, m.solved, v, k)[t] == -Towards(p, x, i, j, InnerSides(p, i, j)[t])
  {
    hide Across, IsGrid, Setting, Shows, IsLocal, View, LocalCells, InnerSides, Shaped;
    assert EntryMatches(p, l, q, m, k, i, j, t);
    ShowsAcross(p, l, q, v, x, m, k, i, j, t);
    assert EntryIs(m, c, k, t);
    var w, y := Weight(p, InnerSides(p, i, j)[t]), Across(p, x, i, j, InnerSides(p, i, j)[t]);
    assert Entry(c, v, c.ia[k] + 1 + t) == -w * y;
    assert -w * y == -(w * y);
  }

  lemma OffMatches(p: Problem, l: Layout, q: nat, m: Mesh, qb: seq<real>, c: Matrix, v: seq<real>, x: seq<seq<real>>,
                   k: nat, i: int, j: int, d: real)
    requires MeshOf(p, l, q, m, qb) && Shows(p, l, q, v, x) && IsLocal(p, l, q, k, i, j) && IsField(p, x)
             && IsCell(p, i, j)
    requires MatrixFits(c, m.solved, |v|) && k < m.solved && MatrixRowIs(m, c, k, d)
    ensures SumOf(OffTerms(c, m.solved, v, k)) == -NeighbourSum(p, x, i, j)
  {
    RowAt(p, l, q, m, qb, k, i, j);
    var g := (s: Side) => -Towards(p, x, i, j, s);
    var terms := OffTerms(c, m.solved, v, k);
    forall t | 0 <= t < |InnerSides(p, i, j)|
      ensures |terms| == |InnerSides(p, i, j)| && terms[t] == g(InnerSides(p, i, j)[t])
    {
      OffTermMatches(p, l, q, m, c, v, x, k, i, j, d, t);
    }
    hide MeshOf, Shows, MatrixFits, MatrixRowIs, IsGrid, OffTerms, InnerSides, RowMatches;
    InnerSum(p, i, j, g, terms);
    NeighbourTerms(p, x, i, j, g);
  }

  lemma NeighbourTerms(p: Problem, x: seq<seq<real>>, i: int, j: int, g: Side -> real)
    requires IsField(p, x) && IsCell(p, i, j) && g == ((s: Side) => -Towards(p, x, i, j, s))
    ensures OnInner(p, i, j, g, Left) + OnInner(p, i, j, g, Right) + OnInner(p, i, j, g, Bottom)
            + OnInner(p, i, j, g, Top)
            == -NeighbourSum(p, x, i, j)
  {
    forall s: Side
      ensures OnInner(p, i, j, g, s) == -Towards(p, x, i, j, s)
    {
    }
    hide Towards;
  }

  // ----- one row -----

  /** A local row times the local view of x is the row of the whole matrix times x. */
  lemma ProductMatches(p: Problem, l: Layout, q: nat, m: Mesh, qb: seq<real>, c: Matrix, v: seq<real>,
                       x: seq<seq<real>>, k: nat, i: int, j: int)
    requires p.dt > 0.0 && MeshOf(p, l, q, m, qb) && BuiltMatrix(m, p.dt * 10.0, c)
    requires Shows(p, l, q, v, x) && IsLocal(p, l, q, k, i, j)
    ensures IsField(p, x) && IsCell(p, i, j) && k < m.solved && MatrixFits(c, m.solved, |v|)
    ensures RowProduct(c, m.solved, v, k) == RowOf(p, x, i, j)
  {
    hide *;
    RowAt(p, l, q, m, qb, k, i, j);
    ShowsValues(p, l, q, m, qb, v, x);
    ShowsOwn(p, l, q, v, x, k, i, j);
    MatrixRow(p, l, q, m, qb, c, k, i, j);
    OffMatches(p, l, q, m, qb, c, v, x, k, i, j, DiagonalOf(p, i, j));
    ProductSplits(m, c, v, k, DiagonalOf(p, i, j));
    RowSplits(p, x, i, j);
  }

  lemma RowSplits(p: Problem, x: seq<seq<real>>, i: int, j: int)
    requires IsField(p, x) && IsCell(p, i, j)
    ensures RowOf(p, x, i, j) == DiagonalOf(p, i, j) * x[j][i] - NeighbourSum(p, x, i, j)
  {
  }

  lemma ProductSplits(m: Mesh, c: Matrix, v: seq<real>, k: nat, d: real)
    requires MatrixRowIs(m, c, k, d) && MatrixFits(c, m.solved, |v|) && k < m.solved && k < |v|
    ensures RowProduct(c, m.solved, v, k) == d * v[k] + SumOf(OffTerms(c, m.solved, v, k))
  {
    hide OffTerms;
  }

  lemma MatrixRow(p: Problem, l: Layout, q: nat, m: Mesh, qb: seq<real>, c: Matrix, k: nat, i: int, j: int)
    requires p.dt > 0.0 && MeshOf(p, l, q, m, qb) && BuiltMatrix(m, p.dt * 10.0, c) && IsLocal(p, l, q, k, i, j)
    ensures IsCell(p, i, j) && MatrixFits(c, m.solved, m.involved) && MatrixRowIs(m, c, k, DiagonalOf(p, i, j))
  {
    DiagonalMatches(p, l, q, m, qb, k, i, j);
    hide MeshOf, IsGrid, RowMatches, DiagonalOf, MatrixFits, MatrixRowIs;
    assert MatrixRowIs(m, c, k, Diagonals(m, TimeTerms(m, p.dt * 10.0))[k]);
  }

  /** One local Jacobi update is the update of its cell in the whole system. */
  lemma SweepMatches(p: Problem, l: Layout, q: nat, m: Mesh, qb: seq<real>, c: Matrix, rhs: seq<real>,
                     rhsField: seq<seq<real>>, v: seq<real>, x: seq<seq<real>>, k: nat, i: int, j: int)
    requires p.StepChosen() && MeshOf(p, l, q, m, qb) && BuiltMatrix(m, p.dt * 10.0, c)
    requires Shows(p, l, q, v, x) && IsLocal(p, l, q, k, i, j) && DiagonalNonzero(c, m.solved, |v|)
    requires IsField(p, rhsField) && IsCell(p, i, j) && k < m.solved <= |rhs| && rhs[k] == rhsField[j][i]
    ensures IsField(p, x) && JacobiAt(c, m.solved, rhs, v, k) == JacobiOf(p, rhsField, x, i, j)
  {
    RowAt(p, l, q, m, qb, k, i, j);
    ShowsValues(p, l, q, m, qb, v, x);
    MatrixRow(p, l, q, m, qb, c, k, i, j);
    hide MeshOf, BuiltMatrix, Shows, IsGrid, RowMatches, DiagonalOf, NeighbourSum, OffTerms;
    OffMatches(p, l, q, m, qb, c, v, x, k, i, j, DiagonalOf(p, i, j));
  }

  /** No local diagonal is zero. */
  lemma DiagonalsPositive(p: Problem, l: Layout, q: nat, m: Mesh, qb: seq<real>, c: Matrix)
    requires p.StepChosen() && MeshOf(p, l, q, m, qb) && BuiltMatrix(m, p.dt * 10.0, c)
    ensures DiagonalNonzero(c, m.solved, m.involved)
  {
    forall k | 0 <= k < m.solved
      ensures RowFits(c, k) && c.data[c.ia[k]] != 0.0
    {
      var i, j := CellOfLocal(p, l, q, k);
      MatrixRow(p, l, q, m, qb, c, k, i, j);
      hide MeshOf, BuiltMatrix, IsGrid, MatrixFits, IsLocal;
      DiagonalDominates(p, i, j);
    }
  }
}
