/** The two operations of BiCGSTAB that need other ranks: the product with the matrix, after
    an exchange, and the dot product. Both are those of the whole grid, so the solver may be
    followed on vectors over all cells. */
module DistributedProduct {
  import opened Renumbering
  import opened Halo
  import opened HaloExchange
  import opened HaloTransfer
  import opened GridLayout
  import opened Stencil
  import opened Contraction
  import opened LocalMesh
  import opened Csr
  import opened Jacobian
  import opened RankMesh
  import opened RankSystem
  import opened DistributedBuild
  import opened DistributedMesh
  import opened DistributedSolver
  import opened DistributedJacobi
  import opened DistributedSums
  import opened GridOperator
  import opened Vectors
  import BicgstabLoops

  // ----- the product -----

  lemma FlattenBack(p: Problem, x: seq<real>)
    requires p.Valid() && |x| == p.nx * p.ny
    ensures Flatten(p, FieldOf(p, x)) == x
  {
    forall c | 0 <= c < |x|
      ensures Flatten(p, FieldOf(p, x))[c] == x[c]
    {
      CellOfNumber(p.nx, p.ny, c);
      FieldOfAt(p, x, c % p.nx, c / p.nx);
    }
  }

  lemma ViewShows(p: Problem, l: Layout, q: nat, v: seq<real>, x: seq<real>)
    requires p.Valid() && IsGrid(l, p.nx, p.ny) && |x| == p.nx * p.ny == |l.owner| && Setting(l) && v == View(l, q, x)
    ensures Shows(p, l, q, v, FieldOf(p, x))
  {
    FlattenBack(p, x);
  }

  lemma ProductEntry(p: Problem, l: Layout, q: nat, r: Rank, c: Matrix, v: seq<real>, x: seq<real>, k: nat)
    requires p.StepChosen() && Setting(l) && RankBuilt(p, l, q, r) && BuiltMatrix(r.mesh, p.dt * 10.0, c)
    requires p.Valid() && IsGrid(l, p.nx, p.ny) && |x| == p.nx * p.ny && Shows(p, l, q, v, FieldOf(p, x))
    requires k < NumOwned(l.owner, q)
    ensures k < r.mesh.solved && MatrixFits(c, r.mesh.solved, |v|)
    ensures LocalCells(l, q)[k] < |Times(p)(x)|
            && RowProduct(c, r.mesh.solved, v, k) == Times(p)(x)[LocalCells(l, q)[k]]
  {
    hide MeshOf, RowsDistinct, MeshAssembly.AreasOf, Shows, BuiltMatrix, RowProduct, RowOf, FieldOf, Times, Setting;
    var i, j := CellOfLocal(p, l, q, k);
    ProductMatches(p, l, q, r.mesh, r.qb, c, v, FieldOf(p, x), k, i, j);
    NumberParts(p.nx, p.ny, i, j);
    TimesAt(p, x, LocalCells(l, q)[k]);
  }

  /** One rank's rows: its part of the product. */
  method MultiplyRank(ghost p: Problem, ghost l: Layout, ghost q: nat, r: Rank, c: Matrix, vec: seq<real>,
                      ghost x: seq<real>)
    returns (out: array<real>)
    requires p.StepChosen() && Setting(l) && RankBuilt(p, l, q, r) && BuiltMatrix(r.mesh, p.dt * 10.0, c)
    requires p.Valid() && IsGrid(l, p.nx, p.ny) && |x| == p.nx * p.ny == |l.owner| && Shows(p, l, q, vec, FieldOf(p, x))
    ensures fresh(out) && out.Length == |LocalCells(l, q)| && |Times(p)(x)| == |l.owner|
            && Holds(l, q, out[..], Times(p)(x))
  {
    hide RankBuilt, Shows, BuiltMatrix, Setting, IsGrid, RowProduct, FieldOf, Times;
    ProductSizes(p, l, q, r, c, vec, x);
    out := new real[r.mesh.involved];
    MultiplyLocal(c, r.mesh.solved, vec, out);
    TimesLength(p, x);
    forall k | 0 <= k < NumOwned(l.owner, q)
      ensures out[k] == View(l, q, Times(p)(x))[k]
    {
      ProductEntry(p, l, q, r, c, vec, x, k);
    }
  }

  lemma ProductSizes(p: Problem, l: Layout, q: nat, r: Rank, c: Matrix, v: seq<real>, x: seq<real>)
    requires p.StepChosen() && Setting(l) && RankBuilt(p, l, q, r) && BuiltMatrix(r.mesh, p.dt * 10.0, c)
    requires p.Valid() && |x| == p.nx * p.ny && Shows(p, l, q, v, FieldOf(p, x))
    ensures r.mesh.solved == NumOwned(l.owner, q) <= r.mesh.involved == |LocalCells(l, q)| == |v|
    ensures MatrixFits(c, r.mesh.solved, |v|)
  {
  }

  /** matrix_vector_multiply on all ranks: the exchange completes vec_in, and the owned parts
      of vec_out are those of the matrix of the whole grid times the whole vector. */
  method MultiplyAll(p: Problem, l: Layout, hs: seq<RankHalo>, ranks: seq<Rank>, matrices: seq<Matrix>,
                     vecIn: seq<array<real>>, ghost x: seq<real>) returns (vecOut: seq<array<real>>)
    requires p.StepChosen() && p.Valid() && IsGrid(l, p.nx, p.ny) && AllBuilt(l, hs) && Setting(l)
    requires RanksBuilt(p, l, ranks) && MatricesBuilt(p, l, ranks, matrices) && |ranks| == |matrices| == l.procs
    requires Fitting(l, vecIn) && |vecIn| == l.procs && |x| == p.nx * p.ny == |l.owner|
    requires forall q :: 0 <= q < l.procs ==> Holds(l, q, vecIn[q][..], x)
    modifies vecIn
    ensures forall q :: 0 <= q < l.procs ==> vecIn[q][..] == View(l, q, x)
    ensures |vecOut| == l.procs && |Times(p)(x)| == |l.owner| && fresh(vecOut) && Fitting(l, vecOut)
    ensures forall q :: 0 <= q < l.procs ==> Holds(l, q, vecOut[q][..], Times(p)(x))
  {
    hide IsGrid, AllBuilt, Setting, Holds, AllHold, LocalCells, Shows, RankBuilt, BuiltMatrix, FieldOf, Times;
    AllHoldFrom(l, vecIn, x);
    ExchangeField(l, hs, vecIn, x);
    TimesLength(p, x);
    vecOut := [];
    for q := 0 to l.procs
      invariant |vecOut| == q && fresh(vecOut) && Separate(vecOut)
      invariant forall r :: 0 <= r < l.procs ==> vecIn[r][..] == View(l, r, x)
      invariant forall r :: 0 <= r < q ==>
                vecOut[r].Length == |LocalCells(l, r)| && Holds(l, r, vecOut[r][..], Times(p)(x))
    {
      ViewShows(p, l, q, vecIn[q][..], x);
      var out := MultiplyRank(p, l, q, ranks[q], matrices[q], vecIn[q][..], x);
      vecOut := vecOut + [out];
    }
  }

  // ----- the dot product -----

  /** What each rank multiplies are its own values of the products of the whole vectors. */
  lemma OwnProducts(l: Layout, q: nat, v: seq<real>, w: seq<real>, x: seq<real>, y: seq<real>)
    requires Setting(l) && |x| == |y| == |l.owner| && Holds(l, q, v, x) && Holds(l, q, w, y)
    ensures NumOwned(l.owner, q) <= |v| == |w|
    ensures OwnValues(l.owner, q, Products(x, y),
                      Products(v[..NumOwned(l.owner, q)], w[..NumOwned(l.owner, q)]))
  {
    var n := NumOwned(l.owner, q);
    var own := Products(v[..n], w[..n]);
    forall k | 0 <= k < n
      ensures Owned(l.owner, q, |l.owner|)[k] < |x| && own[k] == Products(x, y)[Owned(l.owner, q, |l.owner|)[k]]
    {
      LocalCellsInRange(l, q, k);
      assert LocalCells(l, q)[k] == Owned(l.owner, q, |l.owner|)[k];
      assert v[k] == v[..n][k] == View(l, q, x)[..n][k];
      assert w[k] == w[..n][k] == View(l, q, y)[..n][k];
    }
  }

  ghost function AllProducts(l: Layout, vs: seq<seq<real>>, ws: seq<seq<real>>): (r: seq<seq<real>>)
    requires |vs| == |ws| && forall q :: 0 <= q < |vs| ==> NumOwned(l.owner, q) <= |vs[q]| == |ws[q]|
    ensures |r| == |vs|
    ensures forall q :: 0 <= q < |r| ==>
              r[q] == Products(vs[q][..NumOwned(l.owner, q)], ws[q][..NumOwned(l.owner, q)])
  {
    seq(|vs|, q requires 0 <= q < |vs| => Products(vs[q][..NumOwned(l.owner, q)], ws[q][..NumOwned(l.owner, q)]))
  }

  /** dot_product: every rank's own sum, then MPI_Allreduce with MPI_SUM. */
  method DotAll(l: Layout, hs: seq<RankHalo>, vs: seq<array<real>>, ws: seq<array<real>>, ghost x: seq<real>,
                ghost y: seq<real>)
    returns (result: real)
    requires AllBuilt(l, hs) && Setting(l) && |x| == |y| == |l.owner| && |vs| == |ws| == l.procs
    requires forall q :: 0 <= q < l.procs ==> Holds(l, q, vs[q][..], x) && Holds(l, q, ws[q][..], y)
    ensures result == Dot(x, y)
  {
    hide Holds, OwnValues, Products, LocalCells;
    forall q | 0 <= q < l.procs
      ensures NumOwned(l.owner, q) <= vs[q].Length == ws[q].Length
    {
      OwnProducts(l, q, vs[q][..], ws[q][..], x, y);
    }
    ghost var owns := AllProducts(l, Contents(vs), Contents(ws));
    result := 0.0;
    for q := 0 to l.procs
      invariant result == RankSums(owns, q)
    {
      var n := hs[q].numSolved;
      assert vs[q][..][..n] == vs[q][..n] && ws[q][..][..n] == ws[q][..n];
      var local := BicgstabLoops.DotProduct(vs[q][..n], ws[q][..n]);
      result := result + local;
    }
    forall q | 0 <= q < l.procs
      ensures OwnValues(l.owner, q, Products(x, y), owns[q])
    {
      OwnProducts(l, q, vs[q][..], ws[q][..], x, y);
    }
    RanksSumAll(l.owner, Products(x, y), owns, l.procs);
  }
}
