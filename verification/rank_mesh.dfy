/** A rank's mesh is its part of the grid: its residual, its matrix and its Jacobi sweep are,
    cell by cell, those of the whole problem. */
module RankMesh {
  import opened RealFacts
  import opened RealSums
  import opened GridTopology
  import opened Renumbering
  import opened Halo
  import opened HaloExchange
  import opened HaloTransfer
  import opened GridLayout
  import opened Stencil
  import opened BoundaryFaces
  import opened SideSums
  import opened LocalMesh

  // ----- what a rank's mesh stores -----

  /** Entry t of local row k is the cell across the t-th inner side of cell (i, j). */
  ghost predicate EntryMatches(p: Problem, l: Layout, q: nat, m: Mesh, k: nat, i: int, j: int, t: int)
    requires Setting(l)
  {
    && k + 1 < |m.ends| && 0 <= t < |InnerSides(p, i, j)| && m.ends[k] + t < |m.nbrs| == |m.rdista|
    && 0 <= m.nbrs[m.ends[k] + t] < |LocalCells(l, q)|
    && LocalCells(l, q)[m.nbrs[m.ends[k] + t]] == CellAcross(p, i, j, InnerSides(p, i, j)[t])
    && m.rdista[m.ends[k] + t] == Weight(p, InnerSides(p, i, j)[t])
  }

  ghost predicate RowMatches(p: Problem, l: Layout, q: nat, m: Mesh, k: nat, i: int, j: int)
    requires Setting(l)
  {
    && k + 1 < |m.ends| && m.ends[k + 1] as int - m.ends[k] as int == |InnerSides(p, i, j)|
    && forall t :: 0 <= t < |InnerSides(p, i, j)| ==> EntryMatches(p, l, q, m, k, i, j, t)
  }

  /** The t-th face of side n belongs to the t-th owned cell of that side. */
  ghost predicate FaceMatches(p: Problem, l: Layout, q: nat, m: Mesh, qb: seq<real>, n: int, t: int)
    requires Setting(l) && p.Valid() && |l.owner| == p.nx * p.ny
  {
    && 0 <= n < 4 && 0 <= t < |WholeSide(l.owner, q, p.nx, p.ny, SideNumber(n))|
    && var b := SideStart(l.owner, q, p.nx, p.ny, n) + t;
       && b < |m.faceCell| == |m.faceRdista| == |qb| && 0 <= m.faceCell[b] < |LocalCells(l, q)|
       && LocalCells(l, q)[m.faceCell[b]] == WholeSide(l.owner, q, p.nx, p.ny, SideNumber(n))[t]
       && m.faceRdista[b] == 2.0 * Weight(p, SideNumber(n)) && qb[b] == p.Boundary(SideNumber(n))
  }

  ghost predicate MeshSized(p: Problem, l: Layout, q: nat, m: Mesh, qb: seq<real>) {
    && p.Valid() && IsGrid(l, p.nx, p.ny) && Shaped(m)
    && m.solved == NumOwned(l.owner, q) && m.involved == |LocalCells(l, q)|
    && |m.faceCell| == |qb| == SideStart(l.owner, q, p.nx, p.ny, 4)
  }

  /** Rank q's mesh and boundary values. */
  ghost predicate MeshOf(p: Problem, l: Layout, q: nat, m: Mesh, qb: seq<real>) {
    && MeshSized(p, l, q, m, qb)
    && (forall k, i, j :: IsLocal(p, l, q, k, i, j) ==> RowMatches(p, l, q, m, k, i, j))
    && (forall n, t :: 0 <= n < 4 && 0 <= t < |WholeSide(l.owner, q, p.nx, p.ny, SideNumber(n))| ==>
          FaceMatches(p, l, q, m, qb, n, t))
    && (forall k :: 0 <= k < m.solved ==> m.volume[k] == p.volume)
  }

  /** Owned local number k is cell (i, j). */
  ghost predicate IsLocal(p: Problem, l: Layout, q: nat, k: int, i: int, j: int)
    requires Setting(l)
  {
    IsCell(p, i, j) && 0 <= k < NumOwned(l.owner, q) && LocalCells(l, q)[k] == Cell(p.nx, i, j)
  }

  // ----- fields on cells, by number -----

  ghost function Flatten(p: Problem, f: seq<seq<real>>): (r: seq<real>)
    requires IsField(p, f)
    ensures |r| == p.nx * p.ny
  {
    seq(p.nx * p.ny, c requires 0 <= c < p.nx * p.ny => CellOfNumber(p.nx, p.ny, c); f[c / p.nx][c % p.nx])
  }

  lemma FlattenAt(p: Problem, f: seq<seq<real>>, i: int, j: int)
    requires IsField(p, f) && IsCell(p, i, j)
    ensures 0 <= Cell(p.nx, i, j) < p.nx * p.ny && Flatten(p, f)[Cell(p.nx, i, j)] == f[j][i]
  {
    NumberParts(p.nx, p.ny, i, j);
  }

  /** v is the full local view of the field f. */
  ghost predicate Shows(p: Problem, l: Layout, q: nat, v: seq<real>, f: seq<seq<real>>) {
    p.Valid() && IsGrid(l, p.nx, p.ny) && IsField(p, f) && v == View(l, q, Flatten(p, f))
  }

  lemma ShowsOwn(p: Problem, l: Layout, q: nat, v: seq<real>, f: seq<seq<real>>, k: nat, i: int, j: int)
    requires Shows(p, l, q, v, f) && IsLocal(p, l, q, k, i, j)
    ensures k < |v| && v[k] == f[j][i]
  {
    FlattenAt(p, f, i, j);
  }

  lemma ShowsAcross(p: Problem, l: Layout, q: nat, v: seq<real>, f: seq<seq<real>>, m: Mesh, k: nat, i: int, j: int,
                    t: int)
    requires Shows(p, l, q, v, f) && IsLocal(p, l, q, k, i, j) && EntryMatches(p, l, q, m, k, i, j, t)
    ensures HasNeighbour(p, i, j, InnerSides(p, i, j)[t])
    ensures m.nbrs[m.ends[k] + t] < |v| && v[m.nbrs[m.ends[k] + t]] == Across(p, f, i, j, InnerSides(p, i, j)[t])
  {
    InnerSideIs(p, i, j, t);
    match InnerSides(p, i, j)[t] {
      case Left => FlattenAt(p, f, i - 1, j);
      case Right => FlattenAt(p, f, i + 1, j);
      case Bottom => FlattenAt(p, f, i, j - 1);
      case Top => FlattenAt(p, f, i, j + 1);
    }
  }

  lemma CellOfLocal(p: Problem, l: Layout, q: nat, k: nat) returns (i: int, j: int)
    requires p.Valid() && IsGrid(l, p.nx, p.ny) && k < NumOwned(l.owner, q)
    ensures IsLocal(p, l, q, k, i, j)
  {
    LocalCellsInRange(l, q, k);
    var c := LocalCells(l, q)[k];
    CellOfNumber(p.nx, p.ny, c);
    i, j := c % p.nx, c / p.nx;
  }

  lemma OwnerOfLocal(p: Problem, l: Layout, q: nat, k: nat, i: int, j: int)
    requires p.Valid() && IsGrid(l, p.nx, p.ny) && IsLocal(p, l, q, k, i, j)
    ensures 0 <= Cell(p.nx, i, j) < |l.owner| == p.nx * p.ny && l.owner[Cell(p.nx, i, j)] == q
  {
    NumberParts(p.nx, p.ny, i, j);
    LocalCellsInRange(l, q, k);
  }

  // ----- inner faces -----

  lemma RowAt(p: Problem, l: Layout, q: nat, m: Mesh, qb: seq<real>, k: nat, i: int, j: int)
    requires MeshOf(p, l, q, m, qb) && IsLocal(p, l, q, k, i, j)
    ensures IsCell(p, i, j) && k < m.solved && RowMatches(p, l, q, m, k, i, j)
  {
  }

  lemma ShowsValues(p: Problem, l: Layout, q: nat, m: Mesh, qb: seq<real>, v: seq<real>, f: seq<seq<real>>)
    requires MeshOf(p, l, q, m, qb) && Shows(p, l, q, v, f)
    ensures Values(m, v) && IsField(p, f) && |qb| == |m.faceCell|
  {
  }

  lemma FluxMatches(p: Problem, l: Layout, q: nat, m: Mesh, v: seq<real>, f: seq<seq<real>>, k: nat, i: int, j: int,
                    t: nat)
    requires Setting(l) && Shows(p, l, q, v, f) && IsLocal(p, l, q, k, i, j) && Values(m, v) && k < m.solved
    requires RowMatches(p, l, q, m, k, i, j) && t < |InnerSides(p, i, j)| && IsField(p, f) && IsCell(p, i, j)
    ensures |FluxTerms(m, v, k)| == |InnerSides(p, i, j)|
    ensures FluxTerms(m, v, k)[t] == SideFlux(p, f, i, j, InnerSides(p, i, j)[t])
  {
    hide Flow, Across, IsGrid, Setting, Shows, IsLocal, View, LocalCells, InnerSides;
    assert EntryMatches(p, l, q, m, k, i, j, t);
    ShowsOwn(p, l, q, v, f, k, i, j);
    ShowsAcross(p, l, q, v, f, m, k, i, j, t);
    assert FluxTerms(m, v, k)[t] == Flux(m, v, k, m.ends[k] + t);
  }

  lemma FluxesMatch(p: Problem, l: Layout, q: nat, m: Mesh, qb: seq<real>, v: seq<real>, f: seq<seq<real>>, k: nat,
                    i: int, j: int)
    requires MeshOf(p, l, q, m, qb) && Shows(p, l, q, v, f) && IsLocal(p, l, q, k, i, j) && IsField(p, f)
    ensures Values(m, v) && k < m.solved
    ensures var g := (s: Side) => SideFlux(p, f, i, j, s);
            SumOf(FluxTerms(m, v, k)) == OnInner(p, i, j, g, Left) + OnInner(p, i, j, g, Right)
                                         + OnInner(p, i, j, g, Bottom) + OnInner(p, i, j, g, Top)
  {
    RowAt(p, l, q, m, qb, k, i, j);
    ShowsValues(p, l, q, m, qb, v, f);
    var g := (s: Side) => SideFlux(p, f, i, j, s);
    var terms := FluxTerms(m, v, k);
    forall t | 0 <= t < |InnerSides(p, i, j)|
      ensures terms[t] == g(InnerSides(p, i, j)[t])
    {
      FluxMatches(p, l, q, m, v, f, k, i, j, t);
    }
    hide *;
    InnerSum(p, i, j, g, terms);
  }

  // ----- boundary faces -----

  /** Local face b, the t-th of side n. */
  lemma FaceAt(p: Problem, l: Layout, q: nat, m: Mesh, qb: seq<real>, n: nat, t: nat)
    requires MeshOf(p, l, q, m, qb) && n < 4 && t < |WholeSide(l.owner, q, p.nx, p.ny, SideNumber(n))|
    ensures FaceMatches(p, l, q, m, qb, n, t)
  {
  }

  /** Two owned local numbers are equal when their cells are. */
  lemma SameLocal(l: Layout, q: nat, a: nat, b: nat)
    requires Setting(l) && a < |LocalCells(l, q)| && b < |LocalCells(l, q)|
    ensures a == b <==> LocalCells(l, q)[a] == LocalCells(l, q)[b]
  {
    if a < b {
      LocalCellsDistinct(l, q, a, b);
    } else if b < a {
      LocalCellsDistinct(l, q, b, a);
    }
  }

  /** The term of the t-th face of side n: g of the side if the face is local cell k's. */
  ghost predicate OuterTerm(p: Problem, l: Layout, q: nat, m: Mesh, k: nat, g: Side -> real, terms: seq<real>, n: int,
                            t: int)
    requires p.Valid() && |l.owner| == p.nx * p.ny
  {
    0 <= n < 4 && 0 <= t &&
    var b := SideStart(l.owner, q, p.nx, p.ny, n) + t;
    b < |m.faceCell| && b < |terms| && terms[b] == if m.faceCell[b] == k then g(SideNumber(n)) else 0.0
  }

  ghost predicate OuterTerms(p: Problem, l: Layout, q: nat, m: Mesh, k: nat, g: Side -> real, terms: seq<real>)
    requires p.Valid() && |l.owner| == p.nx * p.ny
  {
    && |terms| == SideStart(l.owner, q, p.nx, p.ny, 4)
    && forall n, t :: 0 <= n < 4 && 0 <= t < |WholeSide(l.owner, q, p.nx, p.ny, SideNumber(n))| ==>
         OuterTerm(p, l, q, m, k, g, terms, n, t)
  }

  lemma OuterTermTagged(p: Problem, l: Layout, q: nat, m: Mesh, qb: seq<real>, k: nat, c: nat, g: Side -> real,
                        terms: seq<real>, n: nat, t: nat)
    requires Setting(l) && p.Valid() && |l.owner| == p.nx * p.ny
    requires k < |LocalCells(l, q)| && LocalCells(l, q)[k] == c
    requires FaceMatches(p, l, q, m, qb, n, t) && OuterTerm(p, l, q, m, k, g, terms, n, t)
    ensures TermIs(p, l.owner, q, c, g, terms, n, t)
  {
    var b := SideStart(l.owner, q, p.nx, p.ny, n) + t;
    hide LocalCells, Setting, WholeSide, SideStart;
    SameLocal(l, q, m.faceCell[b], k);
  }

  /** A list with one term per boundary face, zero for other cells' faces, sums to the terms
      of the outer sides of the cell. */
  lemma OuterSum(p: Problem, l: Layout, q: nat, m: Mesh, qb: seq<real>, k: nat, i: int, j: int, g: Side -> real,
                 terms: seq<real>)
    requires MeshOf(p, l, q, m, qb) && IsLocal(p, l, q, k, i, j) && |l.owner| == p.nx * p.ny
    requires OuterTerms(p, l, q, m, k, g, terms)
    ensures SumOf(terms) == OnBoundary(p, i, j, g, Left) + OnBoundary(p, i, j, g, Right)
                            + OnBoundary(p, i, j, g, Bottom) + OnBoundary(p, i, j, g, Top)
  {
    OwnerOfLocal(p, l, q, k, i, j);
    var c := Cell(p.nx, i, j);
    assert k < |LocalCells(l, q)| && LocalCells(l, q)[k] == c;
    assert Tagged(p, l.owner, q, c, g, terms) by {
      hide LocalCells, Setting, IsGrid, Shaped, OuterTerm, TermIs, FaceMatches, RowMatches, IsLocal;
      forall n, t | 0 <= n < 4 && 0 <= t < |WholeSide(l.owner, q, p.nx, p.ny, SideNumber(n))|
        ensures TermIs(p, l.owner, q, c, g, terms, n, t)
      {
        FaceAt(p, l, q, m, qb, n, t);
        OuterTermTagged(p, l, q, m, qb, k, c, g, terms, n, t);
      }
    }
    hide *;
    BoundarySum(p, l.owner, q, i, j, g, terms);
  }

  /** The flux a boundary face of a side carries. */
  ghost function OuterFlux(p: Problem, x: real, s: Side): real {
    Flow(p.Boundary(s), x, 2.0 * Weight(p, s))
  }

  lemma FaceFluxMatches(p: Problem, l: Layout, q: nat, m: Mesh, qb: seq<real>, v: seq<real>, x: real, k: nat, n: nat,
                        t: nat, g: Side -> real)
    requires Setting(l) && p.Valid() && |l.owner| == p.nx * p.ny && Values(m, v) && |qb| == |m.faceCell|
    requires k < m.solved && v[k] == x && g == ((s: Side) => OuterFlux(p, x, s))
    requires FaceMatches(p, l, q, m, qb, n, t)
    ensures OuterTerm(p, l, q, m, k, g, FaceTerms(m, v, qb, k), n, t)
  {
    hide Setting, LocalCells, Shaped, Flow, WholeSide, SideStart;
    var b := SideStart(l.owner, q, p.nx, p.ny, n) + t;
    assert g(SideNumber(n)) == OuterFlux(p, x, SideNumber(n));
  }

  lemma FaceFluxesMatch(p: Problem, l: Layout, q: nat, m: Mesh, qb: seq<real>, v: seq<real>, f: seq<seq<real>>, k: nat,
                        i: int, j: int)
    requires MeshOf(p, l, q, m, qb) && Shows(p, l, q, v, f) && IsLocal(p, l, q, k, i, j)
    ensures Values(m, v) && IsField(p, f) && IsCell(p, i, j) && k < m.solved && |qb| == |m.faceCell|
    ensures var g := (s: Side) => OuterFlux(p, f[j][i], s);
            SumOf(FaceTerms(m, v, qb, k)) == OnBoundary(p, i, j, g, Left) + OnBoundary(p, i, j, g, Right)
                                             + OnBoundary(p, i, j, g, Bottom) + OnBoundary(p, i, j, g, Top)
  {
    RowAt(p, l, q, m, qb, k, i, j);
    ShowsValues(p, l, q, m, qb, v, f);
    ShowsOwn(p, l, q, v, f, k, i, j);
    var g := (s: Side) => OuterFlux(p, f[j][i], s);
    var terms := FaceTerms(m, v, qb, k);
    hide RowMatches, FaceMatches, OuterTerm, IsGrid, Setting, Shaped, Shows, IsLocal, OuterFlux, OnBoundary;
    forall n, t | 0 <= n < 4 && 0 <= t < |WholeSide(l.owner, q, p.nx, p.ny, SideNumber(n))|
      ensures OuterTerm(p, l, q, m, k, g, terms, n, t)
    {
      FaceAt(p, l, q, m, qb, n, t);
      FaceFluxMatches(p, l, q, m, qb, v, f[j][i], k, n, t, g);
    }
    OuterSum(p, l, q, m, qb, k, i, j, g, terms);
  }

  /** Each side of a cell is an inner face or a boundary face. */
  lemma SideIsEither(p: Problem, f: seq<seq<real>>, i: int, j: int, g: Side -> real, h: Side -> real, s: Side)
    requires IsField(p, f) && IsCell(p, i, j)
    requires g == ((s: Side) => SideFlux(p, f, i, j, s)) && h == ((s: Side) => OuterFlux(p, f[j][i], s))
    ensures OnInner(p, i, j, g, s) + OnBoundary(p, i, j, h, s) == SideFlux(p, f, i, j, s)
  {
    assert h(s) == OuterFlux(p, f[j][i], s);
  }

  /** The residual a rank computes for an owned cell, from exchanged values, is the residual
      of that cell of the grid. */
  lemma ResidualMatches(p: Problem, l: Layout, q: nat, m: Mesh, qb: seq<real>, v: seq<real>, f: seq<seq<real>>, k: nat,
                        i: int, j: int)
    requires MeshOf(p, l, q, m, qb) && Shows(p, l, q, v, f) && IsLocal(p, l, q, k, i, j)
    ensures Values(m, v) && IsField(p, f) && IsCell(p, i, j) && k < m.solved && |qb| == |m.faceCell|
    ensures ResidualAt(m, v, qb, k) == ResidualOf(p, f, i, j)
  {
    FaceFluxesMatch(p, l, q, m, qb, v, f, k, i, j);
    FluxesMatch(p, l, q, m, qb, v, f, k, i, j);
    var g := (s: Side) => SideFlux(p, f, i, j, s);
    var h := (s: Side) => OuterFlux(p, f[j][i], s);
    SideIsEither(p, f, i, j, g, h, Left);
    SideIsEither(p, f, i, j, g, h, Right);
    SideIsEither(p, f, i, j, g, h, Bottom);
    SideIsEither(p, f, i, j, g, h, Top);
    hide MeshOf, Shows, OnInner, OnBoundary, SideFlux;
  }
}
