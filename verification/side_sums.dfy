/** Sums over a cell's inner and boundary faces, whatever order the lists keep them in, are
    sums over its sides. */
module SideSums {
  import opened RealSums
  import opened GridTopology
  import opened GridLayout
  import opened Stencil
  import opened BoundaryFaces

  // ----- inner faces: the order of the adjacency -----

  /** The sides with a neighbour, in the order of the adjacency. */
  function InnerSides(p: Problem, i: int, j: int): (r: seq<Side>)
    ensures |r| == Degree(p.nx, p.ny, i, j)
  {
    (if HasNeighbour(p, i, j, Left) then [Left] else []) + (if HasNeighbour(p, i, j, Right) then [Right] else [])
    + (if HasNeighbour(p, i, j, Bottom) then [Bottom] else []) + (if HasNeighbour(p, i, j, Top) then [Top] else [])
  }

  /** The number of the cell across a side. */
  function CellAcross(p: Problem, i: int, j: int, s: Side): int {
    match s
    case Left => Cell(p.nx, i - 1, j)
    case Right => Cell(p.nx, i + 1, j)
    case Bottom => Cell(p.nx, i, j - 1)
    case Top => Cell(p.nx, i, j + 1)
  }

  lemma InnerSideIs(p: Problem, i: int, j: int, k: nat)
    requires IsCell(p, i, j) && k < Degree(p.nx, p.ny, i, j)
    ensures HasNeighbour(p, i, j, InnerSides(p, i, j)[k])
    ensures Neighbours(p.nx, p.ny, i, j)[k] == CellAcross(p, i, j, InnerSides(p, i, j)[k])
  {
  }

  ghost function Apply(g: Side -> real, sides: seq<Side>): (r: seq<real>)
    ensures |r| == |sides| && forall k :: 0 <= k < |r| ==> r[k] == g(sides[k])
  {
    seq(|sides|, k requires 0 <= k < |sides| => g(sides[k]))
  }

  lemma ApplyConcat(g: Side -> real, a: seq<Side>, b: seq<Side>)
    ensures SumOf(Apply(g, a + b)) == SumOf(Apply(g, a)) + SumOf(Apply(g, b))
  {
    assert Apply(g, a + b) == Apply(g, a) + Apply(g, b);
    SumConcat(Apply(g, a), Apply(g, b));
  }

  function Only(b: bool, s: Side): seq<Side> {
    if b then [s] else []
  }

  lemma OneSide(g: Side -> real, b: bool, s: Side)
    ensures SumOf(Apply(g, Only(b, s))) == if b then g(s) else 0.0
  {
    var t := Apply(g, Only(b, s));
    if b {
      assert SumTo(t, 1) == SumTo(t, 0) + t[0];
    }
  }

  ghost function OnInner(p: Problem, i: int, j: int, g: Side -> real, s: Side): real {
    if HasNeighbour(p, i, j, s) then g(s) else 0.0
  }

  ghost function OnBoundary(p: Problem, i: int, j: int, g: Side -> real, s: Side): real {
    if HasNeighbour(p, i, j, s) then 0.0 else g(s)
  }

  /** A list with one term per inner face sums to the terms of the sides with a neighbour. */
  lemma InnerSum(p: Problem, i: int, j: int, g: Side -> real, terms: seq<real>)
    requires |terms| == |InnerSides(p, i, j)| && forall k :: 0 <= k < |terms| ==> terms[k] == g(InnerSides(p, i, j)[k])
    ensures SumOf(terms) == OnInner(p, i, j, g, Left) + OnInner(p, i, j, g, Right)
                            + OnInner(p, i, j, g, Bottom) + OnInner(p, i, j, g, Top)
  {
    assert terms == Apply(g, InnerSides(p, i, j));
    var a, b, c, d := Only(HasNeighbour(p, i, j, Left), Left), Only(HasNeighbour(p, i, j, Right), Right),
                      Only(HasNeighbour(p, i, j, Bottom), Bottom), Only(HasNeighbour(p, i, j, Top), Top);
    assert InnerSides(p, i, j) == a + b + c + d;
    ApplyConcat(g, a + b + c, d);
    ApplyConcat(g, a + b, c);
    ApplyConcat(g, a, b);
    OneSide(g, HasNeighbour(p, i, j, Left), Left);
    OneSide(g, HasNeighbour(p, i, j, Right), Right);
    OneSide(g, HasNeighbour(p, i, j, Bottom), Bottom);
    OneSide(g, HasNeighbour(p, i, j, Top), Top);
  }

  // ----- boundary faces: four lists behind each other -----

  /** Position of a cell along a side. */
  function Along(s: Side, i: int, j: int): int {
    if s.Bottom? || s.Top? then i else j
  }

  /** The term of the face of cell c on each side is g, other faces' terms are zero. */
  ghost predicate Tagged(p: Problem, owner: seq<nat>, q: nat, c: nat, g: Side -> real, terms: seq<real>)
    requires p.Valid() && |owner| == p.nx * p.ny
  {
    |terms| == SideStart(owner, q, p.nx, p.ny, 4) &&
    forall k, m :: 0 <= k < 4 && 0 <= m < |WholeSide(owner, q, p.nx, p.ny, SideNumber(k))| ==>
      TermIs(p, owner, q, c, g, terms, k, m)
  }

  ghost predicate TermIs(p: Problem, owner: seq<nat>, q: nat, c: nat, g: Side -> real, terms: seq<real>, k: int, m: int)
    requires p.Valid() && |owner| == p.nx * p.ny
  {
    && 0 <= k < 4 && 0 <= m < |WholeSide(owner, q, p.nx, p.ny, SideNumber(k))|
    && SideStart(owner, q, p.nx, p.ny, k) + m < |terms|
    && terms[SideStart(owner, q, p.nx, p.ny, k) + m]
       == if WholeSide(owner, q, p.nx, p.ny, SideNumber(k))[m] == c then g(SideNumber(k)) else 0.0
  }

  /** The t-th cell of a side is cell (i, j) exactly at its position, if it is on the side. */
  lemma SideCellIsCell(p: Problem, i: int, j: int, s: Side, t: nat)
    requires IsCell(p, i, j) && t < SideLength(p.nx, p.ny, s)
    ensures SideCell(p.nx, p.ny, s, t) == Cell(p.nx, i, j) <==> !HasNeighbour(p, i, j, s) && t == Along(s, i, j)
  {
    NumberParts(p.nx, p.ny, i, j);
    SideCellIs(p.nx, p.ny, s, t);
    CellOfNumber(p.nx, p.ny, SideCell(p.nx, p.ny, s, t));
  }

  /** Along one side, the cell's own face is met once, at its position. */
  lemma {:induction false} SideSum(p: Problem, owner: seq<nat>, q: nat, i: int, j: int, g: Side -> real,
                                   terms: seq<real>, k: nat, n: nat)
    requires IsCell(p, i, j) && |owner| == p.nx * p.ny && k < 4 && n <= SideLength(p.nx, p.ny, SideNumber(k))
    requires 0 <= Cell(p.nx, i, j) < |owner| && owner[Cell(p.nx, i, j)] == q
    requires Tagged(p, owner, q, Cell(p.nx, i, j), g, terms)
    ensures SideStart(owner, q, p.nx, p.ny, k) + |OwnedOn(owner, q, p.nx, p.ny, SideNumber(k), n)| <= |terms|
    ensures SideStart(owner, q, p.nx, p.ny, k) <= |terms|
    ensures SumTo(terms, SideStart(owner, q, p.nx, p.ny, k) + |OwnedOn(owner, q, p.nx, p.ny, SideNumber(k), n)|)
            == SumTo(terms, SideStart(owner, q, p.nx, p.ny, k))
               + if n > Along(SideNumber(k), i, j) then OnBoundary(p, i, j, g, SideNumber(k)) else 0.0
  {
    hide Tagged, SideCell, SideNumber, HasNeighbour, Cell, SideStart;
    var s, start := SideNumber(k), SideStart(owner, q, p.nx, p.ny, k);
    SideFits(p, owner, q, Cell(p.nx, i, j), g, terms, k, n);
    if n > 0 {
      SideSum(p, owner, q, i, j, g, terms, k, n - 1);
      SideCellIs(p.nx, p.ny, s, n - 1);
      SideCellIsCell(p, i, j, s, n - 1);
      if owner[SideCell(p.nx, p.ny, s, n - 1)] == q {
        var m := |OwnedOn(owner, q, p.nx, p.ny, s, n - 1)|;
        TermOnSide(p, owner, q, Cell(p.nx, i, j), g, terms, k, n);
        assert SumTo(terms, start + m + 1) == SumTo(terms, start + m) + terms[start + m];
      }
    }
  }

  lemma SideFits(p: Problem, owner: seq<nat>, q: nat, c: nat, g: Side -> real, terms: seq<real>, k: nat, n: nat)
    requires p.Valid() && |owner| == p.nx * p.ny && k < 4 && n <= SideLength(p.nx, p.ny, SideNumber(k))
    requires Tagged(p, owner, q, c, g, terms)
    ensures SideStart(owner, q, p.nx, p.ny, k) + |OwnedOn(owner, q, p.nx, p.ny, SideNumber(k), n)| <= |terms|
  {
    OwnedPrefix(owner, q, p.nx, p.ny, SideNumber(k), n, SideLength(p.nx, p.ny, SideNumber(k)));
    SideStartGrows(owner, q, p.nx, p.ny, k + 1, 4);
    assert SideStart(owner, q, p.nx, p.ny, k + 1)
           == SideStart(owner, q, p.nx, p.ny, k) + |WholeSide(owner, q, p.nx, p.ny, SideNumber(k))|;
  }

  lemma TermOnSide(p: Problem, owner: seq<nat>, q: nat, c: nat, g: Side -> real, terms: seq<real>, k: nat, n: nat)
    requires p.Valid() && |owner| == p.nx * p.ny && k < 4 && 0 < n <= SideLength(p.nx, p.ny, SideNumber(k))
    requires Tagged(p, owner, q, c, g, terms)
    requires SideCell(p.nx, p.ny, SideNumber(k), n - 1) < |owner|
             && owner[SideCell(p.nx, p.ny, SideNumber(k), n - 1)] == q
    ensures var m := |OwnedOn(owner, q, p.nx, p.ny, SideNumber(k), n - 1)|;
            && |OwnedOn(owner, q, p.nx, p.ny, SideNumber(k), n)| == m + 1
            && SideStart(owner, q, p.nx, p.ny, k) + m < |terms|
            && terms[SideStart(owner, q, p.nx, p.ny, k) + m]
               == if SideCell(p.nx, p.ny, SideNumber(k), n - 1) == c then g(SideNumber(k)) else 0.0
  {
    hide SideCell, SideNumber, SideStart;
    var s := SideNumber(k);
    var m := |OwnedOn(owner, q, p.nx, p.ny, s, n - 1)|;
    OwnedPrefix(owner, q, p.nx, p.ny, s, n, SideLength(p.nx, p.ny, s));
    assert OwnedOn(owner, q, p.nx, p.ny, s, n)[m] == SideCell(p.nx, p.ny, s, n - 1);
    assert WholeSide(owner, q, p.nx, p.ny, s)[m] == SideCell(p.nx, p.ny, s, n - 1);
    assert TermIs(p, owner, q, c, g, terms, k, m);
  }

  lemma WholeSideSum(p: Problem, owner: seq<nat>, q: nat, i: int, j: int, g: Side -> real, terms: seq<real>, k: nat)
    requires IsCell(p, i, j) && |owner| == p.nx * p.ny && k < 4
    requires 0 <= Cell(p.nx, i, j) < |owner| && owner[Cell(p.nx, i, j)] == q
    requires Tagged(p, owner, q, Cell(p.nx, i, j), g, terms)
    ensures SideStart(owner, q, p.nx, p.ny, k) <= |terms| && SideStart(owner, q, p.nx, p.ny, k + 1) <= |terms|
    ensures SumTo(terms, SideStart(owner, q, p.nx, p.ny, k + 1))
            == SumTo(terms, SideStart(owner, q, p.nx, p.ny, k)) + OnBoundary(p, i, j, g, SideNumber(k))
  {
    hide Tagged, SideNumber, SideCell, HasNeighbour, OnBoundary, OwnedOn;
    SideSum(p, owner, q, i, j, g, terms, k, SideLength(p.nx, p.ny, SideNumber(k)));
  }

  /** A list with the cell's own boundary faces tagged sums to the terms of its outer sides. */
  lemma BoundarySum(p: Problem, owner: seq<nat>, q: nat, i: int, j: int, g: Side -> real, terms: seq<real>)
    requires IsCell(p, i, j) && |owner| == p.nx * p.ny
    requires 0 <= Cell(p.nx, i, j) < |owner| && owner[Cell(p.nx, i, j)] == q
    requires Tagged(p, owner, q, Cell(p.nx, i, j), g, terms)
    ensures SumOf(terms) == OnBoundary(p, i, j, g, Left) + OnBoundary(p, i, j, g, Right)
                            + OnBoundary(p, i, j, g, Bottom) + OnBoundary(p, i, j, g, Top)
  {
    hide OnBoundary, WholeSide;
    WholeSideSum(p, owner, q, i, j, g, terms, 0);
    WholeSideSum(p, owner, q, i, j, g, terms, 1);
    WholeSideSum(p, owner, q, i, j, g, terms, 2);
    WholeSideSum(p, owner, q, i, j, g, terms, 3);
    assert SideStart(owner, q, p.nx, p.ny, 0) == 0;
  }
}
