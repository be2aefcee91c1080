/** The boundary faces of a rank: counted, listed side by side, and given their area over
    distance and boundary value. */
module BoundaryFaces {
  import opened RealFacts
  import opened RealSums
  import opened GridTopology
  import opened GridLayout
  import opened Stencil
  import opened GridGeometry

  function SideLength(nx: nat, ny: nat, s: Side): nat {
    if s.Bottom? || s.Top? then nx else ny
  }

  /** The t-th cell along a side. */
  function SideCell(nx: nat, ny: nat, s: Side, t: nat): nat
    requires nx > 0 && ny > 0
  {
    match s
    case Bottom => t
    case Top => (ny - 1) * nx + t
    case Left => t * nx
    case Right => t * nx + (nx - 1)
  }

  lemma SideCellIs(nx: nat, ny: nat, s: Side, t: nat)
    requires nx > 0 && ny > 0 && t < SideLength(nx, ny, s)
    ensures SideCell(nx, ny, s, t) < nx * ny
    ensures SideCell(nx, ny, s, t) % nx == if s.Left? then 0 else if s.Right? then nx - 1 else t
    ensures SideCell(nx, ny, s, t) / nx == if s.Bottom? then 0 else if s.Top? then ny - 1 else t
  {
    match s
    case Bottom => NumberParts(nx, ny, t, 0);
    case Top => NumberParts(nx, ny, t, ny - 1);
    case Left => NumberParts(nx, ny, 0, t);
    case Right => NumberParts(nx, ny, nx - 1, t);
  }

  /** The t-th cell of a side, if the rank owns it. */
  function OwnedAt(owner: seq<nat>, q: nat, nx: nat, ny: nat, s: Side, t: nat): (r: seq<nat>)
    requires nx > 0 && ny > 0 && |owner| == nx * ny && t < SideLength(nx, ny, s)
    ensures forall k :: 0 <= k < |r| ==> r[k] < |owner| && owner[r[k]] == q
  {
    SideCellIs(nx, ny, s, t);
    var c := SideCell(nx, ny, s, t);
    if owner[c] == q then [c] else []
  }

  /** A rank's cells among the first n of a side. */
  function OwnedOn(owner: seq<nat>, q: nat, nx: nat, ny: nat, s: Side, n: nat): (r: seq<nat>)
    requires nx > 0 && ny > 0 && |owner| == nx * ny && n <= SideLength(nx, ny, s)
    ensures forall k :: 0 <= k < |r| ==> r[k] < |owner| && owner[r[k]] == q
  {
    if n == 0 then [] else OwnedOn(owner, q, nx, ny, s, n - 1) + OwnedAt(owner, q, nx, ny, s, n - 1)
  }

  function WholeSide(owner: seq<nat>, q: nat, nx: nat, ny: nat, s: Side): seq<nat>
    requires nx > 0 && ny > 0 && |owner| == nx * ny
  {
    OwnedOn(owner, q, nx, ny, s, SideLength(nx, ny, s))
  }

  // ----- num_attached -----

  method CountSide(owner: seq<nat>, q: nat, nx: nat, ny: nat, s: Side) returns (count: nat)
    requires nx > 0 && ny > 0 && |owner| == nx * ny
    ensures count == |WholeSide(owner, q, nx, ny, s)|
  {
    count := 0;
    for t := 0 to SideLength(nx, ny, s)
      invariant count == |OwnedOn(owner, q, nx, ny, s, t)|
    {
      SideCellIs(nx, ny, s, t);
      if owner[SideCell(nx, ny, s, t)] == q {
        count := count + 1;
      }
    }
  }

  // ----- the faces -----

  /** boundary_face_to_cell_local, area, centre and normal of one face. */
  datatype Face = Face(cell: int, area: real, x: real, y: real, normalX: real, normalY: real)

  function FaceOn(nx: nat, ny: nat, s: Side, cellLocal: int, x: real, y: real): Face
    requires nx > 0 && ny > 0
  {
    match s
    case Bottom => Face(cellLocal, Width(nx), x, 0.0, 0.0, -1.0)
    case Top => Face(cellLocal, Width(nx), x, 1.0, 0.0, 1.0)
    case Left => Face(cellLocal, Width(ny), 0.0, y, -1.0, 0.0)
    case Right => Face(cellLocal, Width(ny), 1.0, y, 1.0, 0.0)
  }

  ghost predicate Numbers(cells: seq<nat>, globalLocal: seq<int>, xs: seq<real>, ys: seq<real>) {
    |xs| == |ys| && forall k :: 0 <= k < |cells| ==> cells[k] < |globalLocal| && 0 <= globalLocal[cells[k]] < |xs|
  }

  /** The faces of a list of cells of one side. */
  ghost function FacesAlong(nx: nat, ny: nat, s: Side, cells: seq<nat>, globalLocal: seq<int>, xs: seq<real>,
                            ys: seq<real>): (r: seq<Face>)
    requires nx > 0 && ny > 0 && Numbers(cells, globalLocal, xs, ys)
    ensures |r| == |cells|
    ensures forall k :: 0 <= k < |r| ==>
            r[k] == FaceOn(nx, ny, s, globalLocal[cells[k]], xs[globalLocal[cells[k]]], ys[globalLocal[cells[k]]])
  {
    seq(|cells|, k requires 0 <= k < |cells| =>
      FaceOn(nx, ny, s, globalLocal[cells[k]], xs[globalLocal[cells[k]]], ys[globalLocal[cells[k]]]))
  }

  /** Every owned cell has a local number. */
  ghost predicate AllNumbered(owner: seq<nat>, q: nat, globalLocal: seq<int>, xs: seq<real>, ys: seq<real>) {
    && |globalLocal| == |owner| && |xs| == |ys|
    && forall c :: 0 <= c < |owner| && owner[c] == q ==> 0 <= globalLocal[c] < |xs|
  }

  lemma FacesAppend(nx: nat, ny: nat, s: Side, a: seq<nat>, b: seq<nat>, globalLocal: seq<int>, xs: seq<real>,
                    ys: seq<real>)
    requires nx > 0 && ny > 0 && Numbers(a, globalLocal, xs, ys) && Numbers(b, globalLocal, xs, ys)
    ensures Numbers(a + b, globalLocal, xs, ys)
    ensures FacesAlong(nx, ny, s, a + b, globalLocal, xs, ys)
            == FacesAlong(nx, ny, s, a, globalLocal, xs, ys) + FacesAlong(nx, ny, s, b, globalLocal, xs, ys)
  {
    hide FaceOn;
  }

  /** The body of the side loops. */
  method AddFace(owner: seq<nat>, q: nat, nx: nat, ny: nat, s: Side, t: nat, globalLocal: seq<int>, xs: seq<real>,
                 ys: seq<real>, faces: array<Face>, start: nat) returns (counter: nat)
    requires nx > 0 && ny > 0 && |owner| == nx * ny && AllNumbered(owner, q, globalLocal, xs, ys)
    requires t < SideLength(nx, ny, s) && start + |OwnedAt(owner, q, nx, ny, s, t)| <= faces.Length
    modifies faces
    ensures counter == start + |OwnedAt(owner, q, nx, ny, s, t)|
    ensures faces[..counter]
            == old(faces[..start]) + FacesAlong(nx, ny, s, OwnedAt(owner, q, nx, ny, s, t), globalLocal, xs, ys)
  {
    hide FaceOn, SideCell;
    SideCellIs(nx, ny, s, t);
    counter := start;
    var cell := SideCell(nx, ny, s, t);
    if owner[cell] == q {
      var cellLocal := globalLocal[cell];
      faces[counter] := FaceOn(nx, ny, s, cellLocal, xs[cellLocal], ys[cellLocal]);
      counter := counter + 1;
    }
  }

  /** One of the four loops: the side's faces behind the counter, in order. */
  method FillSide(owner: seq<nat>, q: nat, nx: nat, ny: nat, s: Side, globalLocal: seq<int>, xs: seq<real>,
                  ys: seq<real>, faces: array<Face>, start: nat) returns (counter: nat)
    requires nx > 0 && ny > 0 && |owner| == nx * ny && AllNumbered(owner, q, globalLocal, xs, ys)
    requires start + |WholeSide(owner, q, nx, ny, s)| <= faces.Length
    modifies faces
    ensures counter == start + |WholeSide(owner, q, nx, ny, s)|
    ensures faces[..counter]
            == old(faces[..start]) + FacesAlong(nx, ny, s, WholeSide(owner, q, nx, ny, s), globalLocal, xs, ys)
  {
    hide FaceOn, SideCell, OwnedAt, OwnedOn, FacesAlong;
    counter := start;
    OwnedSteps(owner, q, nx, ny, s, 0);
    for t := 0 to SideLength(nx, ny, s)
      invariant counter == start + |OwnedOn(owner, q, nx, ny, s, t)| <= faces.Length
      invariant faces[..counter]
                == old(faces[..start]) + FacesAlong(nx, ny, s, OwnedOn(owner, q, nx, ny, s, t), globalLocal, xs, ys)
    {
      OwnedPrefix(owner, q, nx, ny, s, t + 1, SideLength(nx, ny, s));
      OwnedSteps(owner, q, nx, ny, s, t);
      FacesAppend(nx, ny, s, OwnedOn(owner, q, nx, ny, s, t), OwnedAt(owner, q, nx, ny, s, t), globalLocal, xs, ys);
      counter := AddFace(owner, q, nx, ny, s, t, globalLocal, xs, ys, faces, counter);
    }
  }

  lemma OwnedSteps(owner: seq<nat>, q: nat, nx: nat, ny: nat, s: Side, t: nat)
    requires nx > 0 && ny > 0 && |owner| == nx * ny && t < SideLength(nx, ny, s)
    ensures OwnedOn(owner, q, nx, ny, s, 0) == []
    ensures OwnedOn(owner, q, nx, ny, s, t + 1) == OwnedOn(owner, q, nx, ny, s, t) + OwnedAt(owner, q, nx, ny, s, t)
  {
  }

  lemma {:induction false} OwnedPrefix(owner: seq<nat>, q: nat, nx: nat, ny: nat, s: Side, n: nat, k: nat)
    requires nx > 0 && ny > 0 && |owner| == nx * ny && n <= k <= SideLength(nx, ny, s)
    ensures |OwnedOn(owner, q, nx, ny, s, n)| <= |OwnedOn(owner, q, nx, ny, s, k)|
    ensures OwnedOn(owner, q, nx, ny, s, n) == OwnedOn(owner, q, nx, ny, s, k)[..|OwnedOn(owner, q, nx, ny, s, n)|]
    decreases k
  {
    if n < k {
      OwnedPrefix(owner, q, nx, ny, s, n, k - 1);
    }
  }

  // ----- all four sides, in the order bottom, top, left, right -----

  function SideStart(owner: seq<nat>, q: nat, nx: nat, ny: nat, k: nat): nat
    requires nx > 0 && ny > 0 && |owner| == nx * ny && k <= 4
  {
    if k == 0 then 0 else SideStart(owner, q, nx, ny, k - 1) + |WholeSide(owner, q, nx, ny, SideNumber(k - 1))|
  }

  function SideNumber(k: nat): Side
    requires k < 4
  {
    if k == 0 then Bottom else if k == 1 then Top else if k == 2 then Left else Right
  }

  /** The faces of the first k sides. */
  ghost function FirstSides(owner: seq<nat>, q: nat, nx: nat, ny: nat, globalLocal: seq<int>, xs: seq<real>,
                            ys: seq<real>, k: nat): (r: seq<Face>)
    requires nx > 0 && ny > 0 && |owner| == nx * ny && k <= 4 && AllNumbered(owner, q, globalLocal, xs, ys)
    ensures |r| == SideStart(owner, q, nx, ny, k)
  {
    if k == 0 then []
    else FirstSides(owner, q, nx, ny, globalLocal, xs, ys, k - 1)
         + FacesAlong(nx, ny, SideNumber(k - 1), WholeSide(owner, q, nx, ny, SideNumber(k - 1)), globalLocal, xs, ys)
  }

  lemma {:induction false} SideStartGrows(owner: seq<nat>, q: nat, nx: nat, ny: nat, k: nat, n: nat)
    requires nx > 0 && ny > 0 && |owner| == nx * ny && k <= n <= 4
    ensures SideStart(owner, q, nx, ny, k) <= SideStart(owner, q, nx, ny, n)
    decreases n
  {
    if k < n {
      SideStartGrows(owner, q, nx, ny, k, n - 1);
    }
  }

  /** The boundary part of generate_grid: counting, then one loop per side. */
  method ListBoundary(owner: seq<nat>, q: nat, nx: nat, ny: nat, globalLocal: seq<int>, xs: seq<real>, ys: seq<real>)
    returns (faces: array<Face>, starts: array<nat>)
    requires nx > 0 && ny > 0 && |owner| == nx * ny && AllNumbered(owner, q, globalLocal, xs, ys)
    ensures faces[..] == FirstSides(owner, q, nx, ny, globalLocal, xs, ys, 4)
    ensures starts.Length == 5 && forall k :: 0 <= k <= 4 ==> starts[k] == SideStart(owner, q, nx, ny, k)
  {
    hide OwnedOn, WholeSide, FacesAlong, AllNumbered, SideNumber;
    var numAttached := 0;
    for k := 0 to 4
      invariant numAttached == SideStart(owner, q, nx, ny, k)
    {
      var count := CountSide(owner, q, nx, ny, SideNumber(k));
      numAttached := numAttached + count;
    }
    faces := new Face[numAttached](_ => Face(0, 0.0, 0.0, 0.0, 0.0, 0.0));
    starts := new nat[5];
    var counter := 0;
    starts[0] := counter;
    for k := 0 to 4
      invariant counter == SideStart(owner, q, nx, ny, k) <= faces.Length
      invariant faces[..counter] == FirstSides(owner, q, nx, ny, globalLocal, xs, ys, k)
      invariant forall m :: 0 <= m <= k ==> starts[m] == SideStart(owner, q, nx, ny, m)
    {
      SideStartGrows(owner, q, nx, ny, k + 1, 4);
      counter := FillSide(owner, q, nx, ny, SideNumber(k), globalLocal, xs, ys, faces, counter);
      starts[k + 1] := counter;
    }
  }

  // ----- the boundary part of compute_rdist -----

  /** The normal's x part is over one tenth in size. */
  predicate AcrossXNormal(f: Face) {
    Abs(f.normalX) > 0.1
  }

  function FaceDistance(f: Face, xs: seq<real>, ys: seq<real>): real
    requires 0 <= f.cell < |xs| == |ys|
  {
    if AcrossXNormal(f) then Abs(f.x - xs[f.cell]) else Abs(f.y - ys[f.cell])
  }

  function FaceRdista(f: Face, xs: seq<real>, ys: seq<real>): real
    requires 0 <= f.cell < |xs| == |ys| && FaceDistance(f, xs, ys) != 0.0
  {
    1.0 / FaceDistance(f, xs, ys) * f.area
  }

  ghost predicate FacesApart(faces: seq<Face>, xs: seq<real>, ys: seq<real>) {
    |xs| == |ys| && forall b :: 0 <= b < |faces| ==> 0 <= faces[b].cell < |xs| && FaceDistance(faces[b], xs, ys) != 0.0
  }

  method BoundaryRdist(faces: seq<Face>, xs: seq<real>, ys: seq<real>) returns (rdista: array<real>)
    requires FacesApart(faces, xs, ys)
    ensures rdista.Length == |faces|
    ensures forall b :: 0 <= b < |faces| ==> rdista[b] == FaceRdista(faces[b], xs, ys)
  {
    rdista := new real[|faces|];
    for i := 0 to |faces|
      invariant forall b :: 0 <= b < i ==> rdista[b] == FaceRdista(faces[b], xs, ys)
    {
      var cell := faces[i].cell;
      var distance: real;
      if AcrossXNormal(faces[i]) {
        distance := Abs(faces[i].x - xs[cell]);
      } else {
        distance := Abs(faces[i].y - ys[cell]);
      }
      rdista[i] := 1.0 / distance * faces[i].area;
    }
  }

  ghost predicate AtSide(nx: nat, ny: nat, s: Side, i: int, j: int) {
    InGrid(nx, ny, i, j) && match s
      case Left => i == 0
      case Right => i == nx - 1
      case Bottom => j == 0
      case Top => j == ny - 1
  }

  lemma FaceMeasures(nx: nat, ny: nat, s: Side, f: Face, i: int, j: int, xs: seq<real>, ys: seq<real>)
    requires nx > 0 && ny > 0 && AtSide(nx, ny, s, i, j) && 0 <= f.cell < |xs| == |ys|
    requires xs[f.cell] == Centre(nx, i) && ys[f.cell] == Centre(ny, j)
    requires f == FaceOn(nx, ny, s, f.cell, xs[f.cell], ys[f.cell])
    ensures s.Left? || s.Right? ==> FaceDistance(f, xs, ys) == Width(nx) * 0.5 && f.area == Width(ny)
    ensures s.Bottom? || s.Top? ==> FaceDistance(f, xs, ys) == Width(ny) * 0.5 && f.area == Width(nx)
  {
    HalfCell(nx);
    HalfCell(ny);
    hide Centre, Width;
  }

  /** A boundary face is half a cell away from its cell's centre. */
  lemma BoundaryFaceIs(nx: nat, ny: nat, s: Side, f: Face, i: int, j: int, xs: seq<real>, ys: seq<real>)
    requires nx > 0 && ny > 0 && AtSide(nx, ny, s, i, j) && 0 <= f.cell < |xs| == |ys|
    requires xs[f.cell] == Centre(nx, i) && ys[f.cell] == Centre(ny, j)
    requires f == FaceOn(nx, ny, s, f.cell, xs[f.cell], ys[f.cell])
    ensures FaceDistance(f, xs, ys) != 0.0
    ensures FaceRdista(f, xs, ys)
            == 2.0 * if s.Left? || s.Right? then nx as real / ny as real else ny as real / nx as real
  {
    hide FaceDistance, FaceOn, Centre, Width, AtSide;
    FaceMeasures(nx, ny, s, f, i, j, xs, ys);
    WidthTimes(nx);
    WidthTimes(ny);
    if s.Left? || s.Right? {
      HalfDistance(Width(nx), Width(ny), nx as real, ny as real);
    } else {
      HalfDistance(Width(ny), Width(nx), ny as real, nx as real);
    }
  }

  lemma HalfCell(n: nat)
    requires n > 0
    ensures Centre(n, 0) == Width(n) * 0.5 && 1.0 - Centre(n, n - 1) == Width(n) * 0.5 && Width(n) > 0.0
  {
    WidthTimes(n);
    var w := Width(n);
    assert (n - 1) as real * w == n as real * w - w;
    assert n as real * w == w * n as real;
  }

  lemma HalfDistance(d: real, a: real, x: real, y: real)
    requires d > 0.0 && a > 0.0 && x > 0.0 && y > 0.0 && d * x == 1.0 && a * y == 1.0
    ensures 1.0 / (d * 0.5) * a == 2.0 * (x / y)
  {
    Quotient(1.0, d * 0.5);
    Quotient(x, y);
    assert (1.0 / (d * 0.5) - 2.0 * x) * d == 0.0;
    assert (x / y - x * a) * y == 0.0;
  }

  // ----- set_boundary_conditions -----

  /** The value of the side a face index lies in. */
  function SideValueAt(starts: seq<nat>, left: real, right: real, bottom: real, top: real, i: nat): real
    requires |starts| == 5
  {
    if i < starts[1] then bottom else if i < starts[2] then top else if i < starts[3] then left else right
  }

  /** Q_boundary_local: every face of a side has the side's value. */
  method SetBoundaryConditions(starts: seq<nat>, numAttached: nat, left: real, right: real, bottom: real, top: real)
    returns (qb: array<real>)
    requires |starts| == 5 && starts[0] == 0 && starts[4] == numAttached
    requires starts[0] <= starts[1] <= starts[2] <= starts[3] <= starts[4]
    ensures qb.Length == numAttached
    ensures forall i :: 0 <= i < numAttached ==> qb[i] == SideValueAt(starts, left, right, bottom, top, i)
  {
    qb := new real[numAttached];
    FillRange(qb, starts[2], starts[3], left);
    FillRange(qb, starts[3], starts[4], right);
    FillRange(qb, starts[0], starts[1], bottom);
    FillRange(qb, starts[1], starts[2], top);
  }

  method FillRange(qb: array<real>, from: nat, to: nat, value: real)
    requires from <= to <= qb.Length
    modifies qb
    ensures forall i :: 0 <= i < qb.Length ==> qb[i] == if from <= i < to then value else old(qb[i])
  {
    for i := from to to
      invariant forall k :: 0 <= k < qb.Length ==> qb[k] == if from <= k < i then value else old(qb[k])
    {
      qb[i] := value;
    }
  }
}
