/** Areas, normals and area over distance of the inner faces of a rank, face by face. */
module FaceGeometry {
  import opened RealSums
  import opened GridGeometry

  /** Entry j lies in row i. */
  ghost predicate RowEntry(ends: seq<nat>, i: int, j: int) {
    0 <= i && i + 1 < |ends| && ends[i] <= j < ends[i + 1]
  }

  ghost predicate RowsFit(ends: seq<nat>, nbrs: seq<int>, xs: seq<real>, ys: seq<real>) {
    && |ends| > 0 && ends[0] == 0 && |ends| - 1 <= |xs| == |ys|
    && (forall i, k :: 0 <= i <= k < |ends| ==> ends[i] <= ends[k]) && ends[|ends| - 1] <= |nbrs|
    && (forall j :: 0 <= j < ends[|ends| - 1] ==> 0 <= nbrs[j] < |xs|)
  }

  /** The difference of the centres across entry j of row i. */
  function Delta(xs: seq<real>, nbrs: seq<int>, i: nat, j: nat): real
    requires i < |xs| && j < |nbrs| && 0 <= nbrs[j] < |xs|
  {
    xs[nbrs[j]] - xs[i]
  }

  ghost predicate NormalAt(nbrs: seq<int>, xs: seq<real>, ys: seq<real>, dx: real, dy: real,
                           area: seq<real>, normalX: seq<real>, normalY: seq<real>, i: int, j: int) {
    && |area| == |normalX| == |normalY| == |nbrs| && 0 <= i < |xs| == |ys| && 0 <= j < |nbrs| && 0 <= nbrs[j] < |xs|
    && normalX[j] == Delta(xs, nbrs, i, j) && normalY[j] == Delta(ys, nbrs, i, j)
    && area[j] == FaceArea(dx, dy, Delta(xs, nbrs, i, j), Delta(ys, nbrs, i, j))
  }

  ghost predicate NormalsBefore(ends: seq<nat>, nbrs: seq<int>, xs: seq<real>, ys: seq<real>, dx: real, dy: real,
                                area: seq<real>, normalX: seq<real>, normalY: seq<real>, n: int) {
    forall i, j :: RowEntry(ends, i, j) && j < n ==> NormalAt(nbrs, xs, ys, dx, dy, area, normalX, normalY, i, j)
  }

  lemma EntryInside(ends: seq<nat>, nbrs: seq<int>, xs: seq<real>, ys: seq<real>, i: int, j: int)
    requires RowsFit(ends, nbrs, xs, ys) && RowEntry(ends, i, j)
    ensures 0 <= i < |xs| && 0 <= j < ends[|ends| - 1] <= |nbrs| && 0 <= nbrs[j] < |xs|
  {
  }

  /** An entry lies in one row only. */
  lemma OneRow(ends: seq<nat>, nbrs: seq<int>, xs: seq<real>, ys: seq<real>, i: int, k: int, j: int)
    requires RowsFit(ends, nbrs, xs, ys) && RowEntry(ends, i, j) && RowEntry(ends, k, j)
    ensures i == k
  {
  }

  /** Area and normal of every inner face of the owned cells. */
  method FacesOf(ends: seq<nat>, nbrs: seq<int>, xs: seq<real>, ys: seq<real>, dx: real, dy: real)
    returns (area: array<real>, normalX: array<real>, normalY: array<real>)
    requires RowsFit(ends, nbrs, xs, ys)
    ensures fresh(area) && fresh(normalX) && fresh(normalY) && area.Length == normalX.Length == normalY.Length == |nbrs|
    ensures NormalsBefore(ends, nbrs, xs, ys, dx, dy, area[..], normalX[..], normalY[..], ends[|ends| - 1])
  {
    hide FaceArea;
    area := new real[|nbrs|];
    normalX := new real[|nbrs|];
    normalY := new real[|nbrs|];
    for il := 0 to |ends| - 1
      invariant NormalsBefore(ends, nbrs, xs, ys, dx, dy, area[..], normalX[..], normalY[..], ends[il])
    {
      for jl := ends[il] to ends[il + 1]
        invariant NormalsBefore(ends, nbrs, xs, ys, dx, dy, area[..], normalX[..], normalY[..], jl)
      {
        EntryInside(ends, nbrs, xs, ys, il, jl);
        ghost var a, x, y := area[..], normalX[..], normalY[..];
        var deltaX := xs[nbrs[jl]] - xs[il];
        var deltaY := ys[nbrs[jl]] - ys[il];
        normalX[jl] := deltaX;
        normalY[jl] := deltaY;
        area[jl] := FaceArea(dx, dy, deltaX, deltaY);
        NormalAdded(ends, nbrs, xs, ys, dx, dy, a, x, y, il, jl);
        assert area[..] == a[jl := FaceArea(dx, dy, deltaX, deltaY)];
        assert normalX[..] == x[jl := deltaX] && normalY[..] == y[jl := deltaY];
      }
    }
  }

  lemma NormalAdded(ends: seq<nat>, nbrs: seq<int>, xs: seq<real>, ys: seq<real>, dx: real, dy: real,
                    area: seq<real>, normalX: seq<real>, normalY: seq<real>, il: nat, jl: nat)
    requires RowsFit(ends, nbrs, xs, ys) && RowEntry(ends, il, jl)
    requires |area| == |normalX| == |normalY| == |nbrs|
    requires NormalsBefore(ends, nbrs, xs, ys, dx, dy, area, normalX, normalY, jl)
    ensures jl < |nbrs| && il < |xs| == |ys| && 0 <= nbrs[jl] < |xs|
    ensures NormalsBefore(ends, nbrs, xs, ys, dx, dy,
                          area[jl := FaceArea(dx, dy, Delta(xs, nbrs, il, jl), Delta(ys, nbrs, il, jl))],
                          normalX[jl := Delta(xs, nbrs, il, jl)], normalY[jl := Delta(ys, nbrs, il, jl)], jl + 1)
  {
    hide FaceArea;
    EntryInside(ends, nbrs, xs, ys, il, jl);
    forall i, j | RowEntry(ends, i, j) && j < jl + 1
      ensures j == jl ==> i == il
      ensures j < jl ==> NormalAt(nbrs, xs, ys, dx, dy, area, normalX, normalY, i, j)
    {
      if j == jl {
        OneRow(ends, nbrs, xs, ys, i, il, j);
      }
    }
  }

  // ----- compute_rdist -----

  /** rdista of entry j of row i. */
  ghost predicate RdistaAt(nbrs: seq<int>, xs: seq<real>, ys: seq<real>, dx: real, dy: real, rdista: seq<real>, i: int,
                           j: int) {
    && |rdista| == |nbrs| && 0 <= i < |xs| == |ys| && 0 <= j < |nbrs| && 0 <= nbrs[j] < |xs|
    && Distance(Delta(xs, nbrs, i, j), Delta(ys, nbrs, i, j)) != 0.0
    && rdista[j] == 1.0 / Distance(Delta(xs, nbrs, i, j), Delta(ys, nbrs, i, j))
                    * FaceArea(dx, dy, Delta(xs, nbrs, i, j), Delta(ys, nbrs, i, j))
  }

  ghost predicate RdistaBefore(ends: seq<nat>, nbrs: seq<int>, xs: seq<real>, ys: seq<real>, dx: real, dy: real,
                               rdista: seq<real>, n: int) {
    forall i, j :: RowEntry(ends, i, j) && j < n ==> RdistaAt(nbrs, xs, ys, dx, dy, rdista, i, j)
  }

  /** Neighbouring centres are apart. */
  ghost predicate CentresApart(ends: seq<nat>, nbrs: seq<int>, xs: seq<real>, ys: seq<real>) {
    forall i, j :: RowEntry(ends, i, j) && 0 <= i < |xs| == |ys| && 0 <= j < |nbrs| && 0 <= nbrs[j] < |xs| ==>
      Distance(Delta(xs, nbrs, i, j), Delta(ys, nbrs, i, j)) != 0.0
  }

  method RdistaOf(nbrs: seq<int>, xs: seq<real>, ys: seq<real>, area: real, normalX: real, normalY: real, il: nat,
                  jl: nat)
    returns (value: real)
    requires il < |xs| == |ys| && jl < |nbrs| && 0 <= nbrs[jl] < |xs|
    requires normalX == Delta(xs, nbrs, il, jl) && normalY == Delta(ys, nbrs, il, jl)
    requires Distance(normalX, normalY) != 0.0
    ensures value == 1.0 / Distance(normalX, normalY) * area
  {
    var right := nbrs[jl];
    var distance: real;
    if XFace(normalX, normalY) {
      distance := Abs(xs[right] - xs[il]);
    } else {
      distance := Abs(ys[right] - ys[il]);
    }
    value := 1.0 / distance * area;
  }

  method ComputeRdist(ends: seq<nat>, nbrs: seq<int>, xs: seq<real>, ys: seq<real>, ghost dx: real, ghost dy: real,
                      area: seq<real>, normalX: seq<real>, normalY: seq<real>) returns (rdista: array<real>)
    requires RowsFit(ends, nbrs, xs, ys) && CentresApart(ends, nbrs, xs, ys)
    requires |area| == |normalX| == |normalY| == |nbrs|
    requires NormalsBefore(ends, nbrs, xs, ys, dx, dy, area, normalX, normalY, ends[|ends| - 1])
    ensures fresh(rdista) && rdista.Length == |nbrs|
    ensures RdistaBefore(ends, nbrs, xs, ys, dx, dy, rdista[..], ends[|ends| - 1])
  {
    hide FaceArea, Distance;
    rdista := new real[|nbrs|];
    for il := 0 to |ends| - 1
      invariant RdistaBefore(ends, nbrs, xs, ys, dx, dy, rdista[..], ends[il])
    {
      for jl := ends[il] to ends[il + 1]
        invariant RdistaBefore(ends, nbrs, xs, ys, dx, dy, rdista[..], jl)
      {
        EntryInside(ends, nbrs, xs, ys, il, jl);
        assert NormalAt(nbrs, xs, ys, dx, dy, area, normalX, normalY, il, jl);
        ghost var before := rdista[..];
        var value := RdistaOf(nbrs, xs, ys, area[jl], normalX[jl], normalY[jl], il, jl);
        rdista[jl] := value;
        RdistaAdded(ends, nbrs, xs, ys, dx, dy, before, il, jl, value);
        assert rdista[..] == before[jl := value];
      }
    }
  }

  lemma RdistaAdded(ends: seq<nat>, nbrs: seq<int>, xs: seq<real>, ys: seq<real>, dx: real, dy: real,
                    rdista: seq<real>, il: nat, jl: nat, value: real)
    requires RowsFit(ends, nbrs, xs, ys) && RowEntry(ends, il, jl) && |rdista| == |nbrs|
    requires RdistaBefore(ends, nbrs, xs, ys, dx, dy, rdista, jl)
    requires il < |xs| == |ys| && jl < |nbrs| && 0 <= nbrs[jl] < |xs|
    requires Distance(Delta(xs, nbrs, il, jl), Delta(ys, nbrs, il, jl)) != 0.0
    requires value == 1.0 / Distance(Delta(xs, nbrs, il, jl), Delta(ys, nbrs, il, jl))
                      * FaceArea(dx, dy, Delta(xs, nbrs, il, jl), Delta(ys, nbrs, il, jl))
    ensures RdistaBefore(ends, nbrs, xs, ys, dx, dy, rdista[jl := value], jl + 1)
  {
    hide FaceArea, Distance;
    forall i, j | RowEntry(ends, i, j) && j < jl + 1
      ensures j == jl ==> i == il
      ensures j < jl ==> RdistaAt(nbrs, xs, ys, dx, dy, rdista, i, j)
    {
      if j == jl {
        OneRow(ends, nbrs, xs, ys, i, il, j);
      }
    }
  }
}
