/** The implicit matrix of the whole grid is positive definite: each face contributes the square
    of the difference across it. So it maps nothing but zero to zero, and no vector to an
    orthogonal one. */
module GridPositive {
  import opened Bicgstab
  import opened Contraction
  import opened GridLayout
  import opened GridOperator
  import opened GridTopology
  import opened RealFacts
  import opened RealSums
  import opened Stencil
  import opened Vectors

  // ----- sums over pairs -----

  lemma {:induction false} PairsTo(u: seq<real>, v: seq<real>, k: nat, m: nat)
    requires |u| == |v| && m + k <= |u| && (forall c :: 0 <= c < k ==> v[c] == 0.0)
    requires forall c :: 0 <= c < |u| - k ==> u[c] + v[c + k] >= 0.0
    ensures SumTo(u, m) + SumTo(v, m + k) >= 0.0
  {
    if m > 0 {
      PairsTo(u, v, k, m - 1);
      assert u[m - 1] + v[m - 1 + k] >= 0.0;
    } else {
      SumPrefix(v, Zeros(|v|), k);
      SumZero(Zeros(|v|), k);
    }
  }

  /** Entries k apart that outweigh each other in pairs. */
  lemma PairsSum(u: seq<real>, v: seq<real>, k: nat)
    requires |u| == |v| && k <= |u| && (forall c :: 0 <= c < k ==> v[c] == 0.0)
    requires forall c :: |u| - k <= c < |u| ==> u[c] == 0.0
    requires forall c :: 0 <= c < |u| - k ==> u[c] + v[c + k] >= 0.0
    ensures SumOf(u) + SumOf(v) >= 0.0
  {
    PairsTo(u, v, k, |u| - k);
    ZeroTail(u, |u| - k, |u|);
  }

  // ----- what one cell contributes -----

  /** The cell's value times what a side with a neighbour adds to its row. */
  ghost function Inner(p: Problem, f: seq<seq<real>>, i: int, j: int, s: Side): real
    requires IsField(p, f) && IsCell(p, i, j)
  {
    if HasNeighbour(p, i, j, s) then Weight(p, s) * (f[j][i] - Across(p, f, i, j, s)) * f[j][i] else 0.0
  }

  /** And a side on the boundary. */
  ghost function Outer(p: Problem, f: seq<seq<real>>, i: int, j: int, s: Side): real
    requires IsField(p, f) && IsCell(p, i, j)
  {
    if HasNeighbour(p, i, j, s) then 0.0 else 2.0 * Weight(p, s) * (f[j][i] * f[j][i])
  }

  lemma SideContributes(p: Problem, f: seq<seq<real>>, i: int, j: int, s: Side)
    requires IsField(p, f) && IsCell(p, i, j)
    ensures (Conductance(p, i, j, s) * f[j][i] - Towards(p, f, i, j, s)) * f[j][i]
            == Inner(p, f, i, j, s) + Outer(p, f, i, j, s)
    ensures Outer(p, f, i, j, s) >= 0.0
  {
    SquareOf(f[j][i], f[j][i] * f[j][i]);
    NonNegative(2.0 * Weight(p, s), f[j][i] * f[j][i]);
  }

  lemma RowAlgebra(t: real, a: real, b: real, c: real, d: real, u: real, v: real, y: real, z: real, x: real)
    ensures ((t + (a + b + c + d)) * x - (u + v + y + z)) * x
            == t * (x * x) + ((a * x - u) * x + (b * x - v) * x + (c * x - y) * x + (d * x - z) * x)
  {
    Distribute(x, a, b, c, d);
    var square := (a + b + c + d) * x;
    assert (t + (a + b + c + d)) * x == t * x + square;
    Distribute(x, a * x - u, b * x - v, c * x - y, d * x - z);
    assert (t * x) * x == t * (x * x);
  }

  ghost function Outers(p: Problem, f: seq<seq<real>>, i: int, j: int): real
    requires IsField(p, f) && IsCell(p, i, j)
  {
    Outer(p, f, i, j, Left) + Outer(p, f, i, j, Right) + Outer(p, f, i, j, Bottom) + Outer(p, f, i, j, Top)
  }

  lemma CellContributes(p: Problem, f: seq<seq<real>>, i: int, j: int)
    requires IsField(p, f) && IsCell(p, i, j)
    ensures RowOf(p, f, i, j) * f[j][i]
            == ImplicitTimeTerm(p) * (f[j][i] * f[j][i]) + Outers(p, f, i, j)
               + ((Inner(p, f, i, j, Right) + Inner(p, f, i, j, Left))
                  + (Inner(p, f, i, j, Top) + Inner(p, f, i, j, Bottom)))
    ensures Outers(p, f, i, j) >= 0.0
  {
    hide Conductance, Towards, Inner, Outer, ImplicitTimeTerm;
    SideContributes(p, f, i, j, Left);
    SideContributes(p, f, i, j, Right);
    SideContributes(p, f, i, j, Bottom);
    SideContributes(p, f, i, j, Top);
    RowAlgebra(ImplicitTimeTerm(p), Conductance(p, i, j, Left), Conductance(p, i, j, Right),
               Conductance(p, i, j, Bottom), Conductance(p, i, j, Top), Towards(p, f, i, j, Left),
               Towards(p, f, i, j, Right), Towards(p, f, i, j, Bottom), Towards(p, f, i, j, Top), f[j][i]);
  }

  // ----- faces, from both sides -----

  lemma FacePair(w: real, x: real, y: real)
    requires w > 0.0
    ensures w * (x - y) * x + w * (y - x) * y >= 0.0
  {
    var d := x - y;
    SquareOf(d, d * d);
    NonNegative(w, d * d);
    assert w * (x - y) * x + w * (y - x) * y == w * (d * d);
  }

  /** The face between a cell and its right neighbour, from both. */
  lemma FaceAcrossX(p: Problem, f: seq<seq<real>>, i: int, j: int)
    requires IsField(p, f) && IsCell(p, i, j) && i < p.nx - 1
    ensures IsCell(p, i + 1, j) && Inner(p, f, i, j, Right) + Inner(p, f, i + 1, j, Left) >= 0.0
  {
    FacePair(p.wx, f[j][i], f[j][i + 1]);
  }

  lemma FaceAcrossY(p: Problem, f: seq<seq<real>>, i: int, j: int)
    requires IsField(p, f) && IsCell(p, i, j) && j < p.ny - 1
    ensures IsCell(p, i, j + 1) && Inner(p, f, i, j, Top) + Inner(p, f, i, j + 1, Bottom) >= 0.0
  {
    FacePair(p.wy, f[j][i], f[j + 1][i]);
  }

  // ----- by cell number -----

  ghost function InnerBy(p: Problem, x: seq<real>, s: Side): (r: seq<real>)
    requires p.Valid() && |x| == p.nx * p.ny
    ensures |r| == |x|
  {
    seq(|x|, c requires 0 <= c < |x| => CellOfNumber(p.nx, p.ny, c); Inner(p, FieldOf(p, x), c % p.nx, c / p.nx, s))
  }

  ghost function OuterBy(p: Problem, x: seq<real>): (r: seq<real>)
    requires p.Valid() && |x| == p.nx * p.ny
    ensures |r| == |x|
  {
    seq(|x|, c requires 0 <= c < |x| => CellOfNumber(p.nx, p.ny, c); Outers(p, FieldOf(p, x), c % p.nx, c / p.nx))
  }

  lemma InnerAt(p: Problem, x: seq<real>, i: int, j: int, s: Side)
    requires p.Valid() && |x| == p.nx * p.ny && IsCell(p, i, j)
    ensures 0 <= Cell(p.nx, i, j) < |x| && InnerBy(p, x, s)[Cell(p.nx, i, j)] == Inner(p, FieldOf(p, x), i, j, s)
  {
    NumberParts(p.nx, p.ny, i, j);
  }

  lemma PairX(p: Problem, x: seq<real>, c: nat)
    requires p.Valid() && |x| == p.nx * p.ny && c < |x|
    ensures c == 0 ==> InnerBy(p, x, Left)[c] == 0.0
    ensures c == |x| - 1 ==> InnerBy(p, x, Right)[c] == 0.0
    ensures c < |x| - 1 ==> InnerBy(p, x, Right)[c] + InnerBy(p, x, Left)[c + 1] >= 0.0
  {
    hide InnerBy, FieldOf;
    var i, j := c % p.nx, c / p.nx;
    CellOfNumber(p.nx, p.ny, c);
    InnerAt(p, x, i, j, Left);
    InnerAt(p, x, i, j, Right);
    if i < p.nx - 1 {
      FaceAcrossX(p, FieldOf(p, x), i, j);
      InnerAt(p, x, i + 1, j, Left);
    } else if j < p.ny - 1 {
      NextRow(p.nx, j);
      InnerAt(p, x, 0, j + 1, Left);
    }
    CellInRange(p.nx, p.ny, 0, j);
    LastCell(p.nx, p.ny, i, j);
  }

  lemma NextRow(nx: nat, j: nat)
    ensures (j + 1) * nx == j * nx + nx
  {
  }

  lemma LastCell(nx: nat, ny: nat, i: int, j: int)
    requires InGrid(nx, ny, i, j)
    ensures Cell(nx, i, j) == nx * ny - 1 ==> i == nx - 1
    ensures Cell(nx, i, j) < nx <==> j == 0
    ensures Cell(nx, i, j) < nx * ny - nx <==> j < ny - 1
  {
    if i < nx - 1 {
      CellInRange(nx, ny, i + 1, j);
    }
    if j > 0 {
      TimesMonotone(1, j, nx);
    }
    if j < ny - 1 {
      CellInRange(nx, ny, i, j + 1);
      NextRow(nx, j);
    } else {
      NextRow(nx, j);
    }
  }

  lemma PairY(p: Problem, x: seq<real>, c: nat)
    requires p.Valid() && |x| == p.nx * p.ny && c < |x|
    ensures c < p.nx ==> InnerBy(p, x, Bottom)[c] == 0.0
    ensures c >= |x| - p.nx ==> InnerBy(p, x, Top)[c] == 0.0
    ensures c < |x| - p.nx ==> InnerBy(p, x, Top)[c] + InnerBy(p, x, Bottom)[c + p.nx] >= 0.0
  {
    hide InnerBy, FieldOf;
    var i, j := c % p.nx, c / p.nx;
    CellOfNumber(p.nx, p.ny, c);
    InnerAt(p, x, i, j, Bottom);
    InnerAt(p, x, i, j, Top);
    if j < p.ny - 1 {
      NextRow(p.nx, j);
      FaceAcrossY(p, FieldOf(p, x), i, j);
      InnerAt(p, x, i, j + 1, Bottom);
    }
    LastCell(p.nx, p.ny, i, j);
  }

  // ----- all cells -----

  lemma EntryContributes(p: Problem, x: seq<real>, c: nat)
    requires p.Valid() && |x| == p.nx * p.ny && c < |x|
    ensures |Times(p)(x)| == |x| && OuterBy(p, x)[c] >= 0.0
    ensures Products(Times(p)(x), x)[c]
            == ImplicitTimeTerm(p) * Products(x, x)[c] + OuterBy(p, x)[c]
               + ((InnerBy(p, x, Right)[c] + InnerBy(p, x, Left)[c])
                  + (InnerBy(p, x, Top)[c] + InnerBy(p, x, Bottom)[c]))
  {
    hide InnerBy, FieldOf, Times, RowOf, Outers, Inner, ImplicitTimeTerm;
    var i, j := c % p.nx, c / p.nx;
    CellOfNumber(p.nx, p.ny, c);
    TimesAt(p, x, c);
    FieldOfAt(p, x, i, j);
    CellContributes(p, FieldOf(p, x), i, j);
    InnerAt(p, x, i, j, Right);
    InnerAt(p, x, i, j, Left);
    InnerAt(p, x, i, j, Top);
    InnerAt(p, x, i, j, Bottom);
  }

  lemma FacesNotNegative(p: Problem, x: seq<real>)
    requires p.Valid() && |x| == p.nx * p.ny
    ensures SumOf(InnerBy(p, x, Right)) + SumOf(InnerBy(p, x, Left)) >= 0.0
    ensures SumOf(InnerBy(p, x, Top)) + SumOf(InnerBy(p, x, Bottom)) >= 0.0
  {
    hide InnerBy;
    CellInRange(p.nx, p.ny, 0, p.ny - 1);
    TimesMonotone(1, p.ny, p.nx);
    forall c | 0 <= c < |x|
      ensures c == 0 ==> InnerBy(p, x, Left)[c] == 0.0
      ensures c == |x| - 1 ==> InnerBy(p, x, Right)[c] == 0.0
      ensures c < |x| - 1 ==> InnerBy(p, x, Right)[c] + InnerBy(p, x, Left)[c + 1] >= 0.0
    {
      PairX(p, x, c);
    }
    PairsSum(InnerBy(p, x, Right), InnerBy(p, x, Left), 1);
    forall c | 0 <= c < |x|
      ensures c < p.nx ==> InnerBy(p, x, Bottom)[c] == 0.0
      ensures c >= |x| - p.nx ==> InnerBy(p, x, Top)[c] == 0.0
      ensures c < |x| - p.nx ==> InnerBy(p, x, Top)[c] + InnerBy(p, x, Bottom)[c + p.nx] >= 0.0
    {
      PairY(p, x, c);
    }
    PairsSum(InnerBy(p, x, Top), InnerBy(p, x, Bottom), p.nx);
  }

  lemma PartsSum(base: seq<real>, outer: seq<real>, right: seq<real>, left: seq<real>, top: seq<real>,
                 bottom: seq<real>, all: seq<real>)
    requires |base| == |outer| == |right| == |left| == |top| == |bottom| == |all|
    requires all == Plus(Plus(base, outer), Plus(Plus(right, left), Plus(top, bottom)))
    requires forall c :: 0 <= c < |outer| ==> outer[c] >= 0.0
    requires SumOf(right) + SumOf(left) >= 0.0 && SumOf(top) + SumOf(bottom) >= 0.0
    ensures SumOf(all) >= SumOf(base)
  {
    PlusSum(Plus(base, outer), Plus(Plus(right, left), Plus(top, bottom)));
    PlusSum(base, outer);
    PlusSum(Plus(right, left), Plus(top, bottom));
    PlusSum(right, left);
    PlusSum(top, bottom);
    SumNotNegative(outer, |outer|);
  }

  lemma ProductsParts(p: Problem, x: seq<real>)
    requires p.Valid() && |x| == p.nx * p.ny
    ensures |Times(p)(x)| == |x| && forall c :: 0 <= c < |x| ==> OuterBy(p, x)[c] >= 0.0
    ensures Products(Times(p)(x), x)
            == Plus(Plus(ScaledBy(ImplicitTimeTerm(p), Products(x, x)), OuterBy(p, x)),
                    Plus(Plus(InnerBy(p, x, Right), InnerBy(p, x, Left)),
                         Plus(InnerBy(p, x, Top), InnerBy(p, x, Bottom))))
  {
    hide InnerBy, OuterBy, Times, ImplicitTimeTerm;
    TimesLength(p, x);
    var base, outer := ScaledBy(ImplicitTimeTerm(p), Products(x, x)), OuterBy(p, x);
    var right, left, top, bottom :=
      InnerBy(p, x, Right), InnerBy(p, x, Left), InnerBy(p, x, Top), InnerBy(p, x, Bottom);
    var parts := Plus(Plus(base, outer), Plus(Plus(right, left), Plus(top, bottom)));
    forall c | 0 <= c < |x|
      ensures outer[c] >= 0.0 && Products(Times(p)(x), x)[c] == parts[c]
    {
      EntryContributes(p, x, c);
      assert base[c] == ImplicitTimeTerm(p) * Products(x, x)[c];
      assert parts[c] == base[c] + outer[c] + ((right[c] + left[c]) + (top[c] + bottom[c]));
    }
  }

  /** A x . x is at least the time term times x . x. */
  lemma MatrixPositive(p: Problem, x: seq<real>)
    requires p.Valid() && |x| == p.nx * p.ny
    ensures |Times(p)(x)| == |x| && Dot(Times(p)(x), x) >= ImplicitTimeTerm(p) * Dot(x, x)
  {
    hide InnerBy, OuterBy, Times, ImplicitTimeTerm, Plus;
    var base := ScaledBy(ImplicitTimeTerm(p), Products(x, x));
    ProductsParts(p, x);
    FacesNotNegative(p, x);
    PartsSum(base, OuterBy(p, x), InnerBy(p, x, Right), InnerBy(p, x, Left), InnerBy(p, x, Top), InnerBy(p, x, Bottom),
             Products(Times(p)(x), x));
    SumScaled(base, ImplicitTimeTerm(p), Products(x, x));
  }

  lemma TimeTermPositive(p: Problem)
    requires p.Valid()
    ensures ImplicitTimeTerm(p) > 0.0
  {
    Quotient(p.volume, p.dt * 10.0);
  }

  lemma ProductPositive(p: Problem, x: seq<real>)
    requires p.Valid() && |x| == p.nx * p.ny
    ensures |Times(p)(x)| == |x| && Dot(Times(p)(x), x) >= 0.0
    ensures Dot(Times(p)(x), x) == 0.0 <==> x == Zeros(|x|)
  {
    hide Dot, Times, ImplicitTimeTerm;
    MatrixPositive(p, x);
    TimeTermPositive(p);
    SquareNotNegative(x);
    NormZero(x);
    NonNegative(ImplicitTimeTerm(p), Dot(x, x));
    if x == Zeros(|x|) {
      ZeroProduct(Times(p)(x), x);
    } else {
      PositiveProduct(ImplicitTimeTerm(p), Dot(x, x));
    }
  }

  lemma TimesInjective(p: Problem)
    requires p.Valid()
    ensures Linear(Times(p), p.nx * p.ny) && Injective(Times(p), p.nx * p.ny)
  {
    hide Dot, Times, Linear;
    TimesIsLinear(p);
    var n := p.nx * p.ny;
    forall x: seq<real> | |x| == n && Apply(Times(p), x) == Zeros(n)
      ensures x == Zeros(n)
    {
      ProductPositive(p, x);
      ZeroProduct(Times(p)(x), x);
    }
  }
}
