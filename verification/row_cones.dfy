/** One row of cells under the spreading part of an explicit step, h r[i] + w (r[i-1] + r[i+1]),
    with the boundary value halfway between a cell and its mirror image outside. The weight of
    a boundary cell itself, h - w, may be negative, so signs alone are not kept; shapes of
    rows are. */
module RowCones {
  import opened RealFacts
  import opened Vectors

  /** The row continued by one mirror image at either end. */
  function At(r: seq<real>, left: real, right: real, i: int): real
    requires |r| > 0 && -1 <= i <= |r|
  {
    if i < 0 then 2.0 * left - r[0] else if i == |r| then 2.0 * right - r[|r| - 1] else r[i]
  }

  function Mix(h: real, w: real, x: real, u: real): real {
    h * x + w * u
  }

  lemma MixOrder(h: real, w: real, x: real, u: real, y: real, v: real)
    requires h >= 0.0 && w >= 0.0 && x >= y && u >= v
    ensures Mix(h, w, x, u) >= Mix(h, w, y, v)
  {
    Scale(h, y, x);
    Scale(w, v, u);
  }

  lemma MixAdds(h: real, w: real, x: real, u: real, y: real, v: real)
    ensures Mix(h, w, x, u) + Mix(h, w, y, v) == Mix(h, w, x + y, u + v)
    ensures Mix(h, w, x, u) - Mix(h, w, y, v) == Mix(h, w, x - y, u - v)
    ensures Mix(h, w, 0.0, 0.0) == 0.0
  {
  }

  function Spread(h: real, w: real, r: seq<real>, left: real, right: real): (s: seq<real>)
    requires |r| > 0
    ensures |s| == |r|
    ensures forall i :: 0 <= i < |r| ==> s[i] == Mix(h, w, r[i], At(r, left, right, i - 1) + At(r, left, right, i + 1))
  {
    seq(|r|, i requires 0 <= i < |r| => Mix(h, w, r[i], At(r, left, right, i - 1) + At(r, left, right, i + 1)))
  }

  // ----- falling rows: the response to the left side -----

  /** From at most top down to at least zero. */
  ghost predicate Falling(r: seq<real>, top: real) {
    && |r| > 0
    && (forall i :: 0 <= i < |r| ==> 0.0 <= r[i] <= top)
    && (forall i, k :: 0 <= i <= k < |r| ==> r[i] >= r[k])
  }

  lemma FallingSum(a: seq<real>, topA: real, b: seq<real>, topB: real)
    requires Falling(a, topA) && Falling(b, topB) && |a| == |b|
    ensures Falling(Plus(a, b), topA + topB)
  {
  }

  lemma FallingZero(n: nat, top: real)
    requires n > 0 && top >= 0.0
    ensures Falling(Zeros(n), top)
  {
  }

  lemma ScaledOrder(c: real, a: seq<real>, i: int, k: int)
    requires c >= 0.0 && 0 <= i < |a| && 0 <= k < |a| && a[i] >= a[k]
    ensures ScaledBy(c, a)[i] >= ScaledBy(c, a)[k]
  {
    Scale(c, a[k], a[i]);
  }

  lemma ScaledRange(c: real, a: seq<real>, top: real, i: int)
    requires c >= 0.0 && 0 <= i < |a| && 0.0 <= a[i] <= top
    ensures 0.0 <= ScaledBy(c, a)[i] <= c * top
  {
    NonNegative(c, a[i]);
    Scale(c, a[i], top);
  }

  lemma FallingScaled(c: real, a: seq<real>, top: real)
    requires Falling(a, top) && c >= 0.0
    ensures Falling(ScaledBy(c, a), c * top)
  {
    var s, most := ScaledBy(c, a), c * top;
    forall i | 0 <= i < |s|
      ensures 0.0 <= s[i] <= most
    {
      ScaledRange(c, a, top, i);
    }
    forall i, k | 0 <= i <= k < |s|
      ensures s[i] >= s[k]
    {
      ScaledOrder(c, a, i, k);
    }
  }

  /** With the left boundary at top and the right one at zero the continued row falls too. */
  lemma FallingContinued(r: seq<real>, top: real, i: int, k: int)
    requires Falling(r, top) && -1 <= i <= k <= |r|
    ensures At(r, top, 0.0, i) >= At(r, top, 0.0, k)
    ensures -At(r, top, 0.0, |r|) == r[|r| - 1] && At(r, top, 0.0, -1) + r[0] == 2.0 * top
  {
  }

  /** Spreading with those boundaries keeps a row falling. */
  lemma FallingSpread(h: real, w: real, r: seq<real>, top: real)
    requires Falling(r, top) && h >= 0.0 && w >= 0.0
    ensures Falling(Spread(h, w, r, top, 0.0), Mix(h, w, top, 2.0 * top))
  {
    hide Mix, At;
    var s := Spread(h, w, r, top, 0.0);
    forall i, k | 0 <= i <= k < |r|
      ensures s[i] >= s[k]
    {
      FallingContinued(r, top, i - 1, k - 1);
      FallingContinued(r, top, i + 1, k + 1);
      MixOrder(h, w, r[i], At(r, top, 0.0, i - 1) + At(r, top, 0.0, i + 1), r[k],
               At(r, top, 0.0, k - 1) + At(r, top, 0.0, k + 1));
    }
    FallingEnds(h, w, r, top);
  }

  lemma FallingEnds(h: real, w: real, r: seq<real>, top: real)
    requires Falling(r, top) && h >= 0.0 && w >= 0.0
    ensures Spread(h, w, r, top, 0.0)[0] <= Mix(h, w, top, 2.0 * top)
    ensures Spread(h, w, r, top, 0.0)[|r| - 1] >= 0.0
  {
    hide Mix;
    var n := |r|;
    assert At(r, top, 0.0, -1) + At(r, top, 0.0, 1) <= 2.0 * top;
    MixOrder(h, w, top, 2.0 * top, r[0], At(r, top, 0.0, -1) + At(r, top, 0.0, 1));
    assert At(r, top, 0.0, n - 2) + At(r, top, 0.0, n) >= 0.0;
    MixOrder(h, w, r[n - 1], At(r, top, 0.0, n - 2) + At(r, top, 0.0, n), 0.0, 0.0);
    MixAdds(h, w, 0.0, 0.0, 0.0, 0.0);
  }

  // ----- balanced rows: the response to everything that is the same along a row -----

  ghost predicate Symmetric(r: seq<real>) {
    forall i :: 0 <= i < |r| ==> r[i] == r[|r| - 1 - i]
  }

  /** With an even number of cells: rising from zero to the middle. */
  ghost predicate Arched(r: seq<real>) {
    |r| >= 2 && r[0] >= 0.0 && forall i, k :: 0 <= i <= k < |r| / 2 ==> r[i] <= r[k]
  }

  /** The difference of the two neighbours of cell i, with the boundary at zero. */
  function Gap(r: seq<real>, i: int): real
    requires |r| > 0 && 0 <= i < |r|
  {
    At(r, 0.0, 0.0, i + 1) - At(r, 0.0, 0.0, i - 1)
  }

  /** r[0] - r[1] + r[2] - ... */
  function Alternating(r: seq<real>, n: nat): real
    requires n <= |r|
  {
    if n == 0 then 0.0 else Alternating(r, n - 1) + if n % 2 == 1 then r[n - 1] else -r[n - 1]
  }

  /** Cells i - 1 and i together. */
  function Level(r: seq<real>, i: int): real
    requires |r| > 0 && 0 <= i <= |r|
  {
    At(r, 0.0, 0.0, i) + At(r, 0.0, 0.0, i - 1)
  }

  function Middle(r: seq<real>): nat {
    |r| / 2
  }

  /** With an odd number of cells the middle cell has no partner, and neighbours may be out of
      order; cells two apart are not, and the alternating part stays small. */
  ghost predicate Braced(r: seq<real>) {
    && |r| >= 3 && |r| % 2 == 1
    && (forall i, k :: 0 <= i <= k <= Middle(r) ==> Gap(r, i) >= Gap(r, k))
    && -Level(r, Middle(r)) <= 2.0 * Alternating(r, |r|) <= Level(r, Middle(r))
  }

  ghost predicate Balanced(r: seq<real>) {
    |r| >= 2 && Symmetric(r) && if |r| % 2 == 0 then Arched(r) else Braced(r)
  }

  // ----- balanced rows form a cone -----

  lemma {:induction false} AlternatingSum(a: seq<real>, b: seq<real>, n: nat)
    requires |a| == |b| && n <= |a|
    ensures Alternating(Plus(a, b), n) == Alternating(a, n) + Alternating(b, n)
  {
    if n > 0 {
      AlternatingSum(a, b, n - 1);
    }
  }

  lemma GapSum(a: seq<real>, b: seq<real>, i: int)
    requires |a| == |b| && 0 <= i < |a|
    ensures Gap(Plus(a, b), i) == Gap(a, i) + Gap(b, i)
  {
  }

  lemma LevelSum(a: seq<real>, b: seq<real>, i: int)
    requires |a| == |b| > 0 && 0 <= i <= |a|
    ensures Level(Plus(a, b), i) == Level(a, i) + Level(b, i)
  {
  }

  lemma BracedSum(a: seq<real>, b: seq<real>)
    requires Braced(a) && Braced(b) && |a| == |b|
    ensures Braced(Plus(a, b))
  {
    hide Gap, Level, Alternating;
    var s := Plus(a, b);
    forall i, k | 0 <= i <= k <= Middle(s)
      ensures Gap(s, i) >= Gap(s, k)
    {
      GapSum(a, b, i);
      GapSum(a, b, k);
      assert Gap(a, i) >= Gap(a, k) && Gap(b, i) >= Gap(b, k);
    }
    AlternatingSum(a, b, |a|);
    LevelSum(a, b, Middle(a));
  }

  lemma ArchedSum(a: seq<real>, b: seq<real>)
    requires Arched(a) && Arched(b) && |a| == |b|
    ensures Arched(Plus(a, b))
  {
  }

  lemma BalancedSum(a: seq<real>, b: seq<real>)
    requires Balanced(a) && Balanced(b) && |a| == |b|
    ensures Balanced(Plus(a, b))
  {
    hide Arched, Braced;
    if |a| % 2 == 0 {
      ArchedSum(a, b);
    } else {
      BracedSum(a, b);
    }
  }

  lemma TimesTerm(c: real, x: real, y: real)
    ensures c * (x + y) == c * x + c * y && c * (x - y) == c * x - c * y
  {
  }

  lemma {:induction false} AlternatingScaled(c: real, a: seq<real>, n: nat)
    requires n <= |a|
    ensures Alternating(ScaledBy(c, a), n) == c * Alternating(a, n)
  {
    if n > 0 {
      AlternatingScaled(c, a, n - 1);
      TimesTerm(c, Alternating(a, n - 1), a[n - 1]);
    }
  }

  lemma GapScaled(c: real, a: seq<real>, i: int)
    requires 0 <= i < |a|
    ensures Gap(ScaledBy(c, a), i) == c * Gap(a, i)
  {
  }

  lemma LevelScaled(c: real, a: seq<real>, i: int)
    requires |a| > 0 && 0 <= i <= |a|
    ensures Level(ScaledBy(c, a), i) == c * Level(a, i)
  {
  }

  lemma ScaledBounds(c: real, level: real, x: real)
    requires c >= 0.0 && -level <= 2.0 * x <= level
    ensures -(c * level) <= 2.0 * (c * x) <= c * level
  {
    Scale(c, x, level / 2.0);
    Scale(c, -level / 2.0, x);
  }

  lemma ArchedScaled(c: real, a: seq<real>)
    requires Arched(a) && c >= 0.0
    ensures Arched(ScaledBy(c, a))
  {
    var s := ScaledBy(c, a);
    Scale(c, 0.0, a[0]);
    forall i, k | 0 <= i <= k < |s| / 2
      ensures s[i] <= s[k]
    {
      ScaledOrder(c, a, k, i);
    }
  }

  lemma BracedScaled(c: real, a: seq<real>)
    requires Braced(a) && c >= 0.0
    ensures Braced(ScaledBy(c, a))
  {
    hide Gap, Level, Alternating;
    var s := ScaledBy(c, a);
    forall i, k | 0 <= i <= k <= Middle(s)
      ensures Gap(s, i) >= Gap(s, k)
    {
      GapScaled(c, a, i);
      GapScaled(c, a, k);
      Scale(c, Gap(a, k), Gap(a, i));
    }
    AlternatingScaled(c, a, |a|);
    LevelScaled(c, a, Middle(a));
    ScaledBounds(c, Level(a, Middle(a)), Alternating(a, |a|));
  }

  lemma BalancedScaled(c: real, a: seq<real>)
    requires Balanced(a) && c >= 0.0
    ensures Balanced(ScaledBy(c, a))
  {
    hide Arched, Braced;
    if |a| % 2 == 0 {
      ArchedScaled(c, a);
    } else {
      BracedScaled(c, a);
    }
  }

  lemma {:induction false} AlternatingConstant(n: nat, value: real, k: nat)
    requires k <= n
    ensures Alternating(Constant(n, value), k) == if k % 2 == 1 then value else 0.0
  {
    if k > 0 {
      AlternatingConstant(n, value, k - 1);
    }
  }

  lemma BalancedConstant(n: nat, value: real)
    requires n >= 2 && value >= 0.0
    ensures Balanced(Constant(n, value))
  {
    AlternatingConstant(n, value, n);
  }

  // ----- spreading keeps a row balanced -----

  lemma FirstCells(r: seq<real>)
    requires |r| > 0
    ensures At(r, 0.0, 0.0, -1) == -r[0] && At(r, 0.0, 0.0, 0) == r[0]
  {
  }

  lemma SymmetricContinued(r: seq<real>, i: int)
    requires |r| > 0 && Symmetric(r) && -1 <= i <= |r|
    ensures At(r, 0.0, 0.0, i) == At(r, 0.0, 0.0, |r| - 1 - i)
  {
  }

  lemma SymmetricSpread(h: real, w: real, r: seq<real>)
    requires |r| > 0 && Symmetric(r)
    ensures Symmetric(Spread(h, w, r, 0.0, 0.0))
  {
    hide At, Mix;
    forall i | 0 <= i < |r|
      ensures Spread(h, w, r, 0.0, 0.0)[i] == Spread(h, w, r, 0.0, 0.0)[|r| - 1 - i]
    {
      SymmetricContinued(r, i - 1);
      SymmetricContinued(r, i + 1);
    }
  }

  lemma ArchedContinued(r: seq<real>, i: int, k: int)
    requires Arched(r) && Symmetric(r) && |r| % 2 == 0 && -1 <= i <= k <= |r| / 2
    ensures At(r, 0.0, 0.0, i) <= At(r, 0.0, 0.0, k)
  {
    assert r[|r| / 2] == r[|r| / 2 - 1];
  }

  lemma ArchedSpread(h: real, w: real, r: seq<real>)
    requires Arched(r) && Symmetric(r) && |r| % 2 == 0 && h >= 0.0 && w >= 0.0
    ensures Arched(Spread(h, w, r, 0.0, 0.0))
  {
    hide At, Mix;
    var s := Spread(h, w, r, 0.0, 0.0);
    forall i, k | 0 <= i <= k < |r| / 2
      ensures s[i] <= s[k]
    {
      ArchedContinued(r, i - 1, k - 1);
      ArchedContinued(r, i + 1, k + 1);
      MixOrder(h, w, r[k], At(r, 0.0, 0.0, k - 1) + At(r, 0.0, 0.0, k + 1), r[i],
               At(r, 0.0, 0.0, i - 1) + At(r, 0.0, 0.0, i + 1));
    }
    ArchedContinued(r, 0, 1);
    assert At(r, 0.0, 0.0, -1) == -r[0] && At(r, 0.0, 0.0, 0) == r[0] by { FirstCells(r); }
    MixOrder(h, w, r[0], At(r, 0.0, 0.0, -1) + At(r, 0.0, 0.0, 1), 0.0, 0.0);
    MixAdds(h, w, 0.0, 0.0, 0.0, 0.0);
  }

  lemma MiddleGap(r: seq<real>)
    requires |r| >= 3 && |r| % 2 == 1 && Symmetric(r)
    ensures Gap(r, Middle(r)) == 0.0
  {
    assert r[Middle(r) + 1] == r[Middle(r) - 1];
  }

  function Before(i: int): int {
    if i == 0 then 0 else i - 1
  }

  lemma SpreadAt(h: real, w: real, r: seq<real>, i: int)
    requires 0 <= i < |r|
    ensures Spread(h, w, r, 0.0, 0.0)[i] == Mix(h, w, r[i], At(r, 0.0, 0.0, i - 1) + At(r, 0.0, 0.0, i + 1))
    ensures At(r, 0.0, 0.0, i) == r[i]
  {
  }

  /** Gaps spread like the row itself, but with a boundary they do not lose through. */
  lemma GapSpread(h: real, w: real, r: seq<real>, i: int)
    requires 0 <= i < |r| - 1
    ensures Gap(Spread(h, w, r, 0.0, 0.0), i) == Mix(h, w, Gap(r, i), Gap(r, Before(i)) + Gap(r, i + 1))
  {
    hide Mix, Spread, At;
    var s := Spread(h, w, r, 0.0, 0.0);
    SpreadAt(h, w, r, Before(i));
    SpreadAt(h, w, r, i + 1);
    SpreadAt(h, w, s, Before(i));
    SpreadAt(h, w, s, i + 1);
    FirstCells(r);
    FirstCells(s);
    var x, u := r[i + 1], At(r, 0.0, 0.0, i) + At(r, 0.0, 0.0, i + 2);
    MixAdds(h, w, x, u, r[Before(i)], At(r, 0.0, 0.0, Before(i) - 1) + At(r, 0.0, 0.0, Before(i) + 1));
  }

  lemma GapsSpread(h: real, w: real, r: seq<real>, i: int, k: int)
    requires Braced(r) && Symmetric(r) && h >= 0.0 && w >= 0.0 && 0 <= i <= k <= Middle(r)
    ensures Gap(Spread(h, w, r, 0.0, 0.0), i) >= Gap(Spread(h, w, r, 0.0, 0.0), k)
  {
    hide Gap, Mix, Spread, Level, Alternating;
    var s := Spread(h, w, r, 0.0, 0.0);
    GapSpread(h, w, r, i);
    if i < k < Middle(r) {
      GapSpread(h, w, r, k);
      MixOrder(h, w, Gap(r, i), Gap(r, Before(i)) + Gap(r, i + 1), Gap(r, k), Gap(r, Before(k)) + Gap(r, k + 1));
    } else if i < k {
      SymmetricSpread(h, w, r);
      MiddleGap(s);
      MiddleGap(r);
      MixOrder(h, w, Gap(r, i), Gap(r, Before(i)) + Gap(r, i + 1), 0.0, 0.0);
      MixAdds(h, w, 0.0, 0.0, 0.0, 0.0);
    }
  }

  function Signed(k: int, x: real): real {
    if k % 2 == 0 then x else -x
  }

  lemma {:induction false} AlternatingSpreadTo(h: real, w: real, r: seq<real>, k: nat)
    requires 1 <= k <= |r|
    ensures Alternating(Spread(h, w, r, 0.0, 0.0), k)
            == Mix(h, w, Alternating(r, k), Signed(k - 1, r[k - 1] + At(r, 0.0, 0.0, k)) - 2.0 * Alternating(r, k))
  {
    hide Mix, Spread, At;
    var s := Spread(h, w, r, 0.0, 0.0);
    var x, u := r[k - 1], At(r, 0.0, 0.0, k - 2) + At(r, 0.0, 0.0, k);
    SpreadAt(h, w, r, k - 1);
    if k == 1 {
      FirstCells(r);
      assert Alternating(s, 0) == 0.0 && Alternating(r, 0) == 0.0;
    } else {
      AlternatingSpreadTo(h, w, r, k - 1);
      SpreadAt(h, w, r, k - 2);
      var y := Signed(k - 2, r[k - 2] + At(r, 0.0, 0.0, k - 1)) - 2.0 * Alternating(r, k - 1);
      MixAdds(h, w, Alternating(r, k - 1), y, x, u);
    }
  }

  /** The alternating part is multiplied by h - 2 w. */
  lemma AlternatingSpread(h: real, w: real, r: seq<real>)
    requires |r| > 0
    ensures Alternating(Spread(h, w, r, 0.0, 0.0), |r|) == Mix(h, w, Alternating(r, |r|), -2.0 * Alternating(r, |r|))
  {
    hide Mix, Spread, Alternating;
    AlternatingSpreadTo(h, w, r, |r|);
    assert r[|r| - 1] + At(r, 0.0, 0.0, |r|) == 0.0;
  }

  lemma LevelSpread(h: real, w: real, r: seq<real>)
    requires |r| >= 3 && |r| % 2 == 1 && Symmetric(r)
    ensures Level(Spread(h, w, r, 0.0, 0.0), Middle(r))
            == Mix(h, w, Level(r, Middle(r)), 2.0 * Level(r, Middle(r)) - Gap(r, Middle(r) - 1))
  {
    hide Mix, Spread, At;
    var s := Spread(h, w, r, 0.0, 0.0);
    var c: int := Middle(r);
    SpreadAt(h, w, r, c);
    SpreadAt(h, w, r, c - 1);
    SpreadAt(h, w, r, c + 1);
    SpreadAt(h, w, s, c);
    SpreadAt(h, w, s, c - 1);
    MixAdds(h, w, r[c], At(r, 0.0, 0.0, c - 1) + At(r, 0.0, 0.0, c + 1), r[c - 1],
            At(r, 0.0, 0.0, c - 2) + At(r, 0.0, 0.0, c));
    assert r[c + 1] == r[c - 1];
  }

  lemma OneMore(k: nat, x: real)
    ensures (k + 1) as real * x == k as real * x + x && 0.0 * x == 0.0
  {
  }

  lemma LevelGrows(r: seq<real>, k: int)
    requires 0 <= k < |r|
    ensures Level(r, 0) == 0.0 && Level(r, k + 1) == Level(r, k) + Gap(r, k)
  {
  }

  /** The gaps up to k add up to the level there, and the last is the smallest. */
  lemma {:induction false} LevelAtLeast(r: seq<real>, k: nat)
    requires Braced(r) && 1 <= k <= Middle(r)
    ensures Level(r, k) >= k as real * Gap(r, k - 1)
  {
    hide Level, Gap, Alternating;
    LevelGrows(r, k - 1);
    OneMore(k - 1, Gap(r, k - 1));
    if k > 1 {
      LevelAtLeast(r, k - 1);
      assert Gap(r, k - 2) >= Gap(r, k - 1);
      Scale((k - 1) as real, Gap(r, k - 1), Gap(r, k - 2));
    } else {
      assert Level(r, 0) == 0.0 && (k - 1) as real == 0.0;
    }
  }

  lemma BraceAlgebra(h: real, w: real, c: real, a: real, l: real, g: real)
    requires h >= 2.0 && w >= 1.0 && c >= 1.0 && 2.0 * w <= 2.0 * c + 1.0
    requires -l <= 2.0 * a <= l && g >= 0.0 && c * g <= l
    ensures -Mix(h, w, l, 2.0 * l - g) <= 2.0 * Mix(h, w, a, -2.0 * a) <= Mix(h, w, l, 2.0 * l - g)
  {
    Scale(g, w, 1.5 * c);
    assert w * g <= 1.5 * l;
    var k := h - 2.0 * w;
    assert Mix(h, w, a, -2.0 * a) == k * a;
    var m := h + 2.0 * w - 2.0;
    assert Mix(h, w, l, 2.0 * l - g) >= m * l by {
      assert Mix(h, w, l, 2.0 * l - g) == h * l + 2.0 * (w * l) - w * g;
      assert m * l == h * l + 2.0 * (w * l) - 2.0 * l;
    }
    BoundedProduct(k, m, a, l);
  }

  lemma BoundedProduct(k: real, m: real, a: real, l: real)
    requires -m <= k <= m && -l <= 2.0 * a <= l
    ensures -(m * l) <= 2.0 * (k * a) <= m * l
  {
    var x, z := k * a, m * l;
    assert (m - k) * (l + 2.0 * a) + (m + k) * (l - 2.0 * a) == 2.0 * z - 4.0 * x;
    assert (m - k) * (l - 2.0 * a) + (m + k) * (l + 2.0 * a) == 2.0 * z + 4.0 * x;
    NonNegative(m - k, l + 2.0 * a);
    NonNegative(m + k, l - 2.0 * a);
    NonNegative(m - k, l - 2.0 * a);
    NonNegative(m + k, l + 2.0 * a);
  }

  lemma BracedSpread(h: real, w: real, r: seq<real>)
    requires Braced(r) && Symmetric(r) && h >= 2.0 && 1.0 <= w && 2.0 * w <= |r| as real
    ensures Braced(Spread(h, w, r, 0.0, 0.0))
  {
    hide Gap, Level, Alternating, Mix, Spread;
    var s := Spread(h, w, r, 0.0, 0.0);
    var c := Middle(r);
    forall i, k | 0 <= i <= k <= Middle(s)
      ensures Gap(s, i) >= Gap(s, k)
    {
      GapsSpread(h, w, r, i, k);
    }
    AlternatingSpread(h, w, r);
    LevelSpread(h, w, r);
    LevelAtLeast(r, c);
    MiddleGap(r);
    BraceAlgebra(h, w, c as real, Alternating(r, |r|), Level(r, c), Gap(r, c - 1));
  }

  /** Spreading between boundaries at zero keeps a row balanced, for a cell weight of at least
      two and a spreading weight of at most half the number of cells. */
  lemma BalancedSpread(h: real, w: real, r: seq<real>)
    requires Balanced(r) && h >= 2.0 && 1.0 <= w && 2.0 * w <= |r| as real
    ensures Balanced(Spread(h, w, r, 0.0, 0.0))
  {
    hide Arched, Braced, Spread;
    SymmetricSpread(h, w, r);
    if |r| % 2 == 0 {
      ArchedSpread(h, w, r);
    } else {
      BracedSpread(h, w, r);
    }
  }

  // ----- balanced rows are not negative -----

  /** r[0] less the alternating term of cell i. */
  function Missing(r: seq<real>, i: int): real
    requires 0 <= i < |r|
  {
    r[0] - Signed(i, r[i])
  }

  lemma GapAt(r: seq<real>, i: int)
    requires 0 <= i < |r| - 1
    ensures i > 0 ==> Gap(r, i) == r[i + 1] - r[i - 1]
    ensures i == 0 ==> Gap(r, i) == r[1] + r[0]
  {
  }

  /** Two neighbours miss between nothing and the first gap; after an even cell at least
      their own gap. */
  lemma {:induction false} PairsMiss(r: seq<real>, k: nat)
    requires Braced(r) && Symmetric(r) && k < Middle(r)
    ensures 0.0 <= Missing(r, k) + Missing(r, k + 1) <= Gap(r, 0)
    ensures k % 2 == 0 ==> Missing(r, k) + Missing(r, k + 1) >= Gap(r, k)
    ensures k % 2 == 1 ==> Missing(r, k) + Missing(r, k + 1) <= Gap(r, 0) - Gap(r, k)
  {
    hide Gap, Level, Alternating;
    MiddleGap(r);
    GapAt(r, k);
    if k > 0 {
      PairsMiss(r, k - 1);
    }
  }

  /** Twice the missing parts before k, and that of k. */
  function TotalMissing(r: seq<real>, k: nat): real
    requires k < |r|
  {
    if k == 0 then 0.0 else TotalMissing(r, k - 1) + Missing(r, k - 1) + Missing(r, k)
  }

  /** They make up at least half the level, and at most k first gaps. */
  lemma {:induction false} MissingHalf(r: seq<real>, k: nat)
    requires Braced(r) && Symmetric(r) && k <= Middle(r)
    ensures 2.0 * TotalMissing(r, k) >= Level(r, k) + if k % 2 == 1 then Gap(r, k - 1) else 0.0
    ensures TotalMissing(r, k) <= k as real * Gap(r, 0)
  {
    hide Gap, Level, Alternating, Missing;
    LevelGrows(r, 0);
    OneMore(0, Gap(r, 0));
    if k > 0 {
      MissingHalf(r, k - 1);
      PairsMiss(r, k - 1);
      LevelGrows(r, k - 1);
      OneMore(k - 1, Gap(r, 0));
    }
  }

  lemma {:induction false} AlternatingFront(r: seq<real>, k: nat)
    requires k < |r|
    ensures 2.0 * Alternating(r, k) + Signed(k, r[k]) == (2 * k + 1) as real * r[0] - TotalMissing(r, k)
  {
    if k > 0 {
      AlternatingFront(r, k - 1);
      assert (2 * k + 1) as real * r[0] == (2 * (k - 1) + 1) as real * r[0] + 2.0 * r[0];
    }
  }

  /** Cells k - 1 and |r| - k are mirror images, and of one sign in a row of odd length. */
  lemma MirrorCells(r: seq<real>, k: nat)
    requires |r| % 2 == 1 && Symmetric(r) && 0 < k <= |r|
    ensures Alternating(r, k) - Alternating(r, k - 1) == Alternating(r, |r| - k + 1) - Alternating(r, |r| - k)
  {
    assert r[k - 1] == r[|r| - 1 - (k - 1)];
    assert (|r| - k + 1) % 2 == k % 2;
  }

  /** The back half of the alternating sum repeats the front half. */
  lemma {:induction false} AlternatingBack(r: seq<real>, k: nat)
    requires |r| % 2 == 1 && Symmetric(r) && Middle(r) < k <= |r|
    ensures Alternating(r, k) - Alternating(r, Middle(r) + 1) == Alternating(r, Middle(r)) - Alternating(r, |r| - k)
  {
    hide Symmetric, Alternating;
    if k > Middle(r) + 1 {
      AlternatingBack(r, k - 1);
      MirrorCells(r, k);
    } else {
      assert |r| - k == Middle(r);
    }
  }

  lemma AlternatingTotal(r: seq<real>)
    requires Braced(r) && Symmetric(r)
    ensures Alternating(r, |r|) == |r| as real * r[0] - TotalMissing(r, Middle(r))
  {
    AlternatingBack(r, |r|);
    AlternatingFront(r, Middle(r));
    assert Alternating(r, 0) == 0.0;
  }

  lemma FirstAlgebra(n: real, c: real, g: real, a: real, t: real, l: real, x: real)
    requires n == 2.0 * c + 1.0 && c >= 1.0 && g >= 0.0 && n * x == a + t
    requires -l <= 2.0 * a <= l <= 2.0 * t && t <= c * g && l <= c * g
    ensures 0.0 <= x <= g
  {
    var k := c * g;
    NonNegative(c, g);
    assert n * g == 2.0 * k + g;
    assert 0.0 <= n * x <= n * g;
    Compare(n, 0.0, x);
    Compare(n, x, g);
  }

  lemma FirstCellsNotNegative(r: seq<real>)
    requires Braced(r) && Symmetric(r)
    ensures r[0] >= 0.0 && r[1] >= 0.0
  {
    hide Gap, Level, Alternating;
    var c := Middle(r);
    AlternatingTotal(r);
    MissingHalf(r, c);
    MiddleGap(r);
    LevelBelow(r, c);
    GapAt(r, 0);
    assert Gap(r, 0) >= Gap(r, c) && (c % 2 == 1 ==> Gap(r, c - 1) >= Gap(r, c));
    FirstAlgebra(|r| as real, c as real, Gap(r, 0), Alternating(r, |r|), TotalMissing(r, c), Level(r, c), r[0]);
  }

  lemma {:induction false} LevelBelow(r: seq<real>, k: nat)
    requires Braced(r) && k <= Middle(r)
    ensures Level(r, k) <= k as real * Gap(r, 0)
  {
    hide Gap, Level, Alternating;
    LevelGrows(r, 0);
    if k > 0 {
      LevelBelow(r, k - 1);
      LevelGrows(r, k - 1);
      OneMore(k - 1, Gap(r, 0));
    }
  }

  lemma {:induction false} FrontNotNegative(r: seq<real>, i: nat)
    requires Braced(r) && Symmetric(r) && i <= Middle(r)
    ensures r[i] >= 0.0
  {
    hide Gap, Level, Alternating;
    if i < 2 {
      FirstCellsNotNegative(r);
    } else {
      FrontNotNegative(r, i - 2);
      MiddleGap(r);
      GapAt(r, i - 1);
    }
  }

  lemma BalancedNotNegative(r: seq<real>, i: nat)
    requires Balanced(r) && i < |r|
    ensures r[i] >= 0.0
  {
    hide Gap, Level, Alternating;
    if |r| % 2 == 1 {
      FrontNotNegative(r, if i <= Middle(r) then i else |r| - 1 - i);
    } else if i >= |r| / 2 {
      assert r[i] == r[|r| - 1 - i];
    }
  }
}
