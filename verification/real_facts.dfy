/** Products and quotients of reals, one fact at a time. */
module RealFacts {
  /** The diffusive flux between two values, inwards when outer is the larger. */
  function Flow(outer: real, inner: real, weight: real): real {
    (outer - inner) * weight
  }

  lemma Quotient(a: real, b: real)
    requires b > 0.0
    ensures a / b * b == a
    ensures a >= 0.0 ==> a / b >= 0.0
    ensures a > 0.0 ==> a / b > 0.0
  {
  }

  lemma QuotientAboveOne(a: real, b: real)
    requires a > b > 0.0
    ensures a / b > 1.0
  {
    var q := a / b;
    Quotient(a, b);
    if q <= 1.0 {
      NonNegative(1.0 - q, b);
    }
  }

  lemma NonNegative(a: real, b: real)
    requires a >= 0.0 && b >= 0.0
    ensures a * b >= 0.0
  {
  }

  lemma Scale(t: real, a: real, b: real)
    requires t >= 0.0 && a <= b
    ensures t * a <= t * b
  {
    NonNegative(t, b - a);
  }

  lemma Compare(w: real, u: real, v: real)
    requires w > 0.0
    ensures w * u <= w * v <==> u <= v
  {
    if u > v {
      assert w * (u - v) > 0.0;
    } else {
      assert w * (v - u) >= 0.0;
    }
  }

  lemma Sandwich(v: real, k: real, lo: real, hi: real)
    requires k >= 0.0 && lo <= v <= hi
    ensures lo * k <= v * k <= hi * k
  {
  }

  lemma Distribute(x: real, a: real, b: real, c: real, d: real)
    ensures x * (a + b + c + d) == x * a + x * b + x * c + x * d
  {
  }

  lemma PositiveProduct(a: real, b: real)
    requires a > 0.0 && b > 0.0
    ensures a * b > 0.0
  {
  }

  lemma DivideOut(d: real, x: real, y: real)
    requires d > 0.0 && d * x == y
    ensures x == 1.0 / d * y
  {
    var q := 1.0 / d;
    assert q * d == 1.0;
    assert q * (d * x) == x;
  }
}
