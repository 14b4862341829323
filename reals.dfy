/** Facts about real multiplication and division, each proved on its own so that the
    proofs using them only need linear reasoning. */
module Reals {
  lemma MulPos(a: real, b: real)
    requires a > 0.0 && b > 0.0
    ensures a * b > 0.0
  {
  }

  lemma MulNonNeg(a: real, b: real)
    requires a >= 0.0 && b >= 0.0
    ensures a * b >= 0.0
  {
  }

  lemma DivPos(p: real, d: real)
    requires p > 0.0 && d > 0.0
    ensures p / d > 0.0
  {
  }

  lemma QuotientNonzero(p: real, d: real)
    requires p != 0.0 && d != 0.0
    ensures p / d != 0.0
  {
    assert (p / d) * d == p;
  }

  lemma DivNonNeg(p: real, d: real)
    requires p >= 0.0 && d > 0.0
    ensures p / d >= 0.0
  {
  }

  lemma DivAtMostOne(p: real, d: real)
    requires p <= d && d > 0.0
    ensures p / d <= 1.0
  {
  }

  lemma DivBelowOne(p: real, d: real)
    requires p < d && d > 0.0
    ensures p / d < 1.0
  {
  }

  /** p/d of 0 <= p <= d lies in [0, 1]. */
  lemma FractionInUnit(p: real, d: real)
    requires 0.0 <= p <= d && d > 0.0
    ensures 0.0 <= p / d <= 1.0
  {
    DivNonNeg(p, d);
    DivAtMostOne(p, d);
  }

  lemma MulDiv(p: real, q: real, d: real)
    requires d != 0.0
    ensures p * q / d == (p / d) * q
  {
  }

  /** Multiplying a positive number by a factor of at least one does not shrink it. */
  lemma MulAtLeast(w: real, frac: real)
    requires w > 0.0 && frac >= 1.0
    ensures w * frac >= w
  {
    MulNonNeg(w, frac - 1.0);
    assert w * frac - w == w * (frac - 1.0);
  }

  /** Multiplying a positive number by a factor in (0, 1] keeps it positive and does not
      grow it. */
  lemma MulAtMost(f: real, w: real)
    requires 0.0 < f <= 1.0 && w > 0.0
    ensures 0.0 < f * w <= w
  {
    MulPos(f, w);
    MulNonNeg(1.0 - f, w);
    assert w - f * w == (1.0 - f) * w;
  }

  lemma DivLess(x: real, y: real, c: real)
    requires x <= y && c > 0.0
    ensures x / c <= y / c
  {
    DivNonNeg(y - x, c);
    assert y / c - x / c == (y - x) / c;
  }

  lemma DivShift(x: real, c: real)
    requires c > 0.0
    ensures (x - c) / c == x / c - 1.0
  {
    var q := x / c;
    var r := (x - c) / c;
    assert q * c == x;
    assert r * c == x - c;
    var d := r - q + 1.0;
    assert d * c == 0.0;
  }

  /** y0 + t*(y1 - y0) with t in [0, 1] lies between y0 and y1. */
  lemma BetweenByFraction(y0: real, y1: real, t: real)
    requires 0.0 <= t <= 1.0
    ensures y0 <= y1 ==> y0 <= y0 + t * (y1 - y0) <= y1
    ensures y1 <= y0 ==> y1 <= y0 + t * (y1 - y0) <= y0
  {
    if y0 <= y1 {
      MulNonNeg(t, y1 - y0);
      MulNonNeg(1.0 - t, y1 - y0);
      assert (1.0 - t) * (y1 - y0) == (y1 - y0) - t * (y1 - y0);
    } else {
      MulNonNeg(t, y0 - y1);
      MulNonNeg(1.0 - t, y0 - y1);
      assert t * (y1 - y0) == -(t * (y0 - y1));
      assert (1.0 - t) * (y0 - y1) == (y0 - y1) - t * (y0 - y1);
    }
  }

  lemma HalvesRatio(p: real, d: real)
    requires d > 0.0
    ensures (p / 2.0) / (d / 2.0) == p / d
  {
  }

  /** A share d0 of d0 + d1 is one half exactly when the two parts are equal. */
  lemma RatioHalfIff(d0: real, d1: real)
    requires d0 > 0.0 && d1 > 0.0
    ensures d0 / (d0 + d1) == 0.5 <==> d0 == d1
  {
  }

  /** y0 plus the share p/d of q, with p/d in [0, 1], lies between y0 and y0 + q. */
  lemma ShareBetween(p: real, q: real, d: real, y0: real, v: real)
    requires 0.0 <= p <= d && d > 0.0
    requires v == y0 + p * q / d
    ensures 0.0 <= q ==> y0 <= v <= y0 + q
    ensures q <= 0.0 ==> y0 + q <= v <= y0
  {
    var t := p / d;
    FractionInUnit(p, d);
    MulDiv(p, q, d);
    BetweenByFraction(y0, y0 + q, t);
    assert (y0 + q) - y0 == q;
  }

  /** Multiplying a positive number by a factor in (0, 1) strictly shrinks it. */
  lemma MulBelow(f: real, w: real)
    requires 0.0 < f < 1.0 && w > 0.0
    ensures 0.0 < f * w < w
  {
    MulPos(f, w);
    MulPos(1.0 - f, w);
    assert w - f * w == (1.0 - f) * w;
  }

  lemma MulLess(f: real, w: real)
    requires 0.0 < f < 1.0 && w > 0.0
    ensures f * w < w
  {
    MulBelow(f, w);
  }

  /** Dividing by c and then by d is undone by multiplying by c * d. */
  lemma CancelDivs(x: real, c: real, d: real)
    requires c != 0.0 && d != 0.0
    ensures c * d * ((x / c) / d) == x
  {
    var y := x / c;
    var z := y / d;
    assert z * d == y;
    assert y * c == x;
    assert c * d * z == c * (z * d);
  }

  lemma DivMul(x: real, d: real)
    requires d != 0.0
    ensures (x / d) * d == x
  {
  }

  /** The difference of g*u and g*v is g times the difference. */
  lemma MulSub(g: real, u: real, v: real)
    ensures g * u - g * v == g * (u - v)
  {
  }

  /** A quantity g*v with v = -w, divided by w, is -g. */
  lemma RecipOfOpposite(g: real, v: real, w: real)
    requires w != 0.0 && v + w == 0.0
    ensures (1.0 / w) * (g * v) + g == 0.0
  {
    var r := 1.0 / w;
    assert r * w == 1.0;
    assert g * v == 0.0 - g * w;
    assert r * (g * v) == 0.0 - g * (r * w);
  }

  /** The same for a division by v/2 where v = -2h: (g*h)/(v/2) is -g. */
  lemma HalfOfOpposite(g: real, h: real, v: real)
    requires h != 0.0 && v + 2.0 * h == 0.0
    ensures (g * h) / (v / 2.0) + g == 0.0
  {
    assert v / 2.0 == 0.0 - h;
    var r := (g * h) / (0.0 - h);
    assert r * (0.0 - h) == g * h;
    assert (r + g) * h == 0.0;
  }

  /** A square divided by a positive number is positive. Squares are split on
      the sign of the base, since the solver does not relate w * w to itself
      reliably. */
  lemma SquareDivPos(w: real, d: real)
    requires w != 0.0 && d > 0.0
    ensures w * w / d > 0.0
  {
    if w > 0.0 {
      DivPos(w, d);
      MulPos(w / d, w);
      assert w * w / d == (w / d) * w;
    } else {
      var v := 0.0 - w;
      DivPos(v, d);
      MulPos(v / d, v);
      assert w * w / d == (v / d) * v;
    }
  }

  /** The explicit-diffusion bound w^2 / (2 kk / tem) is positive. */
  lemma StepBoundPositive(w: real, kk: real, tem: real)
    requires w != 0.0 && kk > 0.0 && tem > 0.0
    ensures w * w / (2.0 * kk / tem) > 0.0
  {
    DivPos(2.0 * kk, tem);
    SquareDivPos(w, 2.0 * kk / tem);
  }
}
