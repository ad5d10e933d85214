/** What the rounding of crop ratios (calculate_crop_rects in hwc_utils.cpp) comes to in whole
    numbers. */
module Rounding {
  import opened Layers

  /** c is n / total rounded, halves up. */
  predicate Rounds(c: int, n: int, total: int) {
    2 * n - total < 2 * (c * total) <= 2 * n + total
  }

  lemma Product(d: real, t: real)
    requires t > 0.0
    ensures d > 0.0 ==> d * t > 0.0
    ensures d >= 0.0 ==> d * t >= 0.0
  {
  }

  lemma Less(d: real, c: real, x: real, t: real, dt: real, ct: real, xt: real)
    requires d == c - x && dt == d * t && ct == c * t && xt == x * t
    ensures dt == ct - xt
  {
  }

  lemma AddHalf(e: real, d: real, t: real, et: real, dt: real)
    requires e == d + 0.5 && et == e * t && dt == d * t
    ensures et == dt + 0.5 * t
  {
  }

  lemma Above(c: real, x: real, t: real, ct: real, xt: real)
    requires t > 0.0 && ct == c * t && xt == x * t
    ensures x - 0.5 < c ==> xt - 0.5 * t < ct
    ensures x - 0.5 <= c ==> xt - 0.5 * t <= ct
  {
    var d := c - x;
    var e := d + 0.5;
    Less(d, c, x, t, d * t, ct, xt);
    AddHalf(e, d, t, e * t, d * t);
    Product(e, t);
  }

  lemma Between(c: real, x: real, t: real, ct: real, xt: real)
    requires t > 0.0 && x - 0.5 < c <= x + 0.5 && ct == c * t && xt == x * t
    ensures xt - 0.5 * t < ct <= xt + 0.5 * t
  {
    Above(c, x, t, ct, xt);
    Above(x, c, t, xt, ct);
  }

  lemma RoundTimes(x: real, n: int, total: int)
    requires total > 0 && x >= 0.0 && x * total as real == n as real
    ensures Rounds(Round(x), n, total)
  {
    var c, t := Round(x), total as real;
    var ct := c * total;
    assert ct as real == c as real * t;
    Between(c as real, x, t, ct as real, n as real);
  }

  lemma Regroup(e: real, q: real, t: real)
    ensures e * q * t == e * (q * t)
  {
  }

  lemma Quotient(a: real, t: real)
    requires t > 0.0 && a >= 0.0
    ensures a / t * t == a && a / t >= 0.0
  {
  }

  lemma PixelsOf(extent: int, a: int, total: int, q: real, e: real, x: real)
    requires total > 0 && e == extent as real && q * total as real == a as real
    requires x == e * q && x >= 0.0
    ensures Rounds(Round(x), extent * a, total)
  {
    Regroup(e, q, total as real);
    RealProduct(extent, a);
    RoundTimes(x, extent * a, total);
  }

  /** The pixels cut off an extent for the ratio a / total are extent * a / total, rounded. */
  lemma RatioPixels(extent: int, a: int, total: int)
    requires extent >= 0 && a >= 0 && total > 0
    ensures Rounds(CutPixels(extent, a as real / total as real), extent * a, total)
  {
    var q := Ratio(a, total);
    CutIs(extent, q);
    NotNegative(extent as real, q);
    PixelsOf(extent, a, total, q, extent as real, extent as real * q);
  }

  lemma Ratio(a: int, total: int) returns (q: real)
    requires a >= 0 && total > 0
    ensures q == a as real / total as real && q * total as real == a as real && q >= 0.0
  {
    Quotient(a as real, total as real);
    q := a as real / total as real;
  }

  lemma CutIs(extent: int, q: real)
    ensures CutPixels(extent, q) == Round(extent as real * q)
  {
  }

  lemma NotNegative(a: real, b: real)
    requires a >= 0.0 && b >= 0.0
    ensures a * b >= 0.0
  {
  }

  lemma RealProduct(a: int, b: int)
    ensures (a * b) as real == a as real * b as real
  {
  }

  /** Less than a whole multiple away on either side. */
  lemma ZeroOrOne(u: int, t: int, ut: int)
    requires ut == u * t && -t < 2 * ut < 3 * t
    ensures u == 0 || u == 1
  {
    if u < 0 {
      Multiple(-u - 1, t);
    } else if u > 1 {
      Multiple(u - 2, t);
    }
  }

  lemma Multiple(k: int, t: int)
    requires k >= 0 && t >= 0
    ensures k * t >= 0
  {
  }

  /** n / total is half way between two integers. */
  predicate HalfWay(n: int, total: int)
    requires total > 0
  {
    2 * (n % total) == total
  }

  lemma RoundsOf(c: int, q: int, r: int, total: int)
    requires total > 0 && 0 <= r < total && Rounds(c, q * total + r, total)
    ensures c == if 2 * r >= total then q + 1 else q
  {
    Minus(c, q, total);
    ZeroOrOne(c - q, total, c * total - q * total);
  }

  lemma Minus(c: int, q: int, t: int)
    ensures (c - q) * t == c * t - q * t
  {
  }

  /** A whole extent in two parts, rounded separately: the parts make up the extent, or one pixel
      more when both were half way. */
  lemma PixelsSum(extent: int, n: int, m: int, total: int, c: int, d: int)
    requires total > 0 && n + m == extent * total && Rounds(c, n, total) && Rounds(d, m, total)
    ensures c + d == extent + (if HalfWay(n, total) then 1 else 0)
  {
    var q, r := n / total, n % total;
    assert n == q * total + r;
    RoundsOf(c, q, r, total);
    var e := extent - q;
    assert (e - 1) * total == e * total - total && e * total == extent * total - q * total;
    if r == 0 {
      RoundsOf(d, e, 0, total);
    } else {
      assert m == (e - 1) * total + (total - r);
      RoundsOf(d, e - 1, total - r, total);
    }
  }
}
