/**
 Relative luminance and contrast ratio as the WCAG 2.1 glossary defines them and apps/webui-static/colour.js
 computes them. The transfer of one channel to linear light is a parameter; `SrgbTransfer` has the literal one.
 */
module Luminosity {
  import opened ColourSpace

  function Gain(slope: real, way: real): real {
    slope * way
  }

  /** Between any two channel values `f` gains `slope` for each unit of the way, but for a loss of `drop`. */
  ghost predicate Rises(f: real -> real, slope: real, drop: real) {
    forall x, y :: 0.0 <= x <= y <= 255.0 ==> f(y) >= f(x) + Gain(slope, y - x) - drop
  }

  /**
   What is assumed of the transfer: it runs from 0 at 0 to 1 at 255, stays between them, and may only fall by
   what it gains in a quarter of a channel unit. A transfer that never falls has slope and drop 0.
   */
  ghost predicate IsTransfer(f: real -> real) {
    && f(0.0) == 0.0 && f(255.0) == 1.0
    && (forall x :: 0.0 <= x <= 255.0 ==> Unit(f(x)))
    && exists slope, drop :: 0.0 <= drop <= slope / 4.0 && Rises(f, slope, drop)
  }

  lemma NeverFallingIsTransfer(f: real -> real)
    requires f(0.0) == 0.0 && f(255.0) == 1.0
    requires forall x, y :: 0.0 <= x <= y <= 255.0 ==> f(x) <= f(y)
    ensures IsTransfer(f)
  {
    assert Rises(f, 0.0, 0.0);
  }

  function Proportional(x: real): real {
    x / 255.0
  }

  type Transfer = f: real -> real | IsTransfer(f)
    witness (NeverFallingIsTransfer(Proportional); Proportional)

  function Luminance(f: Transfer, c: Rgb): (y: real)
    requires InGamut(c)
    ensures Unit(y)
  {
    0.2126 * f(c.r) + 0.7152 * f(c.g) + 0.0722 * f(c.b)
  }

  function Over(n: real, d: real): real
    requires d != 0.0
  {
    n / d
  }

  /** The contrast ratio of two luminances. */
  function Ratio(x: real, y: real): real
    requires x >= 0.0 && y >= 0.0
  {
    Over(Max(x, y) + 0.05, Min(x, y) + 0.05)
  }

  /** The contrast ratio of two colours. */
  function Contrast(f: Transfer, a: Rgb, b: Rgb): real
    requires InGamut(a) && InGamut(b)
  {
    Ratio(Luminance(f, a), Luminance(f, b))
  }

  lemma LuminanceEnds(f: Transfer)
    ensures Luminance(f, BLACK) == 0.0 && Luminance(f, WHITE) == 1.0
  {
  }

  /** How far the channels of a colour are from black, each with its weight in the luminance. */
  function Weighted(c: Rgb): real {
    0.2126 * c.r + 0.7152 * c.g + 0.0722 * c.b
  }

  /** When no channel falls luminance gains `slope` for each weighted unit, but for a loss of `drop` in all. */
  lemma LuminanceRises(f: Transfer, slope: real, drop: real, c: Rgb, d: Rgb)
    requires InGamut(c) && InGamut(d) && Below(c, d) && Rises(f, slope, drop)
    ensures Luminance(f, d) >= Luminance(f, c) + Gain(slope, Weighted(d) - Weighted(c)) - drop
  {
    hide Gain;
    var r, g, b := Gain(slope, d.r - c.r), Gain(slope, d.g - c.g), Gain(slope, d.b - c.b);
    assert f(d.r) >= f(c.r) + r - drop && f(d.g) >= f(c.g) + g - drop && f(d.b) >= f(c.b) + b - drop;
    WeightedShares(slope, d.r - c.r, d.g - c.g, d.b - c.b);
    assert Weighted(d) - Weighted(c) == 0.2126 * (d.r - c.r) + 0.7152 * (d.g - c.g) + 0.0722 * (d.b - c.b);
  }

  /** The least weight bounds what two channels add. */
  lemma WeightedGain(c: Rgb, d: Rgb, x: real)
    requires Below(c, d) && PairGains(c, d, x)
    ensures Weighted(d) - Weighted(c) >= 0.0722 * x
  {
  }

  lemma WeightedShares(slope: real, r: real, g: real, b: real)
    ensures Gain(slope, 0.2126 * r + 0.7152 * g + 0.0722 * b)
            == 0.2126 * Gain(slope, r) + 0.7152 * Gain(slope, g) + 0.0722 * Gain(slope, b)
  {
  }

  /** The share of each primary in the luminance of white, which tells the three weights apart. */
  lemma LuminanceOfPrimaries(f: Transfer)
    ensures Luminance(f, Rgb(255.0, 0.0, 0.0)) == 0.2126
    ensures Luminance(f, Rgb(0.0, 255.0, 0.0)) == 0.7152
    ensures Luminance(f, Rgb(0.0, 0.0, 255.0)) == 0.0722
  {
  }

  // ---- The ratio ----

  lemma QuotientOrder(n: real, m: real, d: real)
    requires n <= m && d > 0.0
    ensures Over(n, d) <= Over(m, d)
  {
    var x, y := n / d, m / d;
    assert x * d == n && y * d == m;
    if x > y { NonNegative(x - y, d); }
  }

  lemma QuotientShrinks(n: real, d: real, e: real)
    requires n >= 0.0 && 0.0 < d <= e
    ensures Over(n, e) <= Over(n, d)
  {
    var k := n / e;
    assert k * e == n;
    if k < 0.0 { StrictProduct(-k, e); }
    NonNegative(k, e - d);
    assert k * d == k * e - k * (e - d);
    QuotientMeets(n, d, k);
  }

  lemma QuotientMeets(n: real, d: real, t: real)
    requires d > 0.0
    ensures Over(n, d) >= t <==> n >= t * d
  {
    var x := n / d;
    assert x * d == n;
    if x >= t { NonNegative(x - t, d); }
    if n >= t * d && x < t { StrictProduct(t - x, d); }
  }

  lemma StrictProduct(x: real, y: real)
    requires x > 0.0 && y > 0.0
    ensures x * y > 0.0
  {
  }

  /** The ratio reaches a target exactly when the lighter side is that many times the darker one. */
  lemma RatioMeets(x: real, y: real, t: real)
    requires x >= 0.0 && y >= 0.0
    ensures Ratio(x, y) >= t <==> Max(x, y) + 0.05 >= t * (Min(x, y) + 0.05)
  {
    QuotientMeets(Max(x, y) + 0.05, Min(x, y) + 0.05, t);
  }

  /** The ratio does not depend on the order, is never below 1, and is 1 only between equal luminances. */
  lemma RatioLaws(x: real, y: real)
    requires x >= 0.0 && y >= 0.0
    ensures Ratio(x, y) == Ratio(y, x) && Ratio(x, y) >= 1.0
    ensures Ratio(x, y) == 1.0 <==> x == y
  {
    var n, d := Max(x, y) + 0.05, Min(x, y) + 0.05;
    QuotientMeets(n, d, 1.0);
    var k := n / d;
    assert k * d == n;
  }

  /** Moving away from `y` on either side never lowers the ratio. */
  lemma RatioGrowsAway(x: real, x': real, y: real)
    requires x >= 0.0 && x' >= 0.0 && y >= 0.0
    requires y <= x <= x' || x' <= x <= y
    ensures Ratio(x, y) <= Ratio(x', y)
  {
    if y <= x <= x' {
      QuotientOrder(x + 0.05, x' + 0.05, y + 0.05);
    } else {
      QuotientShrinks(y + 0.05, x' + 0.05, x + 0.05);
    }
  }

  /** Between two luminances the ratio is never above the larger of the two ends. */
  lemma RatioLargestAtAnEnd(from: real, x: real, to: real, y: real)
    requires from >= 0.0 && to >= 0.0 && y >= 0.0
    requires from <= x <= to || to <= x <= from
    ensures Ratio(x, y) <= Max(Ratio(from, y), Ratio(to, y))
  {
    if y <= x {
      RatioGrowsAway(x, Max(from, to), y);
    } else {
      RatioGrowsAway(x, Min(from, to), y);
    }
  }

  /** Against every luminance white or black reaches the square root of 21, which is more than 4.5. */
  lemma WhiteOrBlackReads(y: real)
    requires Unit(y)
    ensures var best := Max(Ratio(1.0, y), Ratio(0.0, y));
            best * best >= 21.0 && best > 4.5
  {
    var d := y + 0.05;
    var white, black := Over(1.05, d), Over(d, 0.05);
    EndRatios(y);
    ProductOfEnds(d);
    hide Ratio, Over;
    SquareOfLarger(white, black);
    SquareAbove(Max(white, black));
  }

  lemma EndRatios(y: real)
    requires Unit(y)
    ensures Ratio(1.0, y) == Over(1.05, y + 0.05) && Ratio(0.0, y) == Over(y + 0.05, 0.05)
  {
  }

  lemma ProductOfEnds(d: real)
    requires d > 0.0
    ensures Over(1.05, d) >= 0.0 && Over(d, 0.05) >= 0.0 && Over(1.05, d) * Over(d, 0.05) == 21.0
  {
    var white := Over(1.05, d);
    assert white * d == 1.05;
    assert Over(d, 0.05) == 20.0 * d;
    assert white * (20.0 * d) == 20.0 * (white * d);
    QuotientMeets(1.05, d, 0.0);
  }

  lemma SquareAbove(x: real)
    requires x >= 0.0 && x * x >= 21.0
    ensures x > 4.5
  {
    if x <= 4.5 { NonNegative(4.5 - x, 4.5 + x); }
  }

  lemma SquareOfLarger(x: real, y: real)
    requires x >= 0.0 && y >= 0.0
    ensures Max(x, y) * Max(x, y) >= x * y
  {
    NonNegative(Max(x, y), Max(x, y) - Min(x, y));
  }
}
