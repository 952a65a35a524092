/**
 The literal transfer of one channel to linear light (apps/webui-static/colour.js:35-38): where it falls, by how
 much, and that every theorem about a `Transfer` covers it.
 */
module SrgbTransfer {
  import opened ColourSpace
  import opened Luminosity
  import opened Hex

  function Power(x: real, n: nat): real {
    if n == 0 then 1.0 else x * Power(x, n - 1)
  }

  /** The power 2.4: the non-negative number whose fifth power is the twelfth power of the argument. */
  ghost predicate IsPow24(pow24: real -> real) {
    forall x :: x >= 0.0 ==> pow24(x) >= 0.0 && Power(pow24(x), 5) == Power(x, 12)
  }

  const THRESHOLD := 0.03928

  function Bent(scaled: real): real {
    (scaled + 0.055) / 1.055
  }

  function Linear(pow24: real -> real, scaled: real): real {
    if scaled <= THRESHOLD then scaled / 12.92 else pow24(Bent(scaled))
  }

  function LiteralTransfer(pow24: real -> real): real -> real {
    (value: real) => Linear(pow24, value / 255.0)
  }

  // ---- Powers ----

  lemma {:induction false} PowerPositive(x: real, n: nat)
    requires x > 0.0
    ensures Power(x, n) > 0.0
  {
    if n > 0 {
      PowerPositive(x, n - 1);
      StrictProduct(x, Power(x, n - 1));
    }
  }

  lemma {:induction false} PowerGrows(x: real, y: real, n: nat)
    requires 0.0 <= x <= y
    ensures 0.0 <= Power(x, n) <= Power(y, n)
    ensures x < y && n > 0 ==> Power(x, n) < Power(y, n)
  {
    if n > 0 {
      PowerGrows(x, y, n - 1);
      var p, q := Power(x, n - 1), Power(y, n - 1);
      if x < y { PowerPositive(y, n - 1); }
      ProductGrows(x, y, p, q);
    }
  }

  lemma ProductGrows(x: real, y: real, p: real, q: real)
    requires 0.0 <= x <= y && 0.0 <= p <= q
    ensures 0.0 <= x * p <= y * q
    ensures x < y && q > 0.0 ==> x * p < y * q
  {
    NonNegative(x, p);
    NonNegative(x, q - p);
    NonNegative(y - x, q);
    assert x * (q - p) == x * q - x * p && (y - x) * q == y * q - x * q;
    if x < y && q > 0.0 { StrictProduct(y - x, q); }
  }

  lemma {:induction false} PowerOfProduct(x: real, y: real, n: nat)
    ensures Power(x * y, n) == Power(x, n) * Power(y, n)
  {
    if n > 0 {
      PowerOfProduct(x, y, n - 1);
      var p, q := Power(x, n - 1), Power(y, n - 1);
      assert (x * y) * (p * q) == (x * p) * (y * q);
    }
  }

  lemma {:induction false} PowerInExponent(x: real, m: nat, n: nat)
    requires x >= 1.0 && m <= n
    ensures Power(x, m) <= Power(x, n)
  {
    if m < n {
      PowerInExponent(x, m, n - 1);
      PowerPositive(x, n - 1);
      NonNegative(x - 1.0, Power(x, n - 1));
    }
  }

  // ---- The power 2.4 ----

  /** The power is compared with a number by whole powers of both. */
  lemma PowBelow(pow24: real -> real, a: real, b: real)
    requires IsPow24(pow24) && a >= 0.0 && b >= 0.0
    ensures pow24(a) < b <==> Power(a, 12) < Power(b, 5)
    ensures pow24(a) > b <==> Power(a, 12) > Power(b, 5)
  {
    hide Power;
    var p := pow24(a);
    if p <= b { PowerGrows(p, b, 5); }
    if b <= p { PowerGrows(b, p, 5); }
  }

  lemma PowGrows(pow24: real -> real, a: real, b: real)
    requires IsPow24(pow24) && 0.0 <= a <= b
    ensures 0.0 <= pow24(a) <= pow24(b)
  {
    hide Power;
    PowBelow(pow24, b, pow24(a));
    PowerGrows(a, b, 12);
  }

  /** The power grows at least in proportion. */
  lemma PowScales(pow24: real -> real, a: real, r: real)
    requires IsPow24(pow24) && 0.0 <= a && 1.0 <= r
    ensures pow24(a * r) >= pow24(a) * r
  {
    hide Power;
    var p := pow24(a);
    NonNegative(a, r);
    NonNegative(p, r);
    PowerOfProduct(p, r, 5);
    PowerOfProduct(a, r, 12);
    PowerInExponent(r, 5, 12);
    PowerGrows(0.0, a, 12);
    NonNegative(Power(a, 12), Power(r, 12) - Power(r, 5));
    PowBelow(pow24, a * r, p * r);
  }

  lemma PowAtOne(pow24: real -> real)
    requires IsPow24(pow24)
    ensures pow24(1.0) == 1.0
  {
    PowBelow(pow24, 1.0, 1.0);
  }

  const BEND := 0.09428 / 1.055

  lemma PowAtBend(pow24: real -> real)
    requires IsPow24(pow24)
    ensures pow24(BEND) > THRESHOLD / 12.92 - 0.000001
  {
    PowersAtBend(BEND);
    hide Power;
    PowBelow(pow24, BEND, THRESHOLD / 12.92 - 0.000001);
  }

  lemma PowersAtBend(a: real)
    requires a == 0.09428 / 1.055
    ensures Power(a, 12) > Power(0.03928 / 12.92 - 0.000001, 5)
  {
  }

  /** From the threshold on the power gains a thirtieth of what its argument gains. */
  lemma PowRises(pow24: real -> real, a: real, b: real)
    requires IsPow24(pow24) && BEND <= a <= b
    ensures pow24(b) >= pow24(a) + 0.033 * (b - a)
  {
    hide IsPow24;
    var p := pow24(a);
    PowAtBend(pow24);
    ScaleTo(pow24, BEND, a);
    var k := pow24(BEND) / BEND;
    assert p >= 0.033 * a by { ProportionKept(pow24(BEND), BEND, a); }
    ScaleTo(pow24, a, b);
    GainInProportion(p, a, b);
  }

  lemma ScaleTo(pow24: real -> real, a: real, b: real)
    requires IsPow24(pow24) && 0.0 < a <= b
    ensures pow24(b) >= pow24(a) * (b / a)
  {
    hide IsPow24;
    var r := b / a;
    assert a * r == b;
    if r < 1.0 { StrictProduct(1.0 - r, a); }
    PowScales(pow24, a, r);
  }

  lemma ProportionKept(p: real, a: real, b: real)
    requires 0.0 < a <= b && p >= 0.033 * a
    ensures p * (b / a) >= 0.033 * b
  {
    var r := b / a;
    assert a * r == b;
    if r < 0.0 { StrictProduct(-r, a); }
    NonNegative(p - 0.033 * a, r);
    assert (p - 0.033 * a) * r == p * r - 0.033 * (a * r);
  }

  lemma GainInProportion(p: real, a: real, b: real)
    requires 0.0 < a <= b && p >= 0.033 * a
    ensures p * (b / a) >= p + 0.033 * (b - a)
  {
    var r := b / a;
    assert a * r == b;
    if r < 1.0 { StrictProduct(1.0 - r, a); }
    NonNegative(p - 0.033 * a, r - 1.0);
    assert (p - 0.033 * a) * (r - 1.0) == p * r - p - 0.033 * (a * r) + 0.033 * a;
  }

  // ---- The literal formula ----

  lemma LinearRises(pow24: real -> real, x: real, y: real)
    requires IsPow24(pow24) && 0.0 <= x <= y
    ensures Linear(pow24, y) >= Linear(pow24, x) + 0.03 * (y - x) - 0.000001
    ensures Linear(pow24, x) >= 0.0
  {
    hide IsPow24;
    PowAtBend(pow24);
    if y > THRESHOLD {
      PowRises(pow24, if x > THRESHOLD then Bent(x) else BEND, Bent(y));
    }
    if x > THRESHOLD {
      PowGrows(pow24, 0.0, Bent(x));
    }
  }

  /** The literal formula is a transfer: it gains 0.03 for the whole scale and loses less than a millionth. */
  lemma LiteralIsTransfer(pow24: real -> real)
    requires IsPow24(pow24)
    ensures Rises(LiteralTransfer(pow24), 0.03 / 255.0, 0.000001)
    ensures IsTransfer(LiteralTransfer(pow24))
  {
    hide IsPow24;
    var f := LiteralTransfer(pow24);
    PowAtOne(pow24);
    forall x, y | 0.0 <= x <= y <= 255.0
      ensures f(y) >= f(x) + 0.03 / 255.0 * (y - x) - 0.000001 && Unit(f(x))
    {
      LinearRises(pow24, x / 255.0, y / 255.0);
      if x / 255.0 > THRESHOLD { PowGrows(pow24, Bent(x / 255.0), 1.0); }
    }
  }

  /**
   The literal formula falls between two channel values exactly when they stand on either side of the threshold
   and the power at the larger is still below the line at the smaller, which whole powers decide; it never
   falls by as much as a millionth.
   */
  lemma LiteralFallsExactly(pow24: real -> real, x: real, y: real)
    requires IsPow24(pow24) && 0.0 <= x <= y <= 255.0
    ensures var f := LiteralTransfer(pow24);
            && (f(y) < f(x) <==>
                  && x / 255.0 <= THRESHOLD < y / 255.0
                  && Power(Bent(y / 255.0), 12) < Power(x / 255.0 / 12.92, 5))
            && f(x) - 0.000001 < f(y)
  {
    hide IsPow24, Power;
    var p, q := x / 255.0, y / 255.0;
    PowAtBend(pow24);
    if p > THRESHOLD {
      PowGrows(pow24, Bent(p), Bent(q));
    } else if q > THRESHOLD {
      PowBelow(pow24, Bent(q), p / 12.92);
      PowGrows(pow24, BEND, Bent(q));
    }
  }

  /** It does fall: from the threshold to a value five millionths above it. */
  lemma LiteralFalls(pow24: real -> real)
    requires IsPow24(pow24)
    ensures var f := LiteralTransfer(pow24);
            f(0.039285 * 255.0) < f(0.03928 * 255.0)
  {
    PowersAboveBend(Bent(0.039285));
    hide Power;
    LiteralFallsExactly(pow24, 0.03928 * 255.0, 0.039285 * 255.0);
  }

  lemma PowersAboveBend(a: real)
    requires a == 0.094285 / 1.055
    ensures Power(a, 12) < Power(0.03928 / 12.92, 5)
  {
  }

  /** Channels a hundredth of a unit apart never fall, so neither do whole ones, which are all that is parsed. */
  lemma ApartNeverFalls(pow24: real -> real, x: real, y: real)
    requires IsPow24(pow24) && 0.0 <= x && x + 0.01 <= y <= 255.0
    ensures LiteralTransfer(pow24)(x) < LiteralTransfer(pow24)(y)
  {
    LinearRises(pow24, x / 255.0, y / 255.0);
  }

  /** Between colours that `parseHex` yields the literal luminance grows with every channel. */
  lemma ParsedLuminanceGrows(pow24: real -> real, c: Rgb, d: Rgb)
    requires IsPow24(pow24) && InGamut(c) && InGamut(d) && Whole(c) && Whole(d) && Below(c, d)
    ensures IsTransfer(LiteralTransfer(pow24))
    ensures Luminance(LiteralTransfer(pow24), c) <= Luminance(LiteralTransfer(pow24), d)
    ensures c != d ==> Luminance(LiteralTransfer(pow24), c) < Luminance(LiteralTransfer(pow24), d)
  {
    hide IsPow24;
    LiteralIsTransfer(pow24);
    WholeChannels(pow24, c.r, d.r);
    WholeChannels(pow24, c.g, d.g);
    WholeChannels(pow24, c.b, d.b);
  }

  lemma WholeChannels(pow24: real -> real, x: real, y: real)
    requires IsPow24(pow24) && 0.0 <= x <= y <= 255.0 && Byte(Round(x)) == x && Byte(Round(y)) == y
    ensures LiteralTransfer(pow24)(x) <= LiteralTransfer(pow24)(y)
    ensures x < y ==> LiteralTransfer(pow24)(x) < LiteralTransfer(pow24)(y)
  {
    if x < y {
      WholeApart(x, y);
      hide Round;
      ApartNeverFalls(pow24, x, y);
    }
  }

  lemma WholeApart(x: real, y: real)
    requires x < y && Byte(Round(x)) == x && Byte(Round(y)) == y
    ensures x + 1.0 <= y
  {
    var m, n := Round(x), Round(y);
    hide Round;
    assert m as real == x && n as real == y;
    assert m < n;
  }

  /** The transfer of the channels of `#808080`. */
  lemma LiteralAtMiddleGrey(pow24: real -> real)
    requires IsPow24(pow24)
    ensures 0.2158 < LiteralTransfer(pow24)(128.0) < 0.2159
  {
    var a, low, high := Bent(128.0 / 255.0), 0.2158, 0.2159;
    PowersAtMiddleGrey(a, low, high);
    hide Power;
    PowBelow(pow24, a, low);
    PowBelow(pow24, a, high);
  }

  lemma PowersAtMiddleGrey(a: real, low: real, high: real)
    requires a == (128.0 / 255.0 + 0.055) / 1.055 && low == 0.2158 && high == 0.2159
    ensures Power(low, 5) < Power(a, 12) < Power(high, 5)
  {
  }
}
