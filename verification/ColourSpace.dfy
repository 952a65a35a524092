/**
 The conversions between RGB and HSL of apps/webui-static/colour.js, in exact arithmetic: they are
 inverse on every colour, and every channel grows with lightness.
 */
module ColourSpace {

  /** Channels from 0 to 255. */
  datatype Rgb = Rgb(r: real, g: real, b: real)

  datatype Hsl = Hsl(h: real, s: real, l: real)

  const BLACK := Rgb(0.0, 0.0, 0.0)
  const WHITE := Rgb(255.0, 255.0, 255.0)

  predicate InGamut(c: Rgb) {
    0.0 <= c.r <= 255.0 && 0.0 <= c.g <= 255.0 && 0.0 <= c.b <= 255.0
  }

  predicate Unit(x: real) {
    0.0 <= x <= 1.0
  }

  function Max(x: real, y: real): real {
    if x < y then y else x
  }

  function Min(x: real, y: real): real {
    if x < y then x else y
  }

  /** The saturation of a colour with extremes `max > min`. */
  function Saturation(max: real, min: real): real
    requires 0.0 <= min < max <= 1.0
  {
    if (max + min) / 2.0 > 0.5 then (max - min) / (2.0 - max - min) else (max - min) / (max + min)
  }

  function Hue(r: real, g: real, b: real, max: real, delta: real): real
    requires delta > 0.0
  {
    if max == r then ((g - b) / delta + (if g < b then 6.0 else 0.0)) / 6.0
    else if max == g then ((b - r) / delta + 2.0) / 6.0
    else ((r - g) / delta + 4.0) / 6.0
  }

  function RgbToHsl(c: Rgb): Hsl
    requires InGamut(c)
  {
    var r, g, b := c.r / 255.0, c.g / 255.0, c.b / 255.0;
    var max, min := Max(r, Max(g, b)), Min(r, Min(g, b));
    var l := (max + min) / 2.0;
    if max == min then Hsl(0.0, 0.0, l) else Hsl(Hue(r, g, b, max, max - min), Saturation(max, min), l)
  }

  /** The largest channel of a colour with saturation `s` and lightness `l`. */
  function Top(s: real, l: real): real {
    if l < 0.5 then l * (1.0 + s) else l + s - l * s
  }

  /** The smallest channel. */
  function Bottom(s: real, l: real): real {
    2.0 * l - Top(s, l)
  }

  function Wrap(t: real): real {
    var up := if t < 0.0 then t + 1.0 else t;
    if up > 1.0 then up - 1.0 else up
  }

  function Channel(p: real, q: real, t: real): real {
    var value := Wrap(t);
    if value < 1.0 / 6.0 then p + (q - p) * 6.0 * value
    else if value < 1.0 / 2.0 then q
    else if value < 2.0 / 3.0 then p + (q - p) * (2.0 / 3.0 - value) * 6.0
    else p
  }

  function HslToRgb(c: Hsl): Rgb {
    if c.s == 0.0 then Rgb(c.l * 255.0, c.l * 255.0, c.l * 255.0)
    else
      var q, p := Top(c.s, c.l), Bottom(c.s, c.l);
      Rgb(Channel(p, q, c.h + 1.0 / 3.0) * 255.0, Channel(p, q, c.h) * 255.0, Channel(p, q, c.h - 1.0 / 3.0) * 255.0)
  }

  // ---- The round trip ----

  lemma Quotient(x: real, y: real)
    requires y > 0.0
    ensures (x / y) * y == x && (-x) / y == -(x / y)
    ensures 0.0 <= x <= y ==> Unit(x / y)
    ensures x > 0.0 ==> x / y > 0.0
  {
    var k := x / y;
    if k > 1.0 { MulOrder(1.0, k, y); }
    if k <= 0.0 { MulOrder(k, 0.0, y); }
    if k <= 0.0 && x > 0.0 { MulOrder(k, 0.0, y); }
    assert (-k) * y == -x;
    Cancel((-x) / y, -k, y);
  }

  /** Saturation and lightness give the extremes back. */
  lemma ExtremesReturn(max: real, min: real)
    requires 0.0 <= min < max <= 1.0
    ensures var s, l := Saturation(max, min), (max + min) / 2.0;
            0.0 < s <= 1.0 && Top(s, l) == max && Bottom(s, l) == min
  {
    var s, l := Saturation(max, min), (max + min) / 2.0;
    var d := if l > 0.5 then 2.0 - max - min else max + min;
    Quotient(max - min, d);
    assert s * d == max - min;
    if l < 0.5 {
      assert l * (1.0 + s) == l + (s * d) / 2.0;
    } else {
      assert l + s - l * s == l + (s * d) / 2.0;
    }
  }

  /** How far a channel stands between the extremes, as a function of its place on the hue circle. */
  function Ramp(value: real): real {
    if value < 1.0 / 6.0 then 6.0 * value
    else if value < 1.0 / 2.0 then 1.0
    else if value < 2.0 / 3.0 then (2.0 / 3.0 - value) * 6.0
    else 0.0
  }

  /** The point that stands a fraction `k` of the way from `p` to `q`. */
  function Mix(p: real, q: real, k: real): real {
    p + (q - p) * k
  }

  lemma ChannelIsRamp(p: real, q: real, t: real)
    ensures Channel(p, q, t) == Mix(p, q, Ramp(Wrap(t)))
  {
    var value := Wrap(t);
    var d := q - p;
    assert d * 6.0 * value == d * (6.0 * value);
    assert d * (2.0 / 3.0 - value) * 6.0 == d * ((2.0 / 3.0 - value) * 6.0);
  }

  lemma RampUnit(t: real)
    requires -1.0 / 3.0 <= t <= 4.0 / 3.0
    ensures Unit(Ramp(Wrap(t)))
  {
  }

  /** The ramps of the three channels at a signed way `x` from the primary on which one of them is largest. */
  lemma RampsAround(h: real, x: real)
    requires -1.0 <= x <= 1.0
    ensures (h == (x + if x < 0.0 then 6.0 else 0.0) / 6.0) ==>
              Ramp(Wrap(h + 1.0 / 3.0)) == 1.0 && Ramp(Wrap(h)) == Max(x, 0.0) && Ramp(Wrap(h - 1.0 / 3.0)) == Max(-x, 0.0)
    ensures (h == (x + 2.0) / 6.0) ==>
              Ramp(Wrap(h)) == 1.0 && Ramp(Wrap(h - 1.0 / 3.0)) == Max(x, 0.0) && Ramp(Wrap(h + 1.0 / 3.0)) == Max(-x, 0.0)
    ensures (h == (x + 4.0) / 6.0) ==>
              Ramp(Wrap(h - 1.0 / 3.0)) == 1.0 && Ramp(Wrap(h + 1.0 / 3.0)) == Max(x, 0.0) && Ramp(Wrap(h)) == Max(-x, 0.0)
  {
  }

  /** Scaling the ramp of a difference gives the difference, or zero when it is negative. */
  lemma ScaledRamp(d: real, delta: real)
    requires -delta <= d <= delta && delta > 0.0
    ensures -1.0 <= d / delta <= 1.0 && (d < 0.0 <==> d / delta < 0.0)
    ensures delta * Max(d / delta, 0.0) == Max(d, 0.0) && delta * Max(-(d / delta), 0.0) == Max(-d, 0.0)
  {
    Quotient(d, delta);
    Quotient(-d, delta);
  }

  lemma ChannelFromRamp(p: real, q: real, t: real, v: real)
    requires (q - p) * Ramp(Wrap(t)) == v - p
    ensures Channel(p, q, t) == v
  {
    ChannelIsRamp(p, q, t);
  }

  lemma HueRamps(r: real, g: real, b: real, max: real, min: real)
    requires max == Max(r, Max(g, b)) && min == Min(r, Min(g, b)) && min < max
    ensures var h := Hue(r, g, b, max, max - min);
            && (max - min) * Ramp(Wrap(h + 1.0 / 3.0)) == r - min
            && (max - min) * Ramp(Wrap(h)) == g - min
            && (max - min) * Ramp(Wrap(h - 1.0 / 3.0)) == b - min
            && Unit(h)
  {
    var delta := max - min;
    var h := Hue(r, g, b, max, delta);
    var d := if max == r then g - b else if max == g then b - r else r - g;
    ScaledRamp(d, delta);
    RampsAround(h, d / delta);
  }

  lemma HueReturns(r: real, g: real, b: real, max: real, min: real)
    requires max == Max(r, Max(g, b)) && min == Min(r, Min(g, b)) && min < max
    ensures var h := Hue(r, g, b, max, max - min);
            && Channel(min, max, h + 1.0 / 3.0) == r && Channel(min, max, h) == g
            && Channel(min, max, h - 1.0 / 3.0) == b && Unit(h)
  {
    var h := Hue(r, g, b, max, max - min);
    HueRamps(r, g, b, max, min);
    ChannelFromRamp(min, max, h + 1.0 / 3.0, r);
    ChannelFromRamp(min, max, h, g);
    ChannelFromRamp(min, max, h - 1.0 / 3.0, b);
  }

  /** Converting to HSL and back is the identity on every colour. */
  lemma RoundTrip(c: Rgb)
    requires InGamut(c)
    ensures HslToRgb(RgbToHsl(c)) == c
    ensures var k := RgbToHsl(c); Unit(k.h) && Unit(k.s) && Unit(k.l)
  {
    var r, g, b := c.r / 255.0, c.g / 255.0, c.b / 255.0;
    var max, min := Max(r, Max(g, b)), Min(r, Min(g, b));
    if max != min {
      ExtremesReturn(max, min);
      HueReturns(r, g, b, max, min);
    }
  }

  /** The hues of the primaries, a third of the circle apart: the orientation that the round trip alone leaves open. */
  lemma HueOfPrimaries()
    ensures RgbToHsl(Rgb(255.0, 0.0, 0.0)) == Hsl(0.0, 1.0, 0.5)
    ensures RgbToHsl(Rgb(0.0, 255.0, 0.0)) == Hsl(1.0 / 3.0, 1.0, 0.5)
    ensures RgbToHsl(Rgb(0.0, 0.0, 255.0)) == Hsl(2.0 / 3.0, 1.0, 0.5)
  {
  }

  // ---- Lightness ----

  lemma MulOrder(x: real, y: real, k: real)
    requires x <= y && k >= 0.0
    ensures x * k <= y * k
  {
  }

  lemma Cancel(x: real, y: real, k: real)
    requires x * k == y * k && k != 0.0
    ensures x == y
  {
  }

  lemma NonNegative(x: real, y: real)
    requires x >= 0.0 && y >= 0.0
    ensures x * y >= 0.0
  {
  }

  /** How much an extreme with slope `1 + v` below the middle and `1 - v` above it grows between two lightnesses. */
  function Rise(v: real, l: real, l': real): real {
    if l' < 0.5 then (l' - l) * (1.0 + v)
    else if 0.5 <= l then (l' - l) * (1.0 - v)
    else (l' - 0.5) * (1.0 - v) + (0.5 - l) * (1.0 + v)
  }

  lemma RiseNonNegative(v: real, l: real, l': real)
    requires -1.0 <= v <= 1.0 && l <= l'
    ensures Rise(v, l, l') >= 0.0
  {
    if l' < 0.5 {
      NonNegative(l' - l, 1.0 + v);
    } else if 0.5 <= l {
      NonNegative(l' - l, 1.0 - v);
    } else {
      NonNegative(l' - 0.5, 1.0 - v);
      NonNegative(0.5 - l, 1.0 + v);
    }
  }

  lemma ExtremesRise(s: real, l: real, l': real)
    requires l <= l'
    ensures Top(s, l') - Top(s, l) == Rise(s, l, l')
    ensures Bottom(s, l') - Bottom(s, l) == Rise(-s, l, l')
  {
  }

  lemma ExtremesMonotone(s: real, l: real, l': real)
    requires Unit(s) && l <= l'
    ensures Top(s, l) <= Top(s, l') && Bottom(s, l) <= Bottom(s, l')
  {
    hide Rise, Top, Bottom;
    ExtremesRise(s, l, l');
    RiseNonNegative(s, l, l');
    RiseNonNegative(-s, l, l');
  }

  lemma ExtremesOrdered(s: real, l: real)
    requires Unit(s) && Unit(l)
    ensures Bottom(s, l) <= Top(s, l)
  {
    NonNegative(l, s);
    NonNegative(1.0 - l, s);
    assert Top(s, l) - Bottom(s, l) == 2.0 * if l < 0.5 then l * s else (1.0 - l) * s;
  }

  lemma ExtremesAtEnds(s: real)
    ensures Top(s, 0.0) == 0.0 && Bottom(s, 0.0) == 0.0
    ensures Top(s, 1.0) == 1.0 && Bottom(s, 1.0) == 1.0
  {
  }

  /** Both extremes grow with lightness, between 0 and 1. */
  lemma ExtremesGrow(s: real, l: real, l': real)
    requires Unit(s) && 0.0 <= l <= l' <= 1.0
    ensures Top(s, l) <= Top(s, l') && Bottom(s, l) <= Bottom(s, l')
    ensures 0.0 <= Bottom(s, l) <= Top(s, l) <= 1.0
  {
    ExtremesMonotone(s, l, l');
    ExtremesMonotone(s, 0.0, l);
    ExtremesMonotone(s, l, 1.0);
    ExtremesAtEnds(s);
    ExtremesOrdered(s, l);
  }

  /** A point between two extremes grows with both, and stays between them. */
  lemma MixGrows(p: real, q: real, p': real, q': real, k: real)
    requires p <= p' && q <= q' && Unit(k)
    ensures Mix(p, q, k) <= Mix(p', q', k)
  {
    NonNegative(p' - p, 1.0 - k);
    NonNegative(q' - q, k);
    assert (p' - p) * (1.0 - k) == p' - p - p' * k + p * k;
    assert (q' - q) * k == q' * k - q * k;
    assert (q - p) * k == q * k - p * k;
    assert (q' - p') * k == q' * k - p' * k;
  }

  lemma MixBetween(p: real, q: real, k: real)
    requires p <= q && Unit(k)
    ensures p <= Mix(p, q, k) <= q
  {
    NonNegative(q - p, k);
    NonNegative(q - p, 1.0 - k);
    assert (q - p) * (1.0 - k) == (q - p) - (q - p) * k;
  }

  predicate Below(c: Rgb, d: Rgb) {
    c.r <= d.r && c.g <= d.g && c.b <= d.b
  }

  /** For a fixed hue and saturation every channel grows with lightness and stays in gamut. */
  lemma ChannelsGrow(h: real, s: real, l: real, l': real)
    requires Unit(h) && Unit(s) && 0.0 <= l <= l' <= 1.0
    ensures Below(HslToRgb(Hsl(h, s, l)), HslToRgb(Hsl(h, s, l')))
    ensures InGamut(HslToRgb(Hsl(h, s, l)))
  {
    if s != 0.0 {
      ChannelGrows(h + 1.0 / 3.0, s, l, l');
      ChannelGrows(h, s, l, l');
      ChannelGrows(h - 1.0 / 3.0, s, l, l');
    }
  }

  lemma ChannelGrows(t: real, s: real, l: real, l': real)
    requires -1.0 / 3.0 <= t <= 4.0 / 3.0 && Unit(s) && 0.0 <= l <= l' <= 1.0
    ensures Channel(Bottom(s, l), Top(s, l), t) <= Channel(Bottom(s, l'), Top(s, l'), t)
    ensures Unit(Channel(Bottom(s, l), Top(s, l), t))
  {
    ExtremesGrow(s, l, l');
    RampUnit(t);
    MixedChannelGrows(Bottom(s, l), Top(s, l), Bottom(s, l'), Top(s, l'), t);
  }

  lemma MixedChannelGrows(p: real, q: real, p': real, q': real, t: real)
    requires p <= p' && p <= q <= q' && Unit(Ramp(Wrap(t)))
    ensures Channel(p, q, t) <= Channel(p', q', t) && p <= Channel(p, q, t) <= q
  {
    ChannelIsRamp(p, q, t);
    ChannelIsRamp(p', q', t);
    MixGrows(p, q, p', q', Ramp(Wrap(t)));
    MixBetween(p, q, Ramp(Wrap(t)));
  }

  /** Some two channels of `c` need `x` in all to become those of `d`. */
  predicate PairGains(c: Rgb, d: Rgb, x: real) {
    || (d.r - c.r) + (d.g - c.g) == x
    || (d.r - c.r) + (d.b - c.b) == x
    || (d.g - c.g) + (d.b - c.b) == x
  }

  /** Every hue has a channel at the top and one at the bottom. */
  lemma SomeRampsAreExtreme(h: real)
    requires Unit(h)
    ensures var a, b, c := Ramp(Wrap(h + 1.0 / 3.0)), Ramp(Wrap(h)), Ramp(Wrap(h - 1.0 / 3.0));
            && (a == 1.0 || b == 1.0 || c == 1.0)
            && (a == 0.0 || b == 0.0 || c == 0.0)
  {
  }

  lemma ChannelAtExtreme(p: real, q: real, t: real)
    ensures Ramp(Wrap(t)) == 1.0 ==> Channel(p, q, t) == q
    ensures Ramp(Wrap(t)) == 0.0 ==> Channel(p, q, t) == p
  {
    ChannelIsRamp(p, q, t);
  }

  /** Two channels stand at the extremes, whose sum is twice the lightness; between them they gain as much. */
  lemma ExtremesShareTheGain(h: real, s: real, l: real, l': real)
    requires Unit(h)
    ensures PairGains(HslToRgb(Hsl(h, s, l)), HslToRgb(Hsl(h, s, l')), 510.0 * (l' - l))
  {
    if s != 0.0 {
      hide Ramp, Wrap, Channel, Top;
      SomeRampsAreExtreme(h);
      forall t, x ensures Ramp(Wrap(t)) == 1.0 ==> Channel(Bottom(s, x), Top(s, x), t) == Top(s, x)
        ensures Ramp(Wrap(t)) == 0.0 ==> Channel(Bottom(s, x), Top(s, x), t) == Bottom(s, x)
      {
        ChannelAtExtreme(Bottom(s, x), Top(s, x), t);
      }
    }
  }

  /** When the extremes agree every channel is that extreme. */
  lemma FlatChannel(p: real, t: real)
    ensures Channel(p, p, t) == p
  {
    ChannelIsRamp(p, p, t);
    var ramp := Ramp(Wrap(t));
    assert (p - p) * ramp == p * ramp - p * ramp;
  }

  /** Lightness 0 is black and lightness 1 is white, whatever the hue and the saturation. */
  lemma LightnessEnds(h: real, s: real)
    ensures HslToRgb(Hsl(h, s, 0.0)) == BLACK
    ensures HslToRgb(Hsl(h, s, 1.0)) == WHITE
  {
    ExtremesAtEnds(s);
    forall p, t: real ensures Channel(p, p, t) == p { FlatChannel(p, t); }
  }

  // ---- The other round trip ----

  /** The hue that ramps stand for, read off their values as `Hue` reads it off the channels. */
  function HueOfRamps(a: real, b: real, c: real): real {
    if a == 1.0 then (b - c + if b < c then 6.0 else 0.0) / 6.0
    else if b == 1.0 then (c - a + 2.0) / 6.0
    else (a - b + 4.0) / 6.0
  }

  lemma RampsGiveHue(h: real)
    requires 0.0 <= h < 1.0
    ensures HueOfRamps(Ramp(Wrap(h + 1.0 / 3.0)), Ramp(Wrap(h)), Ramp(Wrap(h - 1.0 / 3.0))) == h
  {
  }

  lemma MixDifference(p: real, q: real, a: real, b: real)
    requires p < q
    ensures (Mix(p, q, a) - Mix(p, q, b)) / (q - p) == a - b
    ensures Mix(p, q, a) < Mix(p, q, b) <==> a < b
    ensures Mix(p, q, 1.0) == q && Mix(p, q, 0.0) == p
  {
    var d := q - p;
    assert Mix(p, q, a) - Mix(p, q, b) == d * a - d * b == (a - b) * d;
    Cancel((Mix(p, q, a) - Mix(p, q, b)) / d, a - b, d);
    if a < b { StrictOrder(a, b, d); }
    if b < a { StrictOrder(b, a, d); }
  }

  lemma StrictOrder(a: real, b: real, d: real)
    requires a < b && d > 0.0
    ensures a * d < b * d
  {
  }

  lemma HueOfMixes(p: real, q: real, a: real, b: real, c: real)
    requires p < q
    ensures Hue(Mix(p, q, a), Mix(p, q, b), Mix(p, q, c), q, q - p) == HueOfRamps(a, b, c)
  {
    MixDifference(p, q, a, b);
    MixDifference(p, q, b, c);
    MixDifference(p, q, c, a);
    MixDifference(p, q, a, 1.0);
    MixDifference(p, q, 1.0, a);
    MixDifference(p, q, b, 1.0);
    MixDifference(p, q, 1.0, b);
    hide Mix;
  }

  lemma ExtremesOfMixes(p: real, q: real, a: real, b: real, c: real)
    requires p < q && Unit(a) && Unit(b) && Unit(c)
    requires (a == 1.0 || b == 1.0 || c == 1.0) && (a == 0.0 || b == 0.0 || c == 0.0)
    ensures Max(Mix(p, q, a), Max(Mix(p, q, b), Mix(p, q, c))) == q
    ensures Min(Mix(p, q, a), Min(Mix(p, q, b), Mix(p, q, c))) == p
  {
    MixDifference(p, q, 1.0, 0.0);
    MixBetween(p, q, a);
    MixBetween(p, q, b);
    MixBetween(p, q, c);
    hide Mix;
  }

  /** The saturation of the extremes that a saturation gives. */
  lemma SaturationReturns(s: real, l: real)
    requires 0.0 < s <= 1.0 && 0.0 < l < 1.0
    ensures var q, p := Top(s, l), Bottom(s, l);
            0.0 <= p < q <= 1.0 && Saturation(q, p) == s && (q + p) / 2.0 == l
  {
    var q, p := Top(s, l), Bottom(s, l);
    ExtremesGrow(s, l, l);
    SpreadOfExtremes(s, l);
    hide Top, Bottom, Spread;
    QuotientOfSpread(s, if l > 0.5 then 1.0 - l else l);
  }

  function Spread(s: real, x: real): real {
    2.0 * (x * s)
  }

  lemma SpreadOfExtremes(s: real, l: real)
    ensures Top(s, l) + Bottom(s, l) == 2.0 * l
    ensures Top(s, l) - Bottom(s, l) == Spread(s, if l > 0.5 then 1.0 - l else l)
  {
    if l > 0.5 {
      assert (1.0 - l) * s == s - l * s;
    } else if l == 0.5 {
      assert (1.0 - l) * s == s - l * s;
    } else {
      assert l * (1.0 + s) == l + l * s;
    }
  }

  lemma QuotientOfSpread(s: real, x: real)
    requires 0.0 < s && 0.0 < x
    ensures Spread(s, x) > 0.0 && Spread(s, x) / (2.0 * x) == s
  {
    StrictOrder(0.0, s, x);
    assert Spread(s, x) == s * (2.0 * x);
    Cancel(Spread(s, x) / (2.0 * x), s, 2.0 * x);
  }

  /** Converting to RGB and back is the identity on every colour that has a hue. */
  lemma HslRoundTrip(k: Hsl)
    requires 0.0 <= k.h < 1.0 && 0.0 < k.s <= 1.0 && 0.0 < k.l < 1.0
    ensures InGamut(HslToRgb(k)) && RgbToHsl(HslToRgb(k)) == k
  {
    var q, p := Top(k.s, k.l), Bottom(k.s, k.l);
    var a, b, c := Ramp(Wrap(k.h + 1.0 / 3.0)), Ramp(Wrap(k.h)), Ramp(Wrap(k.h - 1.0 / 3.0));
    ChannelsGrow(k.h, k.s, k.l, k.l);
    RampsGiveHue(k.h);
    SomeRampsAreExtreme(k.h);
    RampUnit(k.h + 1.0 / 3.0);
    RampUnit(k.h);
    RampUnit(k.h - 1.0 / 3.0);
    SaturationReturns(k.s, k.l);
    ChannelIsRamp(p, q, k.h + 1.0 / 3.0);
    ChannelIsRamp(p, q, k.h);
    ChannelIsRamp(p, q, k.h - 1.0 / 3.0);
    hide Ramp, Wrap, Top, Channel, Mix, RgbToHsl;
    HslOfMixes(p, q, a, b, c);
  }

  lemma HslOfMixes(p: real, q: real, a: real, b: real, c: real)
    requires 0.0 <= p < q <= 1.0 && Unit(a) && Unit(b) && Unit(c)
    requires (a == 1.0 || b == 1.0 || c == 1.0) && (a == 0.0 || b == 0.0 || c == 0.0)
    ensures var k := Rgb(Mix(p, q, a) * 255.0, Mix(p, q, b) * 255.0, Mix(p, q, c) * 255.0);
            InGamut(k) && RgbToHsl(k) == Hsl(HueOfRamps(a, b, c), Saturation(q, p), (q + p) / 2.0)
  {
    MixBetween(p, q, a);
    MixBetween(p, q, b);
    MixBetween(p, q, c);
    ExtremesOfMixes(p, q, a, b, c);
    HueOfMixes(p, q, a, b, c);
    ScaledBack(Mix(p, q, a));
    ScaledBack(Mix(p, q, b));
    ScaledBack(Mix(p, q, c));
    hide Mix, Hue, HueOfRamps, Saturation;
  }

  lemma ScaledBack(x: real)
    ensures x * 255.0 / 255.0 == x
  {
  }

  /** A grey has no hue and no saturation. */
  lemma GreyRoundTrip(h: real, l: real)
    requires Unit(l)
    ensures InGamut(HslToRgb(Hsl(h, 0.0, l))) && RgbToHsl(HslToRgb(Hsl(h, 0.0, l))) == Hsl(0.0, 0.0, l)
  {
    ScaledBack(l);
  }

  /** The hue of a colour is never the whole circle, and a colour without saturation has hue 0. */
  lemma HueBelowOne(c: Rgb)
    requires InGamut(c)
    ensures 0.0 <= RgbToHsl(c).h < 1.0
    ensures if RgbToHsl(c).s == 0.0 then RgbToHsl(c).h == 0.0 else 0.0 < RgbToHsl(c).s <= 1.0
  {
    var r, g, b := c.r / 255.0, c.g / 255.0, c.b / 255.0;
    var max, min := Max(r, Max(g, b)), Min(r, Min(g, b));
    if max != min {
      var d := if max == r then g - b else if max == g then b - r else r - g;
      ScaledRamp(d, max - min);
      ExtremesReturn(max, min);
      hide Saturation;
    }
  }
}
