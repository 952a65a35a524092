/**
 The readable relative of a colour (`deriveReadable`, apps/webui-static/colour.js:79-117): lightness moves away
 from the background a hundredth at a time until the target ratio is met or the end of the scale is reached.
 */
module Derive {
  import opened ColourSpace
  import opened Luminosity
  import opened Hex
  import opened SrgbTransfer
  import opened Options

  /** `met` is false exactly when the source adds `met: false`. */
  datatype Derived = Derived(hex: string, ratio: real, derived: bool, steps: nat, met: bool)

  const STEPS := 100

  /** Lighter on a dark background, darker on a light one. */
  function Direction(background: real): (d: real)
    ensures d == 1.0 || d == -1.0
  {
    if background < 0.5 then 1.0 else -1.0
  }

  /** The end of the lightness scale that the search moves towards. */
  function End(background: real): (c: Rgb)
    ensures InGamut(c)
  {
    if background < 0.5 then WHITE else BLACK
  }

  function StepLightness(l: real, direction: real, step: nat): (r: real)
    ensures Unit(r)
  {
    Max(0.0, Min(1.0, l + direction * (step as real * 0.01)))
  }

  /** The colour tried at a step; step 0 is the original. */
  function Candidate(c: Rgb, direction: real, step: nat): (r: Rgb)
    requires InGamut(c)
    ensures InGamut(r)
  {
    var k := RgbToHsl(c);
    var l := StepLightness(k.l, direction, step);
    RoundTrip(c);
    ChannelsGrow(k.h, k.s, l, l);
    if step == 0 then c else HslToRgb(Hsl(k.h, k.s, l))
  }

  function RatioAt(f: Transfer, c: Rgb, background: Rgb, step: nat): real
    requires InGamut(c) && InGamut(background)
  {
    Contrast(f, Candidate(c, Direction(Luminance(f, background)), step), background)
  }

  /** What the search promises: the first step that meets the target, or else the first best of all steps. */
  ghost predicate Outcome(f: Transfer, c: Rgb, background: Rgb, target: real, d: Derived)
    requires InGamut(c) && InGamut(background)
  {
    && d.steps <= STEPS
    && d.ratio == RatioAt(f, c, background, d.steps)
    && d.hex == ToHex(Candidate(c, Direction(Luminance(f, background)), d.steps))
    && (d.derived <==> RatioAt(f, c, background, 0) < target)
    && if d.met then
         d.ratio >= target && forall j :: 0 <= j < d.steps ==> RatioAt(f, c, background, j) < target
       else
         && (forall j :: 0 <= j <= STEPS ==> RatioAt(f, c, background, j) < target)
         && (forall j :: 0 <= j <= STEPS ==> RatioAt(f, c, background, j) <= d.ratio)
         && (forall j :: 0 <= j < d.steps ==> RatioAt(f, c, background, j) < d.ratio)
  }

  method DeriveReadable(f: Transfer, hex: string, backgroundHex: string, target: real) returns (r: Option<Derived>)
    ensures r.None? <==> ParseHex(hex).None? || ParseHex(backgroundHex).None?
    ensures r.Some? ==> Outcome(f, ParseHex(hex).value, ParseHex(backgroundHex).value, target, r.value)
  {
    var parsed, parsedBackground := ParseHex(hex), ParseHex(backgroundHex);
    if parsed.None? || parsedBackground.None? { return None; }
    var found := Search(f, parsed.value, parsedBackground.value, target);
    return Some(found);
  }

  method Search(f: Transfer, colour: Rgb, background: Rgb, target: real) returns (r: Derived)
    requires InGamut(colour) && InGamut(background)
    ensures Outcome(f, colour, background, target, r)
  {
    hide RgbToHsl, HslToRgb, Luminance, Ratio, ToHex;
    var original := Contrast(f, colour, background);
    if original >= target {
      return Derived(ToHex(colour), original, false, 0, true);
    }
    var direction := Direction(Luminance(f, background));
    var k := RgbToHsl(colour);
    ColourHasLightness(colour);
    var best := Derived(ToHex(colour), original, true, 0, false);
    var step := 1;
    while step <= STEPS
      invariant 1 <= step <= STEPS + 1 && best.steps < step && best.derived && !best.met
      invariant best.ratio == RatioAt(f, colour, background, best.steps)
      invariant best.hex == ToHex(Candidate(colour, direction, best.steps))
      invariant forall j :: 0 <= j < step ==> RatioAt(f, colour, background, j) < target
      invariant forall j :: 0 <= j < step ==> RatioAt(f, colour, background, j) <= best.ratio
      invariant forall j :: 0 <= j < best.steps ==> RatioAt(f, colour, background, j) < best.ratio
    {
      var lightness := StepLightness(k.l, direction, step);
      var candidate := HslToRgb(Hsl(k.h, k.s, lightness));
      assert candidate == Candidate(colour, direction, step);
      var ratio := Contrast(f, candidate, background);
      assert ratio == RatioAt(f, colour, background, step);
      if ratio > best.ratio {
        best := Derived(ToHex(candidate), ratio, true, step, false);
      }
      if ratio >= target {
        return Derived(ToHex(candidate), ratio, true, step, true);
      }
      if lightness == 0.0 || lightness == 1.0 {
        forall j | step < j <= STEPS ensures RatioAt(f, colour, background, j) == ratio {
          LightnessSaturates(k.l, direction, step, j);
        }
        break;
      }
      step := step + 1;
    }
    r := best;
  }

  // ---- The path of the search ----

  lemma ColourHasLightness(c: Rgb)
    requires InGamut(c)
    ensures Unit(RgbToHsl(c).l)
  {
    RoundTrip(c);
  }

  /** Once the end of the scale is reached further steps stay there. */
  lemma LightnessSaturates(l: real, direction: real, step: nat, j: nat)
    requires Unit(l) && 0 < step <= j && (direction == 1.0 || direction == -1.0)
    requires StepLightness(l, direction, step) == 0.0 || StepLightness(l, direction, step) == 1.0
    ensures StepLightness(l, direction, j) == StepLightness(l, direction, step)
  {
  }

  /** A hundred steps always reach the end of the scale. */
  lemma LastStepIsTheEnd(f: Transfer, c: Rgb, background: Rgb)
    requires InGamut(c) && InGamut(background)
    ensures RatioAt(f, c, background, STEPS) == Contrast(f, End(Luminance(f, background)), background)
  {
    hide RgbToHsl, HslToRgb, Luminance, Ratio;
    var k := RgbToHsl(c);
    ColourHasLightness(c);
    LightnessEnds(k.h, k.s);
  }

  /** Every candidate, the original included, is the original's hue and saturation at its own lightness. */
  lemma CandidateOnPath(c: Rgb, direction: real, step: nat)
    requires InGamut(c)
    ensures var k := RgbToHsl(c);
            Candidate(c, direction, step) == HslToRgb(Hsl(k.h, k.s, StepLightness(k.l, direction, step)))
  {
    hide RgbToHsl, HslToRgb;
    RoundTrip(c);
    var k := RgbToHsl(c);
    if step == 0 {
      assert direction * (0 as real * 0.01) == 0.0;
      assert StepLightness(k.l, direction, 0) == k.l;
      assert k == Hsl(k.h, k.s, k.l);
    }
  }

  lemma HundredthsAway(l: real, direction: real, step: nat)
    requires direction == 1.0 || direction == -1.0
    ensures StepLightness(l, direction, step) == Max(0.0, Min(1.0, l + direction * (step as real / 100.0)))
  {
    assert step as real * 0.01 == step as real / 100.0;
    if direction == 1.0 {
      assert direction * (step as real * 0.01) == step as real / 100.0;
    } else {
      assert direction * (step as real * 0.01) == -(step as real / 100.0);
    }
  }

  /**
   What every step tries, in terms of the colour alone: its hue and its saturation at a lightness as many
   hundredths away as there were steps, and white or black from where the scale ends.
   */
  lemma CandidateExactly(c: Rgb, direction: real, step: nat)
    requires InGamut(c) && (direction == 1.0 || direction == -1.0)
    ensures var k := RgbToHsl(c);
            var l := k.l + direction * (step as real / 100.0);
            if l <= 0.0 then Candidate(c, direction, step) == BLACK
            else if l >= 1.0 then Candidate(c, direction, step) == WHITE
            else RgbToHsl(Candidate(c, direction, step)) == Hsl(k.h, k.s, l)
  {
    hide RgbToHsl, HslToRgb, Candidate, StepLightness;
    var k := RgbToHsl(c);
    CandidateOnPath(c, direction, step);
    HueBelowOne(c);
    HundredthsAway(k.l, direction, step);
    var l := k.l + direction * (step as real / 100.0);
    AtLightness(k, l, Candidate(c, direction, step));
  }

  lemma AtLightness(k: Hsl, l: real, c: Rgb)
    requires 0.0 <= k.h < 1.0 && (if k.s == 0.0 then k.h == 0.0 else 0.0 < k.s <= 1.0)
    requires InGamut(c) && c == HslToRgb(Hsl(k.h, k.s, Max(0.0, Min(1.0, l))))
    ensures if l <= 0.0 then c == BLACK else if l >= 1.0 then c == WHITE else RgbToHsl(c) == Hsl(k.h, k.s, l)
  {
    hide RgbToHsl, HslToRgb;
    LightnessEnds(k.h, k.s);
    if 0.0 < l < 1.0 {
      if k.s == 0.0 { GreyRoundTrip(k.h, l); } else { HslRoundTrip(Hsl(k.h, k.s, l)); }
    }
  }

  /** A hundredth of lightness gains more luminance than a transfer may lose. */
  lemma LighterIsBrighter(f: Transfer, h: real, s: real, l: real, l': real)
    requires Unit(h) && Unit(s) && 0.0 <= l && l + 0.01 <= l' <= 1.0
    ensures InGamut(HslToRgb(Hsl(h, s, l))) && InGamut(HslToRgb(Hsl(h, s, l')))
    ensures Luminance(f, HslToRgb(Hsl(h, s, l))) <= Luminance(f, HslToRgb(Hsl(h, s, l')))
  {
    hide HslToRgb, Luminance, Weighted;
    var c, d := HslToRgb(Hsl(h, s, l)), HslToRgb(Hsl(h, s, l'));
    ChannelsGrow(h, s, l, l');
    ChannelsGrow(h, s, l', l');
    ExtremesShareTheGain(h, s, l, l');
    WeightedGain(c, d, 510.0 * (l' - l));
    var slope, drop :| 0.0 <= drop <= slope / 4.0 && Rises(f, slope, drop);
    LuminanceRises(f, slope, drop, c, d);
    GainGrows(slope, 0.25, Weighted(d) - Weighted(c));
  }

  lemma GainGrows(slope: real, way: real, way': real)
    requires slope >= 0.0 && way <= way'
    ensures Gain(slope, way) <= Gain(slope, way')
    ensures Gain(slope, 0.25) == slope / 4.0
  {
    NonNegative(slope, way' - way);
  }

  /** Two lightnesses of the search differ by a hundredth or more, unless they are the same or the later is the end. */
  lemma LightnessesApart(l: real, direction: real, j: nat, k: nat)
    requires Unit(l) && j <= k && (direction == 1.0 || direction == -1.0)
    ensures var a, b := StepLightness(l, direction, j), StepLightness(l, direction, k);
            || j == k
            || (direction == 1.0 && (b == 1.0 || a + 0.01 <= b))
            || (direction == -1.0 && (b == 0.0 || b + 0.01 <= a))
  {
    if j < k {
      assert k as real >= j as real + 1.0;
    }
  }

  /** Along the search luminance only moves away from the background's side of the scale. */
  lemma LuminanceAlongPath(f: Transfer, c: Rgb, background: real, j: nat, k: nat)
    requires InGamut(c) && j <= k
    ensures var x := Luminance(f, Candidate(c, Direction(background), j));
            var y := Luminance(f, Candidate(c, Direction(background), k));
            if background < 0.5 then x <= y else y <= x
  {
    hide RgbToHsl, HslToRgb, Luminance, StepLightness;
    var d := Direction(background);
    var hsl := RgbToHsl(c);
    RoundTrip(c);
    CandidateOnPath(c, d, j);
    CandidateOnPath(c, d, k);
    LightnessEnds(hsl.h, hsl.s);
    LuminanceEnds(f);
    LightnessesApart(hsl.l, d, j, k);
    var l, l' := StepLightness(hsl.l, d, j), StepLightness(hsl.l, d, k);
    if l + 0.01 <= l' {
      LighterIsBrighter(f, hsl.h, hsl.s, l, l');
    } else if l' + 0.01 <= l {
      LighterIsBrighter(f, hsl.h, hsl.s, l', l);
    }
  }

  /** No step does better than both the original and the last one. */
  lemma BestIsAtAnEnd(f: Transfer, c: Rgb, background: Rgb, step: nat)
    requires InGamut(c) && InGamut(background) && step <= STEPS
    ensures RatioAt(f, c, background, step) <= Max(RatioAt(f, c, background, 0), RatioAt(f, c, background, STEPS))
  {
    hide RgbToHsl, HslToRgb, Luminance, Ratio, Candidate;
    var y := Luminance(f, background);
    LuminanceAlongPath(f, c, y, 0, step);
    LuminanceAlongPath(f, c, y, step, STEPS);
    RatioLargestAtAnEnd(
      Luminance(f, Candidate(c, Direction(y), 0)), Luminance(f, Candidate(c, Direction(y), step)),
      Luminance(f, Candidate(c, Direction(y), STEPS)), y);
  }

  /** The ratio that the end of the search's direction reaches. */
  function EndRatio(f: Transfer, background: Rgb): real
    requires InGamut(background)
  {
    Contrast(f, End(Luminance(f, background)), background)
  }

  /**
   `met: false` is returned exactly when both the original and the white or black end of its direction miss the
   target; the ratio returned with it is then the better of those two.
   */
  lemma NotMetExactly(f: Transfer, c: Rgb, background: Rgb, target: real, d: Derived)
    requires InGamut(c) && InGamut(background) && Outcome(f, c, background, target, d)
    ensures !d.met <==> Contrast(f, c, background) < target && EndRatio(f, background) < target
    ensures !d.met ==> d.ratio == Max(Contrast(f, c, background), EndRatio(f, background))
  {
    hide RgbToHsl, HslToRgb, Luminance, Ratio, ToHex;
    LastStepIsTheEnd(f, c, background);
    BestIsAtAnEnd(f, c, background, d.steps);
    assert RatioAt(f, c, background, 0) == Contrast(f, c, background);
    assert RatioAt(f, c, background, STEPS) == EndRatio(f, background);
  }

  /** The answer is decided by the promise: two results for the same request agree in every field. */
  lemma OutcomeIsUnique(f: Transfer, c: Rgb, background: Rgb, target: real, d: Derived, e: Derived)
    requires InGamut(c) && InGamut(background)
    requires Outcome(f, c, background, target, d) && Outcome(f, c, background, target, e)
    ensures d == e
  {
    hide RgbToHsl, HslToRgb, Luminance, Ratio, ToHex, RatioAt, Candidate;
    assert d.steps == e.steps;
  }

  // ---- The target of success criterion 1.4.3 ----

  /** Whether an end reads at 4.5 depends on the luminance of the background alone. */
  lemma EndsAtTarget(f: Transfer, background: Rgb)
    requires InGamut(background)
    ensures var y := Luminance(f, background);
            && (Contrast(f, WHITE, background) >= 4.5 <==> y <= 11.0 / 60.0)
            && (Contrast(f, BLACK, background) >= 4.5 <==> y >= 7.0 / 40.0)
  {
    hide Luminance;
    var y := Luminance(f, background);
    LuminanceEnds(f);
    RatioMeets(1.0, y, 4.5);
    RatioMeets(0.0, y, 4.5);
  }

  /** At 4.5 the search fails exactly on colours that miss against a background between 11/60 and 1/2. */
  lemma NotMetAtTarget(f: Transfer, c: Rgb, background: Rgb, d: Derived)
    requires InGamut(c) && InGamut(background) && Outcome(f, c, background, 4.5, d)
    ensures !d.met <==> Contrast(f, c, background) < 4.5 && 11.0 / 60.0 < Luminance(f, background) < 0.5
  {
    hide RgbToHsl, HslToRgb, Luminance, Ratio, ToHex;
    NotMetExactly(f, c, background, 4.5, d);
    EndsAtTarget(f, background);
  }

  /**
   Whenever the search fails at 4.5 the other direction would have succeeded: it always goes towards white there,
   and black reads. So the ceiling of colour.js:113-114 is never one "in either direction".
   */
  lemma OtherDirectionReads(f: Transfer, c: Rgb, background: Rgb, d: Derived)
    requires InGamut(c) && InGamut(background) && Outcome(f, c, background, 4.5, d) && !d.met
    ensures End(Luminance(f, background)) == WHITE && Contrast(f, BLACK, background) > 4.5
  {
    hide RgbToHsl, HslToRgb, Luminance, Ratio, ToHex;
    NotMetAtTarget(f, c, background, d);
    EndsAtTarget(f, background);
    WhiteOrBlackReads(Luminance(f, background));
    LuminanceEnds(f);
  }

  const GREY := Rgb(128.0, 128.0, 128.0)

  /** White on a grey whose transfer value is above 11/60 and below 1/2 misses in the only direction tried. */
  lemma WhiteOnGrey(f: Transfer, d: Derived)
    requires 11.0 / 60.0 < f(128.0) < 0.5 && Outcome(f, WHITE, GREY, 4.5, d)
    ensures !d.met && d.ratio == 1.05 / (f(128.0) + 0.05) && d.ratio < 4.5
  {
    hide RgbToHsl, HslToRgb, ToHex;
    assert Luminance(f, GREY) == f(128.0);
    EndsAtTarget(f, GREY);
    NotMetExactly(f, WHITE, GREY, 4.5, d);
    LuminanceEnds(f);
  }

  /** The failure is real: with the literal transfer, white asked for on `#808080` comes back with `met: false`. */
  lemma FailureHappens(pow24: real -> real, d: Derived)
    requires IsPow24(pow24)
    ensures ParseHex("#ffffff") == Some(WHITE) && ParseHex("#808080") == Some(GREY)
    ensures IsTransfer(LiteralTransfer(pow24))
    ensures Outcome(LiteralTransfer(pow24), WHITE, GREY, 4.5, d) ==> !d.met && 3.94 < d.ratio < 3.96
  {
    hide LiteralTransfer, IsPow24, Outcome, ParseHex, ToHex, IsTransfer;
    LiteralIsTransfer(pow24);
    LiteralAtMiddleGrey(pow24);
    TextOfExtremes();
    if Outcome(LiteralTransfer(pow24), WHITE, GREY, 4.5, d) {
      WhiteOnGrey(LiteralTransfer(pow24), d);
      RatioOnGrey(LiteralTransfer(pow24)(128.0));
    }
  }

  lemma RatioOnGrey(y: real)
    requires 0.2158 < y < 0.2159
    ensures 3.94 < 1.05 / (y + 0.05) < 3.96
  {
    var k := 1.05 / (y + 0.05);
    assert k * (y + 0.05) == 1.05;
    if k <= 3.94 { MulOrder(k, 3.94, y + 0.05); }
    if k >= 3.96 { MulOrder(3.96, k, y + 0.05); }
  }

  lemma TextOfExtremes()
    ensures ParseHex("#ffffff") == Some(WHITE) && ParseHex("#808080") == Some(GREY)
  {
    assert Byte(255) == 255.0 && Byte(128) == 128.0;
    hide Round;
    assert ShowChannel(255.0) == "ff" && ShowChannel(128.0) == "80";
    hide ShowChannel, ParseHex;
    assert ToHex(WHITE) == "#ffffff" && ToHex(GREY) == "#808080";
    ShownColourParses(WHITE);
    ShownColourParses(GREY);
  }
}
