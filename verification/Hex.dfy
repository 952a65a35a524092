/** Colours as text: `parseHex` and `toHex` of apps/webui-static/colour.js:14-31. */
module Hex {
  import opened ColourSpace
  import opened HexDigits
  import opened Options
  import opened Text

  /** `Math.round` (section 21.3.2.28 of ECMA-262), clamped to a byte. */
  function Round(v: real): (n: nat)
    ensures n < 256
  {
    var n := (v + 0.5).Floor;
    if n < 0 then 0 else if n > 255 then 255 else n
  }

  /** The nearest whole number, the larger of two that are equally near, within the byte. */
  lemma RoundIsNearest(v: real)
    ensures 0.0 <= v <= 255.0 ==> Round(v) as real - 0.5 <= v < Round(v) as real + 0.5
    ensures (v < 0.0 ==> Round(v) == 0) && (v > 255.0 ==> Round(v) == 255)
  {
  }

  function Byte(n: nat): (v: real)
    requires n < 256
    ensures 0.0 <= v <= 255.0 && Round(v) == n
  {
    n as real
  }

  /** The nearest colour with whole channels. */
  function Rounded(c: Rgb): Rgb {
    Rgb(Byte(Round(c.r)), Byte(Round(c.g)), Byte(Round(c.b)))
  }

  predicate Whole(c: Rgb) {
    Rounded(c) == c
  }

  function ParseHex(value: string): (c: Option<Rgb>)
    ensures c.Some? ==> InGamut(c.value) && Whole(c.value)
  {
    var trimmed := Trim(value);
    var hex := if trimmed != "" && trimmed[0] == '#' then trimmed[1..] else trimmed;
    if hex == "" || exists i :: 0 <= i < |hex| && !IsHexDigit(hex[i]) then None
    else if |hex| == 3 then
      Some(Rgb(Byte(Pair(hex[0], hex[0])), Byte(Pair(hex[1], hex[1])), Byte(Pair(hex[2], hex[2]))))
    else if |hex| == 6 || |hex| == 8 then
      Some(Rgb(Byte(Pair(hex[0], hex[1])), Byte(Pair(hex[2], hex[3])), Byte(Pair(hex[4], hex[5]))))
    else None
  }

  function ShowChannel(v: real): string {
    [HexDigit(Round(v) / 16), HexDigit(Round(v) % 16)]
  }

  function ToHex(c: Rgb): string {
    "#" + ShowChannel(c.r) + ShowChannel(c.g) + ShowChannel(c.b)
  }

  /** What `toHex` prints, `parseHex` reads as the nearest colour with whole channels. */
  lemma ShownColourParses(c: Rgb)
    ensures ParseHex(ToHex(c)) == Some(Rounded(c))
  {
    var s := ToHex(c);
    assert s == ['#', HexDigit(Round(c.r) / 16), HexDigit(Round(c.r) % 16), HexDigit(Round(c.g) / 16),
                 HexDigit(Round(c.g) % 16), HexDigit(Round(c.b) / 16), HexDigit(Round(c.b) % 16)];
    HexIsNotSpace(s[6]);
    TrimKeeps(s);
    assert |s[1..]| == 6 && forall i :: 0 <= i < 6 ==> IsHexDigit(s[1..][i]);
  }

  lemma HexIsNotSpace(c: char)
    requires IsHexDigit(c)
    ensures !IsSpace(c)
  {
  }

  /** A parsed colour prints as the same colour: parsing again changes nothing. */
  lemma ParsedColourShows(value: string)
    requires ParseHex(value).Some?
    ensures ParseHex(ToHex(ParseHex(value).value)) == ParseHex(value)
  {
    ShownColourParses(ParseHex(value).value);
  }

  /** Three digits stand for each digit doubled, and the alpha of eight digits is not looked at. */
  lemma ShortAndAlphaForms(h: string)
    requires forall i :: 0 <= i < |h| ==> IsHexDigit(h[i])
    ensures |h| == 3 ==> ParseHex(h) == ParseHex([h[0], h[0], h[1], h[1], h[2], h[2]]) && ParseHex(h).Some?
    ensures |h| == 8 ==> ParseHex(h) == ParseHex(h[..6]) && ParseHex(h).Some?
    ensures |h| !in {3, 6, 8} ==> ParseHex(h).None?
  {
    hide IsSpace;
    HexTrims(h);
    if |h| == 3 { HexTrims([h[0], h[0], h[1], h[1], h[2], h[2]]); }
    if |h| == 8 { HexTrims(h[..6]); }
  }

  lemma HexTrims(h: string)
    requires forall i :: 0 <= i < |h| ==> IsHexDigit(h[i])
    ensures Trim(h) == h
  {
    if h != "" {
      HexIsNotSpace(h[0]);
      HexIsNotSpace(h[|h| - 1]);
    }
    TrimKeeps(h);
  }

  /** The channels by place: red first, blue last, the higher digit first. */
  lemma ChannelsByPlace()
    ensures ParseHex("#123456") == Some(Rgb(18.0, 52.0, 86.0))
    ensures ToHex(Rgb(18.0, 52.0, 86.0)) == "#123456"
  {
    var c := Rgb(18.0, 52.0, 86.0);
    ShownDigits(18);
    ShownDigits(52);
    ShownDigits(86);
    hide ShowChannel, ParseHex, Round, Rounded;
    assert ToHex(c) == "#123456";
    ShownColourParses(c);
    assert Rounded(c) == c by { RoundedWhole(c); }
  }

  lemma RoundedWhole(c: Rgb)
    requires Byte(Round(c.r)) == c.r && Byte(Round(c.g)) == c.g && Byte(Round(c.b)) == c.b
    ensures Rounded(c) == c
  {
  }

  lemma ShownDigits(n: nat)
    requires n < 256
    ensures ShowChannel(n as real) == [HexDigit(n / 16), HexDigit(n % 16)]
    ensures Byte(Round(n as real)) == n as real
  {
    assert Byte(n) == n as real;
    hide Round;
  }
}
