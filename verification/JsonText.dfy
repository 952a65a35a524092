/**
 JSON strings as `json.dumps` writes them by default (section 7 of RFC 8259, ASCII only): the escapes of
 quotation mark, reverse solidus and control characters, and `\u` escapes, in pairs above U+FFFF.
 */
module JsonText {
  import opened HexDigits
  import opened Options

  function Hex4(n: nat): (s: string)
    requires n < 0x1_0000
    ensures |s| == 4 && forall i :: 0 <= i < 4 ==> IsHexDigit(s[i])
  {
    [HexDigit(n / 0x1000), HexDigit(n / 0x100 % 16), HexDigit(n / 16 % 16), HexDigit(n % 16)]
  }

  function ReadHex4(s: string): Option<nat> {
    if |s| >= 4 && IsHexDigit(s[0]) && IsHexDigit(s[1]) && IsHexDigit(s[2]) && IsHexDigit(s[3]) then
      Some(0x1000 * HexValue(s[0]) + 0x100 * HexValue(s[1]) + 16 * HexValue(s[2]) + HexValue(s[3]))
    else None
  }

  function Escape(c: char): (s: string)
    ensures s != "" && s[0] != '"'
  {
    var n := c as int;
    if c == '"' then "\\\"" else if c == '\\' then "\\\\"
    else if c == '\n' then "\\n" else if c == '\r' then "\\r" else if c == '\t' then "\\t"
    else if n == 0x0C then "\\f" else if n == 0x08 then "\\b"
    else if ' ' <= c <= '~' then [c]
    else if n < 0x1_0000 then "\\u" + Hex4(n)
    else "\\u" + Hex4(High(n)) + "\\u" + Hex4(Low(n))
  }

  /** The surrogate pair of a scalar value above U+FFFF. */
  function High(n: int): (h: nat)
    requires 0x1_0000 <= n < 0x11_0000
    ensures 0xD800 <= h < 0xDC00
  {
    0xD800 + (n - 0x1_0000) / 0x400
  }

  function Low(n: int): (l: nat)
    requires 0x1_0000 <= n < 0x11_0000
    ensures 0xDC00 <= l < 0xE000
    ensures 0x1_0000 + (High(n) - 0xD800) * 0x400 + (l - 0xDC00) == n
  {
    0xDC00 + (n - 0x1_0000) % 0x400
  }

  function EscapeAll(s: string): string {
    if s == "" then "" else Escape(s[0]) + EscapeAll(s[1..])
  }

  function Quote(s: string): string {
    "\"" + EscapeAll(s) + "\""
  }

  predicate IsScalar(n: int) {
    0 <= n < 0xD800 || 0xE000 <= n < 0x11_0000
  }

  /** One character off the front of the inside of a JSON string. */
  function ReadChar(s: string): (r: Option<(char, string)>)
    ensures r.Some? ==> |r.value.1| < |s|
  {
    if s == "" || s[0] == '"' then None
    else if s[0] != '\\' then Some((s[0], s[1..]))
    else if |s| < 2 then None
    else if s[1] in {'"', '\\', '/'} then Some((s[1], s[2..]))
    else if s[1] == 'n' then Some(('\n', s[2..]))
    else if s[1] == 'r' then Some(('\r', s[2..]))
    else if s[1] == 't' then Some(('\t', s[2..]))
    else if s[1] == 'f' then Some((0x0C as char, s[2..]))
    else if s[1] == 'b' then Some((0x08 as char, s[2..]))
    else if s[1] != 'u' then None
    else
      var high := ReadHex4(s[2..]);
      if high.None? then None
      else if IsScalar(high.value) then Some((high.value as char, s[6..]))
      else if high.value >= 0xDC00 || |s| < 12 || s[6] != '\\' || s[7] != 'u' then None
      else
        var low := ReadHex4(s[8..]);
        if low.None? || !(0xDC00 <= low.value < 0xE000) then None
        else Some(((0x1_0000 + (high.value - 0xD800) * 0x400 + (low.value - 0xDC00)) as char, s[12..]))
  }

  function ReadChars(s: string): (r: Option<(string, string)>)
    ensures r.Some? ==> |r.value.1| < |s|
    decreases |s|
  {
    if s == "" then None
    else if s[0] == '"' then Some(("", s[1..]))
    else
      var first := ReadChar(s);
      if first.None? then None
      else
        var rest := ReadChars(first.value.1);
        if rest.None? then None else Some(([first.value.0] + rest.value.0, rest.value.1))
  }

  lemma Hex4Reads(n: nat, rest: string)
    requires n < 0x1_0000
    ensures ReadHex4(Hex4(n) + rest) == Some(n)
  {
    var s := Hex4(n) + rest;
    assert s[0] == Hex4(n)[0] && s[1] == Hex4(n)[1] && s[2] == Hex4(n)[2] && s[3] == Hex4(n)[3];
    assert n / 16 / 16 == n / 0x100 && n / 0x100 / 16 == n / 0x1000;
  }

  lemma UnitReads(n: nat, rest: string)
    requires IsScalar(n) && n < 0x1_0000
    ensures ReadChar("\\u" + Hex4(n) + rest) == Some((n as char, rest))
  {
    hide Hex4, ReadHex4;
    var s := "\\u" + Hex4(n) + rest;
    assert s[2..] == Hex4(n) + rest && s[6..] == rest;
    Hex4Reads(n, rest);
  }

  lemma PairReads(high: nat, low: nat, rest: string)
    requires 0xD800 <= high < 0xDC00 <= low < 0xE000
    ensures ReadChar("\\u" + Hex4(high) + "\\u" + Hex4(low) + rest)
         == Some(((0x1_0000 + (high - 0xD800) * 0x400 + (low - 0xDC00)) as char, rest))
  {
    hide Hex4, ReadHex4;
    var s := "\\u" + Hex4(high) + "\\u" + Hex4(low) + rest;
    assert s[2..] == Hex4(high) + ("\\u" + Hex4(low) + rest);
    assert s[8..] == Hex4(low) + rest && s[12..] == rest;
    assert s[0] == '\\' && s[1] == 'u' && s[6] == '\\' && s[7] == 'u';
    Hex4Reads(high, "\\u" + Hex4(low) + rest);
    Hex4Reads(low, rest);
  }

  /** Every escape reads back as its character, whatever follows. */
  lemma EscapeReads(c: char, rest: string)
    ensures ReadChar(Escape(c) + rest) == Some((c, rest))
  {
    hide Hex4, ReadHex4, High, Low;
    var n := c as int;
    var e := Escape(c);
    assert (e + rest)[|e|..] == rest;
    if e[0] == '\\' && e[1] == 'u' {
      if n < 0x1_0000 {
        UnitReads(n, rest);
      } else {
        PairReads(High(n), Low(n), rest);
      }
    }
  }

  /** The inside of a quoted string reads back up to its closing quotation mark. */
  lemma {:induction false} EscapesRead(t: string, rest: string)
    ensures ReadChars(EscapeAll(t) + "\"" + rest) == Some((t, rest))
  {
    var s := EscapeAll(t) + "\"" + rest;
    if t == "" {
      assert s == "\"" + rest && s[1..] == rest;
    } else {
      var tail := EscapeAll(t[1..]) + "\"" + rest;
      assert s == Escape(t[0]) + tail;
      EscapeReads(t[0], tail);
      EscapesRead(t[1..], rest);
      assert s[0] == Escape(t[0])[0];
      assert t == [t[0]] + t[1..];
    }
  }

  // ---- The text of a character is the only one of its kind ----

  predicate Printable(s: string) {
    forall i :: 0 <= i < |s| ==> ' ' <= s[i] <= '~'
  }

  /** No capital hexadecimal digit, except that a text of one character may be a letter. */
  predicate LowerCase(s: string) {
    |s| > 1 ==> forall i :: 0 <= i < |s| ==> !('A' <= s[i] <= 'F')
  }

  lemma EscapeForm(c: char)
    ensures Printable(Escape(c)) && LowerCase(Escape(c))
  {
    hide High, Low;
    var n := c as int;
    if n < 0x1_0000 {
      Hex4Form(n);
    } else {
      Hex4Form(High(n));
      Hex4Form(Low(n));
    }
    hide Hex4;
  }

  lemma Hex4Form(n: nat)
    requires n < 0x1_0000
    ensures Printable(Hex4(n)) && LowerCase(Hex4(n))
  {
    DigitForm(n / 0x1000);
    DigitForm(n / 0x100 % 16);
    DigitForm(n / 16 % 16);
    DigitForm(n % 16);
    hide HexDigit;
  }

  lemma DigitForm(d: nat)
    requires d < 16
    ensures ' ' <= HexDigit(d) <= '~' && !('A' <= HexDigit(d) <= 'F')
  {
  }

  lemma LowerDigit(c: char)
    requires IsHexDigit(c) && !('A' <= c <= 'F')
    ensures HexDigit(HexValue(c)) == c
  {
  }

  lemma Hex4OfRead(s: string)
    requires |s| == 4 && LowerCase(s) && ReadHex4(s).Some?
    ensures ReadHex4(s).value < 0x1_0000 && Hex4(ReadHex4(s).value) == s
  {
    var a, b, c, d := HexValue(s[0]), HexValue(s[1]), HexValue(s[2]), HexValue(s[3]);
    LowerDigit(s[0]);
    LowerDigit(s[1]);
    LowerDigit(s[2]);
    LowerDigit(s[3]);
    hide HexValue, HexDigit;
    var n := ReadHex4(s).value;
    DigitsOfNumber(a, b, c, d);
    assert Hex4(n) == [HexDigit(a), HexDigit(b), HexDigit(c), HexDigit(d)];
  }

  lemma DigitsOfNumber(a: nat, b: nat, c: nat, d: nat)
    requires a < 16 && b < 16 && c < 16 && d < 16
    ensures var n := 0x1000 * a + 0x100 * b + 16 * c + d;
            n < 0x1_0000 && n / 0x1000 == a && n / 0x100 % 16 == b && n / 16 % 16 == c && n % 16 == d
  {
    var n := 0x1000 * a + 0x100 * b + 16 * c + d;
    assert n / 0x100 == 16 * a + b && n / 16 == 256 * a + 16 * b + c;
  }

  /**
   Of all printable texts without capital digits that read as a character, its own is the shortest, and no other
   is as short. `json.dumps` writes that one.
   */
  lemma EscapeIsCanonical(c: char, e: string)
    requires Printable(e) && LowerCase(e) && ReadChar(e) == Some((c, ""))
    ensures |Escape(c)| < |e| || Escape(c) == e
  {
    LengthOfRead(e);
    hide *;
    if |e| <= 2 {
      ShortIsCanonical(c, e);
    } else if |e| == 6 {
      UnitIsCanonical(c, e);
    } else {
      PairIsCanonical(c, e);
    }
  }

  lemma LengthOfRead(e: string)
    requires ReadChar(e).Some? && ReadChar(e).value.1 == ""
    ensures |e| in {1, 2, 6, 12}
  {
    hide IsHexDigit, HexValue;
    assert |ReadChar(e).value.1| == 0;
  }

  lemma ShortIsCanonical(c: char, e: string)
    requires Printable(e) && |e| <= 2 && ReadChar(e) == Some((c, ""))
    ensures |Escape(c)| < |e| || Escape(c) == e
  {
    hide Hex4, High, Low, HexValue;
    assert |ReadChar(e).value.1| == 0;
    if |e| == 1 {
      assert e == [c] && ' ' <= e[0] <= '~';
    } else {
      assert e[0] == '\\';
      assert e == ['\\', e[1]];
    }
  }

  lemma UnitIsCanonical(c: char, e: string)
    requires LowerCase(e) && |e| == 6 && ReadChar(e) == Some((c, ""))
    ensures |Escape(c)| < |e| || Escape(c) == e
  {
    var s := e[2..];
    assert ReadHex4(s).Some? && ReadHex4(s).value == c as int;
    Hex4OfRead(s);
    hide Hex4, ReadHex4, High, Low;
    assert e == "\\u" + s;
  }

  lemma PairIsCanonical(c: char, e: string)
    requires LowerCase(e) && |e| > 6 && ReadChar(e) == Some((c, ""))
    ensures Escape(c) == e
  {
    PairParts(e);
    PairText(e);
    HexAt(e, 2);
    HexAt(e, 8);
    hide *;
    PairIsEscape(c, ReadHex4(e[2..]).value, ReadHex4(e[8..]).value);
  }

  lemma PairText(e: string)
    requires |e| == 12 && e[0] == e[6] == '\\' && e[1] == e[7] == 'u'
    ensures e == "\\u" + e[2..6] + "\\u" + e[8..12]
  {
  }

  lemma HexAt(e: string, i: nat)
    requires i + 4 <= |e| && LowerCase(e) && ReadHex4(e[i..]).Some?
    ensures ReadHex4(e[i..]).value < 0x1_0000 && Hex4(ReadHex4(e[i..]).value) == e[i..i + 4]
  {
    ReadHex4Prefix(e[i..]);
    assert e[i..][..4] == e[i..i + 4];
    hide ReadHex4, Hex4;
    Hex4OfRead(e[i..i + 4]);
  }

  lemma PairParts(e: string)
    requires |e| > 6 && ReadChar(e).Some? && ReadChar(e).value.1 == ""
    ensures |e| == 12 && e[0] == '\\' && e[1] == 'u' && e[6] == '\\' && e[7] == 'u'
    ensures ReadHex4(e[2..]).Some? && ReadHex4(e[8..]).Some?
    ensures var high, low := ReadHex4(e[2..]).value, ReadHex4(e[8..]).value;
            && 0xD800 <= high < 0xDC00 <= low < 0xE000
            && ReadChar(e).value.0 == (0x1_0000 + (high - 0xD800) * 0x400 + (low - 0xDC00)) as char
  {
    LengthOfRead(e);
    var high := ReadHex4(e[2..]);
    assert high.Some? ==> high.value < 0x1_0000;
    hide ReadHex4;
    assert |ReadChar(e).value.1| == 0;
  }

  lemma PairIsEscape(c: char, high: nat, low: nat)
    requires 0xD800 <= high < 0xDC00 <= low < 0xE000
    requires c == (0x1_0000 + (high - 0xD800) * 0x400 + (low - 0xDC00)) as char
    ensures Escape(c) == "\\u" + Hex4(high) + "\\u" + Hex4(low)
  {
    hide Hex4;
    assert High(c as int) == high && Low(c as int) == low;
  }

  lemma ReadHex4Prefix(s: string)
    requires |s| >= 4
    ensures ReadHex4(s) == ReadHex4(s[..4])
  {
  }

  /** A string is escaped character by character. */
  lemma {:induction false} EscapedByCharacter(s: string, t: string)
    ensures EscapeAll(s + t) == EscapeAll(s) + EscapeAll(t)
    ensures |s| == 1 ==> EscapeAll(s) == Escape(s[0])
  {
    if s == "" {
      assert s + t == t;
    } else {
      assert (s + t)[0] == s[0] && (s + t)[1..] == s[1..] + t;
      EscapedByCharacter(s[1..], t);
      hide Escape;
    }
  }
}
