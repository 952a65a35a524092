/** Text primitives shared by the models: decimal numerals and whitespace trimming. */
module Text {

  /** The decimal digit `0` <= d < 10 as a character. */
  function DigitChar(d: nat): (c: char)
    requires d < 10
    ensures IsDigit(c) && DigitValue(c) == d
  {
    '0' + d as char
  }

  predicate IsDigit(c: char) {
    '0' <= c <= '9'
  }

  function DigitValue(c: char): (d: nat)
    requires IsDigit(c)
    ensures d < 10 && '0' + d as char == c
  {
    (c - '0') as nat
  }

  predicate AllDigits(s: string) {
    forall i :: 0 <= i < |s| ==> IsDigit(s[i])
  }

  /** The value a numeral denotes; `Number(s)` on a string of digits. */
  function Value(s: string): nat
    requires AllDigits(s)
  {
    if s == [] then 0 else 10 * Value(s[..|s| - 1]) + DigitValue(s[|s| - 1])
  }

  /** The shortest numeral of `n`: no leading zero, except for `0` itself. */
  function Numeral(n: nat): (s: string)
    ensures s != [] && AllDigits(s) && Value(s) == n
    ensures n > 0 ==> s[0] != '0'
    ensures |s| == 1 <==> n < 10
  {
    if n < 10 then
      var s := [DigitChar(n)];
      assert s[..0] == [] && Value([]) == 0;
      s
    else
      var s := Numeral(n / 10) + [DigitChar(n % 10)];
      assert s[..|s| - 1] == Numeral(n / 10);
      s
  }

  /** The numeral padded to two digits, as the `2-digit` option prints it. */
  function TwoDigits(n: nat): (s: string)
    requires n < 100
    ensures |s| == 2 && AllDigits(s) && Value(s) == n
  {
    var s := [DigitChar(n / 10), DigitChar(n % 10)];
    assert s[..1] == [DigitChar(n / 10)] && s[..1][..0] == [] && Value([]) == 0;
    assert Value(s[..1]) == n / 10;
    s
  }

  /** Numerals of one length denote equal numbers only when they are equal. */
  lemma {:induction false} ValueInjective(s: string, t: string)
    requires AllDigits(s) && AllDigits(t) && |s| == |t|
    requires Value(s) == Value(t)
    ensures s == t
  {
    if s != [] {
      var m := |s| - 1;
      assert DigitValue(s[m]) == DigitValue(t[m]);
      ValueInjective(s[..m], t[..m]);
      assert s == s[..m] + [s[m]] && t == t[..m] + [t[m]];
    }
  }

  /** The length of the run of digits that `s` starts with. */
  function DigitRun(s: string): (n: nat)
    ensures n <= |s| && AllDigits(s[..n])
    ensures n < |s| ==> !IsDigit(s[n])
  {
    if s == "" || !IsDigit(s[0]) then 0
    else
      var n := DigitRun(s[1..]) + 1;
      assert s[..n] == [s[0]] + s[1..][..n - 1];
      n
  }

  /** What may follow a numeral without prolonging it. */
  predicate Stops(rest: string) {
    rest == "" || !IsDigit(rest[0])
  }

  lemma {:induction false} DigitRunOf(digits: string, rest: string)
    requires AllDigits(digits) && Stops(rest)
    ensures DigitRun(digits + rest) == |digits|
  {
    if digits == "" {
      assert digits + rest == rest;
    } else {
      assert (digits + rest)[1..] == digits[1..] + rest;
      DigitRunOf(digits[1..], rest);
    }
  }

  /** The white space and line terminators `String.prototype.trim` removes (section 22.1.3.32 of ECMA-262). */
  predicate IsSpace(c: char) {
    c in {'\t', '\n', '\U{000B}', '\U{000C}', '\r', ' ', '\U{00A0}', '\U{1680}', '\U{2028}', '\U{2029}',
          '\U{202F}', '\U{205F}', '\U{3000}', '\U{FEFF}'}
    || '\U{2000}' <= c <= '\U{200A}'
  }

  /** The same set by code point. */
  lemma SpacesByCodePoint(c: char)
    ensures var n := c as int;
            IsSpace(c) <==> 0x09 <= n <= 0x0D || n in {0x20, 0xA0, 0x1680, 0x2028, 0x2029, 0x202F, 0x205F, 0x3000, 0xFEFF}
                            || 0x2000 <= n <= 0x200A
  {
  }

  function TrimStart(s: string): (r: string)
    ensures r == [] || !IsSpace(r[0])
  {
    if s == [] || !IsSpace(s[0]) then s else TrimStart(s[1..])
  }

  function TrimEnd(s: string): (r: string)
    ensures r <= s
    ensures r == [] || !IsSpace(r[|r| - 1])
  {
    if s == [] || !IsSpace(s[|s| - 1]) then s else TrimEnd(s[..|s| - 1])
  }

  /** `String.prototype.trim`. */
  function Trim(s: string): (r: string)
    ensures r == [] || (!IsSpace(r[0]) && !IsSpace(r[|r| - 1]))
  {
    var t := TrimEnd(TrimStart(s));
    assert t == [] || t[0] == TrimStart(s)[0];
    t
  }

  /** Text that neither starts nor ends with space is left alone. */
  lemma TrimKeeps(s: string)
    requires s == [] || (!IsSpace(s[0]) && !IsSpace(s[|s| - 1]))
    ensures Trim(s) == s
  {
  }

  /** Trimming removes characters; it keeps the text only when it keeps its length. */
  lemma TrimShortens(s: string)
    ensures |Trim(s)| <= |s|
    ensures |Trim(s)| == |s| ==> Trim(s) == s
  {
    TrimStartShortens(s);
  }

  lemma {:induction false} TrimStartShortens(s: string)
    ensures |TrimStart(s)| <= |s|
    ensures |TrimStart(s)| == |s| ==> TrimStart(s) == s
  {
    if s != [] && IsSpace(s[0]) {
      TrimStartShortens(s[1..]);
    }
  }

  predicate AllSpace(s: string) {
    forall i :: 0 <= i < |s| ==> IsSpace(s[i])
  }

  /** Trimming takes space off both ends and nothing else. */
  lemma TrimExactly(s: string)
    ensures exists before, after :: s == before + Trim(s) + after && AllSpace(before) && AllSpace(after)
  {
    var before := SpaceBefore(s);
    var after := SpaceAfter(TrimStart(s));
    assert s == before + Trim(s) + after;
  }

  lemma {:induction false} SpaceBefore(s: string) returns (before: string)
    ensures s == before + TrimStart(s) && AllSpace(before)
  {
    before := "";
    if s != "" && IsSpace(s[0]) {
      var rest := SpaceBefore(s[1..]);
      before := [s[0]] + rest;
    }
  }

  lemma {:induction false} SpaceAfter(s: string) returns (after: string)
    ensures s == TrimEnd(s) + after && AllSpace(after)
  {
    after := "";
    if s != "" && IsSpace(s[|s| - 1]) {
      var rest := SpaceAfter(s[..|s| - 1]);
      after := rest + [s[|s| - 1]];
    }
  }

  lemma ValueOfTwo(s: string)
    requires |s| == 2 && AllDigits(s)
    ensures Value(s) == 10 * DigitValue(s[0]) + DigitValue(s[1])
  {
    assert s[..1] == [s[0]] && s[..1][..0] == [];
    assert Value(s[..1]) == DigitValue(s[0]);
  }

  lemma ValueOfFour(s: string)
    requires |s| == 4 && AllDigits(s)
    ensures Value(s) == 1000 * DigitValue(s[0]) + 100 * DigitValue(s[1]) + 10 * DigitValue(s[2]) + DigitValue(s[3])
  {
    ValueOfTwo(s[..2]);
    assert s[..3][..2] == s[..2];
    assert Value(s[..3]) == 10 * Value(s[..2]) + DigitValue(s[2]);
  }
}
