/** Bytes, big-endian numbers (`int.to_bytes`) and UTF-8 (RFC 3629). */
module Bytes {
  import opened Arithmetic

  type byte = x: int | 0 <= x < 256

  function Power256(w: nat): (p: nat)
    ensures p > 0
  {
    if w == 0 then 1 else 256 * Power256(w - 1)
  }

  /** The low `w` bytes of `n`, most significant first. */
  function BigEndian(n: nat, w: nat): (s: seq<byte>)
    ensures |s| == w
  {
    if w == 0 then [] else BigEndian(n / 256, w - 1) + [n % 256]
  }

  function FromBigEndian(s: seq<byte>): nat {
    if s == [] then 0 else 256 * FromBigEndian(s[..|s| - 1]) + s[|s| - 1]
  }

  /** Numbers that fit come back from their bytes. */
  lemma {:induction false} BigEndianReads(n: nat, w: nat)
    requires n < Power256(w)
    ensures FromBigEndian(BigEndian(n, w)) == n
  {
    if w > 0 {
      BigEndianReads(n / 256, w - 1);
      assert BigEndian(n, w)[..w - 1] == BigEndian(n / 256, w - 1);
    }
  }

  /** Bytes come back from the number they denote, which fits. */
  lemma {:induction false} BigEndianWrites(s: seq<byte>)
    ensures FromBigEndian(s) < Power256(|s|) && BigEndian(FromBigEndian(s), |s|) == s
  {
    if s != [] {
      var rest, last := s[..|s| - 1], s[|s| - 1];
      BigEndianWrites(rest);
      DivModUnique(FromBigEndian(s), 256, FromBigEndian(rest), last);
      assert s == rest + [last];
    }
  }

  /** The first of `w + 1` bytes is the most significant one. */
  lemma {:induction false} MostSignificantFirst(n: nat, w: nat)
    ensures BigEndian(n, w + 1)[0] as int == n / Power256(w) % 256
  {
    if w > 0 {
      MostSignificantFirst(n / 256, w - 1);
      DivideTwice(n, Power256(w - 1));
    }
  }

  lemma DivideTwice(n: nat, k: nat)
    requires k > 0
    ensures n / 256 / k == n / (256 * k)
  {
    var q, r := n / 256, n % 256;
    var a, b := q / k, q % k;
    assert q == a * k + b && n == 256 * q + r;
    assert n == a * (256 * k) + (256 * b + r);
    DivModUnique(n, 256 * k, a, 256 * b + r);
  }

  // ---- UTF-8 ----

  function Utf8Char(c: char): (s: seq<byte>)
    ensures 1 <= |s| <= 4
  {
    var n := c as int;
    if n < 0x80 then [n]
    else if n < 0x800 then [0xC0 + n / 0x40, 0x80 + n % 0x40]
    else if n < 0x1_0000 then [0xE0 + n / 0x1000, 0x80 + n / 0x40 % 0x40, 0x80 + n % 0x40]
    else [0xF0 + n / 0x4_0000, 0x80 + n / 0x1000 % 0x40, 0x80 + n / 0x40 % 0x40, 0x80 + n % 0x40]
  }

  function Utf8(s: string): seq<byte> {
    if s == "" then [] else Utf8Char(s[0]) + Utf8(s[1..])
  }

  /** The scalar value that a first character's bytes denote, found from the bytes alone. */
  function Scalar(s: seq<byte>): int
    requires s != []
  {
    var lead: int := s[0];
    if lead < 0x80 then lead
    else if lead < 0xE0 then (lead - 0xC0) * 0x40 + Continuation(s, 1)
    else if lead < 0xF0 then ((lead - 0xE0) * 0x40 + Continuation(s, 1)) * 0x40 + Continuation(s, 2)
    else (((lead - 0xF0) * 0x40 + Continuation(s, 1)) * 0x40 + Continuation(s, 2)) * 0x40 + Continuation(s, 3)
  }

  function Continuation(s: seq<byte>, i: nat): int {
    if i < |s| then (var b: int := s[i]; b - 0x80) else 0
  }

  lemma ScalarOfChar(c: char, rest: seq<byte>)
    ensures Scalar(Utf8Char(c) + rest) == c as int
  {
    var n := c as int;
    var s := Utf8Char(c) + rest;
    assert forall i :: 0 <= i < |Utf8Char(c)| ==> s[i] == Utf8Char(c)[i];
    assert n / 0x1000 == n / 0x40 / 0x40 && n / 0x4_0000 == n / 0x40 / 0x40 / 0x40;
  }

  /** Encoding is injective: no two texts have the same bytes. */
  lemma {:induction false} Utf8Injective(s: string, t: string)
    requires Utf8(s) == Utf8(t)
    ensures s == t
  {
    if s != "" && t != "" {
      ScalarOfChar(s[0], Utf8(s[1..]));
      ScalarOfChar(t[0], Utf8(t[1..]));
      assert s[0] == t[0];
      var k := |Utf8Char(s[0])|;
      assert Utf8(s)[k..] == Utf8(s[1..]) && Utf8(t)[k..] == Utf8(t[1..]);
      Utf8Injective(s[1..], t[1..]);
      assert s == [s[0]] + s[1..] && t == [t[0]] + t[1..];
    }
  }

  /**
   The forms of section 3 of RFC 3629: as many bytes as the scalar value needs and no more, a first byte that tells
   how many, and continuation bytes after it. With `ScalarOfChar` these leave one encoding for each character.
   */
  lemma Utf8Form(c: char)
    ensures var s, n := Utf8Char(c), c as int;
            && |s| == (if n < 0x80 then 1 else if n < 0x800 then 2 else if n < 0x1_0000 then 3 else 4)
            && (var lead: int := s[0];
                if n < 0x80 then lead < 0x80 else if n < 0x800 then 0xC2 <= lead < 0xE0
                else if n < 0x1_0000 then 0xE0 <= lead < 0xF0 else 0xF0 <= lead < 0xF5)
            && forall i :: 1 <= i < |s| ==> (var b: int := s[i]; 0x80 <= b < 0xC0)
  {
  }
}
