/**
 The symmetric signature of a build provenance document (`sign_document` in tools/create-rust-build-provenance.py
 and `verify_signature` in tools/verify-rust-build-provenance.py). HMAC-SHA256 and SHA-256 are parameters.
 */
module Signing {
  import opened Bytes
  import opened HexDigits
  import opened Json
  import opened Options

  type Document = map<string, Json>

  /** What a hash or a keyed hash returns. */
  type Digest = s: seq<byte> | |s| == 32 witness seq(32, _ => 0)

  const ENVELOPE := {"signature", "signatureAlgorithm", "signingKeyId", "publiclyVerifiable", "publicSignature"}

  const ALGORITHM := "HMAC-SHA256"

  const MIN_KEY := 32

  predicate IsAscii(t: string) {
    forall i :: 0 <= i < |t| ==> t[i] < 128 as char
  }

  function HexText(s: seq<byte>): (t: string)
    ensures |t| == 2 * |s| && IsAscii(t) && forall i :: 0 <= i < |t| ==> IsHexDigit(t[i])
  {
    if s == [] then "" else [HexDigit(s[0] / 16), HexDigit(s[0] % 16)] + HexText(s[1..])
  }

  /** The fields that the signature covers. */
  function Unsigned(d: Document): Document {
    d - ENVELOPE
  }

  function Payload(d: Document): seq<byte> {
    Utf8(Print(Obj(Unsigned(d))))
  }

  /** What signing promises: the covered fields, and four envelope fields of its own. */
  ghost predicate Signs(signed: Document, d: Document, key: seq<byte>,
                        mac: (seq<byte>, seq<byte>) -> Digest, sha: seq<byte> -> Digest) {
    && signed.Keys == Unsigned(d).Keys + {"signature", "signatureAlgorithm", "signingKeyId", "publiclyVerifiable"}
    && (forall k <- Unsigned(d) :: signed[k] == d[k])
    && signed["signatureAlgorithm"] == Str("HMAC-SHA256")
    && signed["signingKeyId"] == Str(HexText(sha(key))[..16])
    && signed["publiclyVerifiable"] == Bool(false)
    && signed["signature"] == Str(HexText(mac(key, Payload(d))))
  }

  /** Signing refuses short keys. */
  method SignDocument(d: Document, key: seq<byte>, mac: (seq<byte>, seq<byte>) -> Digest, sha: seq<byte> -> Digest)
    returns (r: Option<Document>)
    ensures r.Some? <==> |key| >= 32
    ensures r.Some? ==> Signs(r.value, d, key, mac, sha)
  {
    hide Print, Utf8, Payload;
    if |key| < MIN_KEY { return None; }
    assert forall k <- Unsigned(d) :: k in d && k !in ENVELOPE && Unsigned(d)[k] == d[k];
    hide Unsigned;
    var unsigned := Unsigned(d);
    var payload := Payload(d);
    var signed := unsigned;
    signed := signed["signatureAlgorithm" := Str(ALGORITHM)];
    signed := signed["signingKeyId" := Str(HexText(sha(key))[..16])];
    signed := signed["publiclyVerifiable" := Bool(false)];
    signed := signed["signature" := Str(HexText(mac(key, payload)))];
    assert signed.Keys == Unsigned(d).Keys + {"signature", "signatureAlgorithm", "signingKeyId", "publiclyVerifiable"};
    return Some(signed);
  }

  /** `NotComparable` is the `TypeError` of `compare_digest` on text outside ASCII; the others are as the source names them. */
  datatype Verdict = Passed | NotSigned | UnsupportedAlgorithm | Mismatch | NotComparable

  function Verify(d: Document, key: seq<byte>, mac: (seq<byte>, seq<byte>) -> Digest): Verdict {
    if "signature" !in d || !d["signature"].Str? || d["signature"].s == "" then NotSigned
    else if "signatureAlgorithm" !in d || d["signatureAlgorithm"] != Str(ALGORITHM) then UnsupportedAlgorithm
    else if !IsAscii(d["signature"].s) then NotComparable
    else if HexText(mac(key, Payload(d))) != d["signature"].s then Mismatch
    else Passed
  }

  /** Two documents agree on every field that is not part of the envelope. */
  ghost predicate SameFacts(d: Document, e: Document) {
    && (forall k :: k !in ENVELOPE ==> (k in d <==> k in e))
    && forall k :: k !in ENVELOPE && k in d && k in e ==> d[k] == e[k]
  }

  lemma SameFactsIsUnsigned(d: Document, e: Document)
    ensures SameFacts(d, e) <==> Unsigned(d) == Unsigned(e)
  {
    if Unsigned(d) == Unsigned(e) {
      forall k | k !in ENVELOPE ensures (k in d <==> k in e) && (k in d && k in e ==> d[k] == e[k]) {
        assert k in Unsigned(d) <==> k in Unsigned(e);
        if k in Unsigned(d) { assert Unsigned(d)[k] == Unsigned(e)[k]; }
      }
    }
  }

  /** The signed bytes determine every covered field, and are determined by them. */
  lemma PayloadIdentifiesFacts(d: Document, e: Document)
    ensures Payload(d) == Payload(e) <==> SameFacts(d, e)
  {
    hide Print, Utf8;
    SameFactsIsUnsigned(d, e);
    if Payload(d) == Payload(e) {
      Utf8Injective(Print(Obj(Unsigned(d))), Print(Obj(Unsigned(e))));
      PrintInjective(Obj(Unsigned(d)), Obj(Unsigned(e)));
    }
  }

  /** Setting a field changes what is signed unless it is one of the five of the envelope, or has that value already. */
  lemma CoveredExactly(d: Document, k: string, v: Json)
    ensures Payload(d[k := v]) == Payload(d) <==>
              || k in {"signature", "signatureAlgorithm", "signingKeyId", "publiclyVerifiable", "publicSignature"}
              || (k in d && d[k] == v)
  {
    PayloadIdentifiesFacts(d[k := v], d);
    hide Payload;
  }

  /** Two digits for each byte, the higher one first. */
  lemma {:induction false} HexTextReads(s: seq<byte>, i: nat)
    requires i < |s|
    ensures var t := HexText(s); Pair(t[2 * i], t[2 * i + 1]) == s[i]
  {
    var t := HexText(s);
    if i == 0 {
      assert t[0] == HexDigit(s[0] / 16) && t[1] == HexDigit(s[0] % 16);
    } else {
      HexTextReads(s[1..], i - 1);
      var rest := HexText(s[1..]);
      assert t[2 * i] == rest[2 * (i - 1)] && t[2 * i + 1] == rest[2 * (i - 1) + 1];
    }
  }

  lemma {:induction false} HexTextInjective(s: seq<byte>, t: seq<byte>)
    requires HexText(s) == HexText(t)
    ensures s == t
  {
    if s != [] && t != [] {
      var a, b := HexText(s), HexText(t);
      assert HexValue(a[0]) == s[0] / 16 && HexValue(a[1]) == s[0] % 16;
      assert HexValue(b[0]) == t[0] / 16 && HexValue(b[1]) == t[0] % 16;
      assert a[2..] == HexText(s[1..]) && b[2..] == HexText(t[1..]);
      HexTextInjective(s[1..], t[1..]);
      assert s == [s[0]] + s[1..] && t == [t[0]] + t[1..];
    }
  }

  // ---- Sign and verify ----

  lemma SignedFacts(signed: Document, d: Document, key: seq<byte>,
                    mac: (seq<byte>, seq<byte>) -> Digest, sha: seq<byte> -> Digest)
    requires Signs(signed, d, key, mac, sha)
    ensures SameFacts(signed, d) && Unsigned(signed) == Unsigned(d)
  {
    forall k | k !in ENVELOPE ensures (k in signed <==> k in d) && (k in d && k in signed ==> signed[k] == d[k]) {
      assert k in Unsigned(d) <==> k in d;
    }
    SameFactsIsUnsigned(signed, d);
  }

  /** What was signed verifies under the same key. */
  lemma SignedVerifies(signed: Document, d: Document, key: seq<byte>,
                       mac: (seq<byte>, seq<byte>) -> Digest, sha: seq<byte> -> Digest)
    requires Signs(signed, d, key, mac, sha)
    ensures Verify(signed, key, mac) == Passed
  {
    hide Print, Utf8, HexText;
    SignedFacts(signed, d, key, mac, sha);
  }

  /**
   With any text in place of the signature a signed document passes only if it is the same text; outside ASCII
   the comparison itself fails, which never happens to the signature that signing wrote.
   */
  lemma ReplacedSignature(signed: Document, d: Document, key: seq<byte>,
                          mac: (seq<byte>, seq<byte>) -> Digest, sha: seq<byte> -> Digest, t: string)
    requires Signs(signed, d, key, mac, sha)
    ensures var verdict := Verify(signed["signature" := Str(t)], key, mac);
            && (verdict == Passed <==> Str(t) == signed["signature"])
            && (verdict == NotComparable <==> !IsAscii(t))
            && (verdict == NotSigned <==> t == "")
            && verdict != UnsupportedAlgorithm
    ensures Verify(signed, key, mac) != NotComparable
  {
    var e := signed["signature" := Str(t)];
    assert Unsigned(e) == Unsigned(signed);
    hide Unsigned, HexText, Print, Utf8;
    SignedFacts(signed, d, key, mac, sha);
    assert Payload(e) == Payload(d) && HexText(mac(key, Payload(d))) != "";
    hide Payload, Verify, IsAscii, SameFacts;
    SignedVerifies(signed, d, key, mac, sha);
    VerdictByText(e, key, mac, t);
  }

  lemma VerdictByText(e: Document, key: seq<byte>, mac: (seq<byte>, seq<byte>) -> Digest, t: string)
    requires "signature" in e && e["signature"] == Str(t)
    requires "signatureAlgorithm" in e && e["signatureAlgorithm"] == Str(ALGORITHM)
    ensures Verify(e, key, mac) ==
            if t == "" then NotSigned else if !IsAscii(t) then NotComparable
            else if HexText(mac(key, Payload(e))) == t then Passed else Mismatch
  {
    hide HexText, Payload, IsAscii;
  }

  lemma AsciiExactly(t: string)
    ensures !IsAscii(t) <==> exists i :: 0 <= i < |t| && t[i] as int > 0x7F
  {
  }

  /** The failing comparison happens: with a letter outside ASCII for a signature. */
  lemma SignatureOutsideAscii(key: seq<byte>, mac: (seq<byte>, seq<byte>) -> Digest)
    ensures Verify(map["signature" := Str("\U{00E9}"), "signatureAlgorithm" := Str(ALGORITHM)], key, mac) == NotComparable
  {
    var letter := "\U{00E9}";
    assert !IsAscii(letter) by { assert letter[0] >= 128 as char; }
    hide IsAscii, Payload, HexText;
  }

  /** The verdict depends only on the facts and on two envelope fields, so a counter-signature does not disturb it. */
  lemma VerdictIgnoresEnvelope(d: Document, e: Document, key: seq<byte>, mac: (seq<byte>, seq<byte>) -> Digest)
    requires SameFacts(d, e)
    requires forall k <- {"signature", "signatureAlgorithm"} ::
               (k in d <==> k in e) && (k in d && k in e ==> d[k] == e[k])
    ensures Verify(d, key, mac) == Verify(e, key, mac)
  {
    hide Print, Utf8, HexText;
    SameFactsIsUnsigned(d, e);
    assert "signature" in {"signature", "signatureAlgorithm"};
    assert "signatureAlgorithm" in {"signature", "signatureAlgorithm"};
  }

  /** Signing depends on the facts alone: what was signed before, or signed differently, signs the same. */
  lemma SigningIgnoresEnvelope(s: Document, d: Document, t: Document, e: Document, key: seq<byte>,
                               mac: (seq<byte>, seq<byte>) -> Digest, sha: seq<byte> -> Digest)
    requires Signs(s, d, key, mac, sha) && Signs(t, e, key, mac, sha)
    ensures s == t <==> SameFacts(d, e)
  {
    hide Print, Utf8, HexText;
    SignedFacts(s, d, key, mac, sha);
    SignedFacts(t, e, key, mac, sha);
    SameFactsIsUnsigned(d, e);
    if SameFacts(d, e) {
      assert s.Keys == t.Keys;
      forall k | k in s ensures s[k] == t[k] {
        if k in Unsigned(d) { assert s[k] == d[k] && t[k] == e[k]; }
      }
    }
  }

  /** Signing a signed document again changes nothing. */
  lemma SigningIsIdempotent(s: Document, d: Document, t: Document, key: seq<byte>,
                            mac: (seq<byte>, seq<byte>) -> Digest, sha: seq<byte> -> Digest)
    requires Signs(s, d, key, mac, sha) && Signs(t, s, key, mac, sha)
    ensures t == s
  {
    hide Print, Utf8, HexText;
    SignedFacts(s, d, key, mac, sha);
    SigningIgnoresEnvelope(s, d, t, s, key, mac, sha);
  }

  /**
   A signature carried over to another document passes exactly when the keyed hash cannot tell the two payloads
   apart; if it can tell different payloads apart, the facts are those that were signed.
   */
  lemma CarriedSignature(signed: Document, d: Document, v: Document, key: seq<byte>,
                         mac: (seq<byte>, seq<byte>) -> Digest, sha: seq<byte> -> Digest)
    requires Signs(signed, d, key, mac, sha)
    requires "signature" in v && v["signature"] == signed["signature"]
    requires "signatureAlgorithm" in v && v["signatureAlgorithm"] == signed["signatureAlgorithm"]
    ensures Verify(v, key, mac) == Passed <==> mac(key, Payload(v)) == mac(key, Payload(d))
    ensures (mac(key, Payload(v)) == mac(key, Payload(d)) ==> Payload(v) == Payload(d)) ==>
              (Verify(v, key, mac) == Passed <==> SameFacts(v, d))
  {
    hide Print, Utf8, HexText, Payload;
    PayloadIdentifiesFacts(v, d);
    if HexText(mac(key, Payload(v))) == HexText(mac(key, Payload(d))) {
      HexTextInjective(mac(key, Payload(v)), mac(key, Payload(d)));
    }
    assert HexText(mac(key, Payload(d))) != "";
  }
}
