/** The length-framed byte stream that `source_tree_digest` hashes (tools/create-rust-build-provenance.py:99-107). */
module Framing {
  import opened Bytes
  import opened Options

  /** A path as bytes, and the content of the file. */
  datatype Entry = Entry(rel: seq<byte>, content: seq<byte>)

  const REL_WIDTH := 4
  const CONTENT_WIDTH := 8

  /** `to_bytes` raises an error for a length that does not fit its width. */
  predicate Fits(e: Entry) {
    |e.rel| < Power256(REL_WIDTH) && |e.content| < Power256(CONTENT_WIDTH)
  }

  function Frame(e: Entry): seq<byte> {
    BigEndian(|e.rel|, REL_WIDTH) + e.rel + BigEndian(|e.content|, CONTENT_WIDTH) + e.content
  }

  function Stream(entries: seq<Entry>): seq<byte> {
    if entries == [] then [] else Frame(entries[0]) + Stream(entries[1..])
  }

  ghost predicate AllFit(entries: seq<Entry>) {
    forall e <- entries :: Fits(e)
  }

  /** Takes `Length(s)` bytes off a stream after reading that length from its first `width` bytes. */
  function TakeBlock(s: seq<byte>, width: nat): (r: Option<(seq<byte>, seq<byte>)>)
    ensures r.Some? ==> |r.value.0| + |r.value.1| + width == |s|
  {
    if |s| < width then None
    else
      var n := FromBigEndian(s[..width]);
      if |s| < width + n then None else Some((s[width..width + n], s[width + n..]))
  }

  /** Reads a stream back into entries. */
  function Decode(s: seq<byte>): Option<seq<Entry>>
    decreases |s|
  {
    if s == [] then Some([])
    else
      var rel := TakeBlock(s, REL_WIDTH);
      if rel.None? then None
      else
        var content := TakeBlock(rel.value.1, CONTENT_WIDTH);
        if content.None? then None
        else
          var rest := Decode(content.value.1);
          if rest.None? then None else Some([Entry(rel.value.0, content.value.0)] + rest.value)
  }

  lemma BlockReads(block: seq<byte>, width: nat, rest: seq<byte>)
    requires |block| < Power256(width)
    ensures TakeBlock(BigEndian(|block|, width) + block + rest, width) == Some((block, rest))
  {
    var s := BigEndian(|block|, width) + block + rest;
    BigEndianReads(|block|, width);
    hide BigEndian, FromBigEndian;
    assert s[..width] == BigEndian(|block|, width);
    assert s[width..width + |block|] == block && s[width + |block|..] == rest;
  }

  lemma BlockWrites(s: seq<byte>, width: nat)
    requires TakeBlock(s, width).Some?
    ensures var (block, rest) := TakeBlock(s, width).value;
            |block| < Power256(width) && s == BigEndian(|block|, width) + block + rest
  {
    var (block, rest) := TakeBlock(s, width).value;
    BigEndianWrites(s[..width]);
    assert s == s[..width] + block + rest;
  }

  /** Decoding undoes framing. */
  lemma {:induction false} DecodeOfStream(entries: seq<Entry>)
    requires AllFit(entries)
    ensures Decode(Stream(entries)) == Some(entries)
  {
    hide BigEndian, FromBigEndian, Power256, Frame;
    if entries != [] {
      var e, rest := entries[0], entries[1..];
      assert entries == [e] + rest;
      StreamCons(e, rest);
      FrameReads(e, Stream(rest));
      hide TakeBlock, Stream;
      DecodeOfStream(rest);
      FrameIsNotEmpty(e, Stream(rest));
    }
  }

  /** A framed entry is taken off a stream block by block. */
  lemma FrameReads(e: Entry, rest: seq<byte>)
    requires Fits(e)
    ensures var tail := BigEndian(|e.content|, CONTENT_WIDTH) + e.content + rest;
            && TakeBlock(Frame(e) + rest, REL_WIDTH) == Some((e.rel, tail))
            && TakeBlock(tail, CONTENT_WIDTH) == Some((e.content, rest))
  {
    hide BigEndian, FromBigEndian, Power256, TakeBlock;
    var tail := BigEndian(|e.content|, CONTENT_WIDTH) + e.content + rest;
    FrameBlocks(e, rest);
    BlockReads(e.rel, REL_WIDTH, tail);
    BlockReads(e.content, CONTENT_WIDTH, rest);
  }

  lemma FrameIsNotEmpty(e: Entry, rest: seq<byte>)
    ensures Frame(e) + rest != []
  {
    hide BigEndian;
    assert |BigEndian(|e.rel|, REL_WIDTH)| == REL_WIDTH;
  }

  /** Only streams of entries decode, so decoding loses nothing either. */
  lemma {:induction false} StreamOfDecode(s: seq<byte>)
    requires Decode(s).Some?
    ensures AllFit(Decode(s).value) && Stream(Decode(s).value) == s
    decreases |s|
  {
    hide BigEndian, FromBigEndian, Power256;
    if s != [] {
      var (rel, afterRel) := TakeBlock(s, REL_WIDTH).value;
      var (content, rest) := TakeBlock(afterRel, CONTENT_WIDTH).value;
      BlockWrites(s, REL_WIDTH);
      BlockWrites(afterRel, CONTENT_WIDTH);
      StreamOfDecode(rest);
      var e, tail := Entry(rel, content), Decode(rest).value;
      assert Decode(s).value == [e] + tail;
      hide TakeBlock, Decode, Stream;
      StreamCons(e, tail);
      FrameBlocks(e, rest);
    }
  }

  lemma FrameBlocks(e: Entry, rest: seq<byte>)
    ensures BigEndian(|e.rel|, REL_WIDTH) + e.rel + (BigEndian(|e.content|, CONTENT_WIDTH) + e.content + rest)
         == Frame(e) + rest
  {
    hide BigEndian;
  }

  lemma StreamCons(e: Entry, tail: seq<Entry>)
    ensures Stream([e] + tail) == Frame(e) + Stream(tail)
    ensures AllFit([e] + tail) <==> Fits(e) && AllFit(tail)
  {
    var entries := [e] + tail;
    assert entries[1..] == tail;
    assert entries[0] in entries && forall x <- tail :: x in entries;
  }

  /** Two lists of entries with the same bytes are the same list. */
  lemma StreamInjective(a: seq<Entry>, b: seq<Entry>)
    requires AllFit(a) && AllFit(b) && Stream(a) == Stream(b)
    ensures a == b
  {
    DecodeOfStream(a);
    DecodeOfStream(b);
  }

  /** The layout of one file: four bytes of length, the path, eight bytes of length, the content. */
  lemma FrameLayout(e: Entry)
    requires Fits(e)
    ensures var s, r, c := Frame(e), |e.rel|, |e.content|;
            && |s| == 4 + r + 8 + c
            && FromBigEndian(s[..4]) == r && s[4..4 + r] == e.rel
            && FromBigEndian(s[4 + r..12 + r]) == c && s[12 + r..] == e.content
  {
    var r := |e.rel|;
    BigEndianReads(r, REL_WIDTH);
    BigEndianReads(|e.content|, CONTENT_WIDTH);
    hide BigEndian, FromBigEndian, Power256;
    var s := Frame(e);
    assert s[..4] == BigEndian(r, REL_WIDTH) && s[4 + r..12 + r] == BigEndian(|e.content|, CONTENT_WIDTH);
  }

  /** A path below four gibibytes and a content below sixteen exbibytes fit, and nothing longer does. */
  lemma FitsExactly(e: Entry)
    ensures Fits(e) <==> |e.rel| < 0x1_0000_0000 && |e.content| < 0x1_0000_0000_0000_0000
  {
    assert Power256(4) == 0x1_0000_0000;
    assert Power256(8) == 256 * (256 * (256 * (256 * Power256(4))));
  }
}
