/**
 The code blocks that apps/webui-static/markdown-lite.js takes out of the text before the line loop (26-29) and
 puts back into the finished page (60), each standing in between as its number between two U+0000 characters.
 */
module Placeholders {
  import opened Text

  const NUL: char := 0 as char

  /** The page as text and the blocks that were taken out of it. */
  datatype Piece = Plain(text: string) | Hole(block: nat)

  /** The page before the blocks are put back. */
  function Marked(pieces: seq<Piece>): string {
    if pieces == [] then "" else MarkedPiece(pieces[0]) + Marked(pieces[1..])
  }

  function MarkedPiece(piece: Piece): string {
    match piece case Plain(text) => text case Hole(n) => Mark(n)
  }

  function Mark(n: nat): string {
    [NUL] + Numeral(n) + [NUL]
  }

  /** A number without a block is replaced by the text of a missing value. */
  function BlockAt(blocks: seq<string>, n: nat): string {
    if n < |blocks| then blocks[n] else "undefined"
  }

  /** The page after. */
  function Filled(pieces: seq<Piece>, blocks: seq<string>): string {
    if pieces == [] then "" else FilledPiece(pieces[0], blocks) + Filled(pieces[1..], blocks)
  }

  function FilledPiece(piece: Piece, blocks: seq<string>): string {
    match piece case Plain(text) => text case Hole(n) => BlockAt(blocks, n)
  }

  /** Whether the pattern `U+0000 digits U+0000` matches at the start of a text. */
  predicate Replaces(s: string) {
    && s != "" && s[0] == NUL
    && var n := DigitRun(s[1..]); n > 0 && n + 1 < |s| && s[n + 1] == NUL
  }

  /** The global replacement of that pattern, from left to right; what is put in is not looked at again. */
  function Restore(s: string, blocks: seq<string>): string
    decreases |s|
  {
    if s == "" then ""
    else if Replaces(s) then
      var n := DigitRun(s[1..]);
      BlockAt(blocks, Value(s[1..][..n])) + Restore(s[n + 2..], blocks)
    else [s[0]] + Restore(s[1..], blocks)
  }

  lemma RestoreMark(n: nat, rest: string, blocks: seq<string>)
    ensures Restore(Mark(n) + rest, blocks) == BlockAt(blocks, n) + Restore(rest, blocks)
  {
    hide Numeral, Value;
    var digits := Numeral(n);
    var s := Mark(n) + rest;
    assert s[1..] == digits + ([NUL] + rest);
    DigitRunOf(digits, [NUL] + rest);
    assert s[1..][..|digits|] == digits && s[|digits| + 1] == NUL && s[|digits| + 2..] == rest;
  }

  // ---- When nothing but the marks is replaced ----

  predicate MarkAt(s: string, i: int, j: int) {
    0 <= i && i + 1 < j < |s| && s[i] == NUL && s[j] == NUL && AllDigits(s[i + 1..j])
  }

  ghost predicate HasMark(s: string) {
    exists i, j :: MarkAt(s, i, j)
  }

  /** The text before the first hole, with the U+0000 that opens the hole. */
  function Lead(pieces: seq<Piece>): string {
    if pieces == [] then ""
    else match pieces[0] case Plain(text) => text + Lead(pieces[1..]) case Hole(_) => [NUL]
  }

  /** No text of the page looks like a mark, even where a hole follows that could close it. */
  ghost predicate Unmistakable(pieces: seq<Piece>) {
    pieces == [] || (!HasMark(Lead(pieces)) && Unmistakable(pieces[1..]))
  }

  /** Up to its first hole the page is its lead, which ends with U+0000 unless it is the whole page. */
  lemma {:induction false} LeadStarts(pieces: seq<Piece>)
    ensures Lead(pieces) <= Marked(pieces)
    ensures Lead(pieces) == Marked(pieces) || (Lead(pieces) != "" && Lead(pieces)[|Lead(pieces)| - 1] == NUL)
  {
    if pieces != [] && pieces[0].Plain? {
      LeadStarts(pieces[1..]);
    }
  }

  lemma MarkReplaces(s: string, j: int)
    requires MarkAt(s, 0, j)
    ensures Replaces(s)
  {
    assert s[1..] == s[1..j] + s[j..];
    DigitRunOf(s[1..j], s[j..]);
  }

  lemma ReplacesMark(s: string)
    requires Replaces(s)
    ensures MarkAt(s, 0, DigitRun(s[1..]) + 1)
  {
    var n := DigitRun(s[1..]);
    assert s[1..n + 1] == s[1..][..n];
  }

  lemma MarkInPrefix(lead: string, s: string, j: int)
    requires lead <= s && (lead == s || (|lead| > 1 && lead[|lead| - 1] == NUL))
    ensures MarkAt(lead, 0, j) ==> MarkAt(s, 0, j)
    ensures MarkAt(s, 0, j) ==> MarkAt(lead, 0, j)
  {
    if MarkAt(s, 0, j) {
      forall k | 1 <= k < j ensures s[k] != NUL { assert IsDigit(s[1..j][k - 1]); }
      assert j < |lead|;
      assert lead[1..j] == s[1..j];
    }
    if MarkAt(lead, 0, j) {
      assert lead[1..j] == s[1..j];
    }
  }

  /** What is replaced at the start of a text with a hole to come is seen in the text up to that hole. */
  lemma ReplacesInLead(text: string, rest: seq<Piece>)
    requires text != ""
    ensures Replaces(text + Marked(rest)) <==> exists j :: MarkAt(text + Lead(rest), 0, j)
  {
    var s, lead := text + Marked(rest), text + Lead(rest);
    LeadStarts(rest);
    hide MarkAt, Replaces, Lead, Marked;
    if Replaces(s) {
      ReplacesMark(s);
      MarkInPrefix(lead, s, DigitRun(s[1..]) + 1);
    }
    if j :| MarkAt(lead, 0, j) {
      MarkInPrefix(lead, s, j);
      MarkReplaces(s, j);
    }
  }

  lemma MarkLater(s: string, i: int, j: int)
    requires s != "" && i >= 0
    ensures MarkAt(s, i + 1, j + 1) <==> MarkAt(s[1..], i, j)
  {
    if i + 1 < j < |s| - 1 {
      assert s[1..][i + 1..j] == s[i + 2..j + 1];
    }
  }

  lemma MarkInTail(s: string)
    requires s != ""
    ensures HasMark(s) <==> (exists j :: MarkAt(s, 0, j)) || HasMark(s[1..])
  {
    if i, j :| MarkAt(s, i, j) && i > 0 {
      MarkLater(s, i - 1, j - 1);
      assert MarkAt(s[1..], i - 1, j - 1);
    }
    if i, j :| MarkAt(s[1..], i, j) {
      MarkLater(s, i, j);
    }
  }

  /** One step of the replacement through a text with `rest` after it. */
  lemma StepInText(text: string, rest: seq<Piece>, blocks: seq<string>)
    requires text != ""
    ensures var s := text + Marked(rest);
            && (HasMark(text + Lead(rest)) <==> Replaces(s) || HasMark(text[1..] + Lead(rest)))
            && (!Replaces(s) ==> Restore(s, blocks) == [text[0]] + Restore(text[1..] + Marked(rest), blocks))
            && (Replaces(s) ==> text[0] == NUL)
  {
    hide *;
    TailOfConcat(text, Marked(rest));
    TailOfConcat(text, Lead(rest));
    ReplacesInLead(text, rest);
    MarkInTail(text + Lead(rest));
    StepOf(text + Marked(rest), blocks);
  }

  lemma TailOfConcat(s: string, t: string)
    requires s != ""
    ensures s + t != "" && (s + t)[0] == s[0] && (s + t)[1..] == s[1..] + t
  {
  }

  lemma StepOf(s: string, blocks: seq<string>)
    requires s != ""
    ensures !Replaces(s) ==> Restore(s, blocks) == [s[0]] + Restore(s[1..], blocks)
    ensures Replaces(s) ==> s[0] == NUL
  {
  }

  lemma {:induction false} RestoreUnmarked(text: string, rest: seq<Piece>, blocks: seq<string>)
    requires !HasMark(text + Lead(rest))
    ensures Restore(text + Marked(rest), blocks) == text + Restore(Marked(rest), blocks)
  {
    hide Replaces, HasMark, Lead, Marked, Restore;
    if text == "" {
      assert text + Marked(rest) == Marked(rest);
    } else {
      StepInText(text, rest, blocks);
      RestoreUnmarked(text[1..], rest, blocks);
      assert text == [text[0]] + text[1..];
    }
  }

  /** When no text can be taken for a mark every mark becomes its block and nothing else changes. */
  lemma {:induction false} RestoreFills(pieces: seq<Piece>, blocks: seq<string>)
    requires Unmistakable(pieces)
    ensures Restore(Marked(pieces), blocks) == Filled(pieces, blocks)
  {
    if pieces != [] {
      RestoreFills(pieces[1..], blocks);
      match pieces[0]
      case Plain(text) => RestoreUnmarked(text, pieces[1..], blocks);
      case Hole(n) => RestoreMark(n, Marked(pieces[1..]), blocks);
    }
  }

  /** No block is empty or starts with U+0000. */
  predicate Proper(blocks: seq<string>) {
    forall i :: 0 <= i < |blocks| ==> blocks[i] != "" && blocks[i][0] != NUL
  }

  /** The block that is kept for a piece of code. */
  function CodeBlock(code: string): string {
    "<pre><code>" + code + "</code></pre>"
  }

  lemma CodeBlocksAreProper(blocks: seq<string>)
    requires forall i :: 0 <= i < |blocks| ==> exists code :: blocks[i] == CodeBlock(code)
    ensures Proper(blocks)
  {
    forall i | 0 <= i < |blocks| ensures blocks[i] != "" && blocks[i][0] != NUL {
      var code :| blocks[i] == CodeBlock(code);
      assert blocks[i][0] == "<pre><code>"[0];
    }
  }

  /** When some text can, the page comes out otherwise. */
  lemma {:induction false} RestoreSpoils(pieces: seq<Piece>, blocks: seq<string>)
    requires !Unmistakable(pieces) && Proper(blocks)
    ensures Restore(Marked(pieces), blocks) != Filled(pieces, blocks)
    decreases |pieces|, 1, 0
  {
    match pieces[0]
    case Plain(text) => RestoreSpoilsText(text, pieces[1..], blocks);
    case Hole(n) =>
      RestoreSpoils(pieces[1..], blocks);
      RestoreMark(n, Marked(pieces[1..]), blocks);
      SameFront(BlockAt(blocks, n), Restore(Marked(pieces[1..]), blocks), Filled(pieces[1..], blocks));
  }

  lemma SameFront(s: string, t: string, u: string)
    requires t != u
    ensures s + t != s + u
  {
    assert (s + t)[|s|..] == t && (s + u)[|s|..] == u;
  }

  lemma ReplacedStart(s: string, blocks: seq<string>)
    requires Replaces(s) && Proper(blocks)
    ensures Restore(s, blocks) != "" && Restore(s, blocks)[0] != NUL
  {
    var n := DigitRun(s[1..]);
    var block := BlockAt(blocks, Value(s[1..][..n]));
    assert block != "" && block[0] != NUL;
    assert Restore(s, blocks) == block + Restore(s[n + 2..], blocks);
  }

  lemma OtherStart(r: string, text: string, filled: string)
    requires r != "" && text != "" && r[0] != text[0]
    ensures r != text + filled
  {
    assert (text + filled)[0] == text[0];
  }

  lemma FirstKept(text: string, r: string, filled: string)
    requires text != "" && r != text[1..] + filled
    ensures [text[0]] + r != text + filled
  {
    SameFront([text[0]], r, text[1..] + filled);
    assert text + filled == [text[0]] + (text[1..] + filled);
  }

  lemma {:induction false} RestoreSpoilsText(text: string, rest: seq<Piece>, blocks: seq<string>)
    requires HasMark(text + Lead(rest)) || !Unmistakable(rest)
    requires Proper(blocks)
    ensures Restore(text + Marked(rest), blocks) != text + Filled(rest, blocks)
    decreases |rest| + 1, 0, |text|
  {
    if text == "" {
      hide Marked, Restore;
      assert text + Lead(rest) == Lead(rest) && text + Marked(rest) == Marked(rest);
      RestoreSpoils(rest, blocks);
    } else {
      hide *;
      var s, filled := text + Marked(rest), Filled(rest, blocks);
      StepInText(text, rest, blocks);
      if Replaces(s) {
        ReplacedStart(s, blocks);
        OtherStart(Restore(s, blocks), text, filled);
      } else {
        RestoreSpoilsText(text[1..], rest, blocks);
        FirstKept(text, Restore(text[1..] + Marked(rest), blocks), filled);
      }
    }
  }

  /** Exactly the pages without such text come out as they should, each with the blocks it has. */
  lemma RestoreFillsExactly(pieces: seq<Piece>, blocks: seq<string>)
    requires Proper(blocks)
    ensures Restore(Marked(pieces), blocks) == Filled(pieces, blocks) <==> Unmistakable(pieces)
  {
    if Unmistakable(pieces) {
      RestoreFills(pieces, blocks);
    } else {
      RestoreSpoils(pieces, blocks);
    }
  }

  /** Text from which no block was taken is left as it is exactly when it holds no U+0000, digits, U+0000. */
  lemma PlainTextKeptExactly(text: string)
    ensures Restore(text, []) == text <==> !HasMark(text)
  {
    var page := [Plain(text)];
    var none: seq<Piece> := page[1..];
    assert none == [] && text + "" == text;
    assert Marked(none) == Lead(none) == Filled(none, []) == "" && Unmistakable(none);
    assert Marked(page) == text && Lead(page) == text && Unmistakable(page) == !HasMark(text);
    assert Filled(page, []) == text;
    RestoreFillsExactly(page, []);
  }

  /** A page whose texts have no U+0000 of their own cannot be mistaken. */
  lemma {:induction false} CleanIsUnmistakable(pieces: seq<Piece>)
    requires forall i :: 0 <= i < |pieces| && pieces[i].Plain? ==> NUL !in pieces[i].text
    ensures Unmistakable(pieces)
    ensures forall k :: 0 <= k < |Lead(pieces)| - 1 ==> Lead(pieces)[k] != NUL
  {
    if pieces != [] {
      CleanIsUnmistakable(pieces[1..]);
    }
  }

  /** A filled page is filled piece by piece: text as it is, a hole with the block of its number. */
  lemma FilledByPiece(a: seq<Piece>, b: seq<Piece>, blocks: seq<string>)
    ensures Filled(a + b, blocks) == Filled(a, blocks) + Filled(b, blocks)
    ensures |a| == 1 && a[0].Plain? ==> Filled(a, blocks) == a[0].text
    ensures |a| == 1 && a[0].Hole? ==>
              Filled(a, blocks) == if a[0].block < |blocks| then blocks[a[0].block] else "undefined"
  {
    FilledConcat(a, b, blocks);
    if |a| == 1 { assert Filled(a, blocks) == FilledPiece(a[0], blocks) + ""; }
  }

  lemma {:induction false} FilledConcat(a: seq<Piece>, b: seq<Piece>, blocks: seq<string>)
    ensures Filled(a + b, blocks) == Filled(a, blocks) + Filled(b, blocks)
  {
    hide FilledPiece;
    if a == [] {
      assert a + b == b;
    } else {
      FilledConcat(a[1..], b, blocks);
      assert (a + b)[0] == a[0] && (a + b)[1..] == a[1..] + b;
      Regrouped(FilledPiece(a[0], blocks), Filled(a[1..], blocks), Filled(b, blocks));
    }
  }

  lemma Regrouped(s: string, t: string, u: string)
    ensures s + (t + u) == s + t + u
  {
  }

  /** A marked page likewise, each hole as its number between two U+0000. */
  lemma MarkedByPiece(a: seq<Piece>, b: seq<Piece>)
    ensures Marked(a + b) == Marked(a) + Marked(b)
    ensures |a| == 1 && a[0].Plain? ==> Marked(a) == a[0].text
    ensures |a| == 1 && a[0].Hole? ==> Marked(a) == [NUL] + Numeral(a[0].block) + [NUL]
  {
    hide Numeral;
    MarkedConcat(a, b);
    if |a| == 1 { assert Marked(a) == MarkedPiece(a[0]) + ""; }
  }

  lemma {:induction false} MarkedConcat(a: seq<Piece>, b: seq<Piece>)
    ensures Marked(a + b) == Marked(a) + Marked(b)
  {
    hide MarkedPiece;
    if a == [] {
      assert a + b == b;
    } else {
      MarkedConcat(a[1..], b);
      assert (a + b)[0] == a[0] && (a + b)[1..] == a[1..] + b;
      Regrouped(MarkedPiece(a[0]), Marked(a[1..]), Marked(b));
    }
  }
}
