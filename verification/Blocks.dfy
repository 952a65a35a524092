/**
 The block renderer of apps/webui-static/markdown-lite.js:35-60: a loop over classified lines that carries an
 open list and an unfinished paragraph, proved to emit a declarative grouping of the lines.
 */
module Blocks {

  datatype Kind = Bulleted | Numbered

  /** A line as the regular expressions of markdown-lite.js:18-22 classify it, tried in that order. */
  datatype Line =
    | Placeholder(text: string)
    | Rule
    | Item(kind: Kind, text: string)
    | Heading(marks: nat, text: string)
    | Blank
    | Text(text: string)

  /** What is pushed to the output. */
  datatype Token =
    | Open(kind: Kind)
    | Close(kind: Kind)
    | ListItem(text: string)
    | Paragraph(lines: seq<string>)
    | Title(level: nat, text: string)
    | Hr
    | Block(text: string)

  datatype OpenList = NoList | InList(kind: Kind)

  function Level(marks: nat): nat {
    if marks + 2 < 5 then marks + 2 else 5
  }

  /** One to six marks draw h3 to h5, more marks never a larger heading. */
  lemma HeadingLevels(m: nat, n: nat)
    requires 1 <= m <= n <= 6
    ensures 3 <= Level(m) <= Level(n) <= 5 && (Level(m) == Level(n) <==> m == n || 3 <= m)
  {
  }

  // ---- The loop, as a function of the state it carries ----

  datatype State = State(out: seq<Token>, list: OpenList, paragraph: seq<string>)

  function EndParagraph(s: State): State {
    if s.paragraph != [] then s.(out := s.out + [Paragraph(s.paragraph)], paragraph := []) else s
  }

  function EndList(s: State): State {
    if s.list.InList? then s.(out := s.out + [Close(s.list.kind)], list := NoList) else s
  }

  function StartList(s: State, kind: Kind): State {
    var s1 := EndParagraph(s);
    if s1.list == InList(kind) then s1
    else
      var s2 := EndList(s1);
      s2.(out := s2.out + [Open(kind)], list := InList(kind))
  }

  function Emit(s: State, t: Token): State {
    s.(out := s.out + [t])
  }

  function Next(s: State, line: Line): State {
    match line
    case Placeholder(text) => Emit(EndList(EndParagraph(s)), Block(text))
    case Rule => Emit(EndList(EndParagraph(s)), Hr)
    case Item(kind, text) => Emit(StartList(s, kind), ListItem(text))
    case Heading(marks, text) => Emit(EndList(EndParagraph(s)), Title(Level(marks), text))
    case Blank => EndParagraph(s)
    case Text(text) => var s1 := EndList(s); s1.(paragraph := s1.paragraph + [text])
  }

  /** The output once the remaining lines are read from a state. */
  function Finish(s: State, lines: seq<Line>): seq<Token>
    decreases |lines|
  {
    if lines == [] then EndList(EndParagraph(s)).out else Finish(Next(s, lines[0]), lines[1..])
  }

  const START := State([], NoList, [])

  // ---- The loop itself ----

  method Render(lines: seq<Line>) returns (out: seq<Token>)
    ensures out == Emitted(Grouped(lines))
  {
    var list := NoList;
    var paragraph := [];
    out := [];
    for i := 0 to |lines|
      invariant Finish(State(out, list, paragraph), lines[i..]) == Finish(START, lines)
    {
      ghost var before := State(out, list, paragraph);
      assert lines[i..][0] == lines[i] && lines[i..][1..] == lines[i + 1..];
      match lines[i] {
        case Placeholder(text) =>
          out, paragraph := FlushParagraph(out, paragraph);
          out, list := FlushList(out, list);
          out := out + [Block(text)];
        case Rule =>
          out, paragraph := FlushParagraph(out, paragraph);
          out, list := FlushList(out, list);
          out := out + [Hr];
        case Item(kind, text) =>
          out, paragraph := FlushParagraph(out, paragraph);
          if list != InList(kind) {
            out, list := FlushList(out, list);
            out := out + [Open(kind)];
            list := InList(kind);
          }
          out := out + [ListItem(text)];
        case Heading(marks, text) =>
          out, paragraph := FlushParagraph(out, paragraph);
          out, list := FlushList(out, list);
          out := out + [Title(Level(marks), text)];
        case Blank =>
          out, paragraph := FlushParagraph(out, paragraph);
        case Text(text) =>
          out, list := FlushList(out, list);
          paragraph := paragraph + [text];
      }
      assert State(out, list, paragraph) == Next(before, lines[i]);
    }
    out, paragraph := FlushParagraph(out, paragraph);
    out, list := FlushList(out, list);
    LoopGroups(lines);
  }

  method FlushParagraph(out: seq<Token>, paragraph: seq<string>) returns (out': seq<Token>, paragraph': seq<string>)
    ensures forall list :: State(out', list, paragraph') == EndParagraph(State(out, list, paragraph))
  {
    out', paragraph' := out, paragraph;
    if paragraph != [] { out', paragraph' := out + [Paragraph(paragraph)], []; }
  }

  method FlushList(out: seq<Token>, list: OpenList) returns (out': seq<Token>, list': OpenList)
    ensures forall paragraph :: State(out', list', paragraph) == EndList(State(out, list, paragraph))
  {
    out', list' := out, list;
    if list.InList? { out', list' := out + [Close(list.kind)], NoList; }
  }

  // ---- The grouping ----

  /** A document as blocks; a paragraph and a list hold at least one line. */
  datatype Group =
    | TextGroup(lines: seq<string>)
    | ListGroup(kind: Kind, items: seq<string>)
    | TitleGroup(level: nat, text: string)
    | RuleGroup
    | CodeGroup(text: string)

  /** The length of the longest prefix of text lines. */
  function TextRun(lines: seq<Line>): (n: nat)
    ensures n <= |lines| && forall i :: 0 <= i < n ==> lines[i].Text?
    ensures n < |lines| ==> !lines[n].Text?
  {
    if lines == [] || !lines[0].Text? then 0 else TextRun(lines[1..]) + 1
  }

  /** Whether a line belongs to a list of this kind once it is open: its items, and blank lines. */
  predicate Continues(kind: Kind, line: Line) {
    line.Blank? || (line.Item? && line.kind == kind)
  }

  function ListRun(kind: Kind, lines: seq<Line>): (n: nat)
    ensures n <= |lines| && forall i :: 0 <= i < n ==> Continues(kind, lines[i])
    ensures n < |lines| ==> !Continues(kind, lines[n])
  {
    if lines == [] || !Continues(kind, lines[0]) then 0 else ListRun(kind, lines[1..]) + 1
  }

  /** The texts of the text lines and items among some lines. */
  function Texts(lines: seq<Line>): seq<string> {
    if lines == [] then []
    else (if lines[0].Text? || lines[0].Item? then [lines[0].text] else []) + Texts(lines[1..])
  }

  /** Maximal runs: text lines make a paragraph; items of one kind, with blank lines among them, make a list. */
  function Grouped(lines: seq<Line>): seq<Group>
    decreases |lines|
  {
    if lines == [] then []
    else match lines[0]
      case Blank => Grouped(lines[1..])
      case Rule => [RuleGroup] + Grouped(lines[1..])
      case Placeholder(text) => [CodeGroup(text)] + Grouped(lines[1..])
      case Heading(marks, text) => [TitleGroup(Level(marks), text)] + Grouped(lines[1..])
      case Text(_) =>
        var n := TextRun(lines);
        [TextGroup(Texts(lines[..n]))] + Grouped(lines[n..])
      case Item(kind, _) =>
        var n := ListRun(kind, lines);
        [ListGroup(kind, Texts(lines[..n]))] + Grouped(lines[n..])
  }

  function Items(texts: seq<string>): seq<Token> {
    if texts == [] then [] else [ListItem(texts[0])] + Items(texts[1..])
  }

  function Tokens(g: Group): seq<Token> {
    match g
    case TextGroup(lines) => [Paragraph(lines)]
    case ListGroup(kind, items) => [Open(kind)] + Items(items) + [Close(kind)]
    case TitleGroup(level, text) => [Title(level, text)]
    case RuleGroup => [Hr]
    case CodeGroup(text) => [Block(text)]
  }

  function Emitted(groups: seq<Group>): seq<Token> {
    if groups == [] then [] else Tokens(groups[0]) + Emitted(groups[1..])
  }

  // ---- The loop emits the grouping ----

  /** The output that remains to be emitted from a state, read off the remaining lines. */
  function Rest(list: OpenList, paragraph: seq<string>, lines: seq<Line>): seq<Token>
    requires list.NoList? || paragraph == []
  {
    match list
    case InList(kind) =>
      var n := ListRun(kind, lines);
      Items(Texts(lines[..n])) + [Close(kind)] + Emitted(Grouped(lines[n..]))
    case NoList =>
      if paragraph == [] then Emitted(Grouped(lines))
      else
        var n := TextRun(lines);
        [Paragraph(paragraph + Texts(lines[..n]))] + Emitted(Grouped(lines[n..]))
  }

  /** The texts of a non-empty prefix. */
  lemma TextsOfPrefix(lines: seq<Line>, n: nat)
    requires 0 < n <= |lines|
    ensures Texts(lines[..n]) == (if lines[0].Text? || lines[0].Item? then [lines[0].text] else []) + Texts(lines[1..][..n - 1])
  {
    var run := lines[..n];
    assert run[0] == lines[0] && run[1..] == lines[1..][..n - 1];
  }

  lemma RunOfText(lines: seq<Line>)
    requires lines != [] && lines[0].Text?
    ensures var n := TextRun(lines);
            && n == TextRun(lines[1..]) + 1 && lines[n..] == lines[1..][n - 1..]
            && Texts(lines[..n]) == [lines[0].text] + Texts(lines[1..][..n - 1])
  {
    TextsOfPrefix(lines, TextRun(lines));
    hide Texts;
  }

  lemma RunOfList(kind: Kind, lines: seq<Line>)
    requires lines != [] && Continues(kind, lines[0])
    ensures var n := ListRun(kind, lines);
            && n == ListRun(kind, lines[1..]) + 1 && lines[n..] == lines[1..][n - 1..]
            && Texts(lines[..n]) == (if lines[0].Item? then [lines[0].text] else []) + Texts(lines[1..][..n - 1])
  {
    TextsOfPrefix(lines, ListRun(kind, lines));
    hide Texts;
  }

  /** A line that does not continue what is open closes it, and then stands at the start of what follows. */
  lemma RestCloses(list: OpenList, paragraph: seq<string>, lines: seq<Line>)
    requires list.NoList? || paragraph == []
    requires lines == [] || (list.InList? && !Continues(list.kind, lines[0])) || (list.NoList? && !lines[0].Text?)
    ensures Rest(list, paragraph, lines) ==
            (if list.InList? then [Close(list.kind)] else if paragraph == [] then [] else [Paragraph(paragraph)])
            + Rest(NoList, [], lines)
  {
    assert Items([]) == [] && Texts([]) == [] && lines[..0] == [] && lines[0..] == lines && paragraph + [] == paragraph;
  }

  lemma RestText(paragraph: seq<string>, lines: seq<Line>)
    requires lines != [] && lines[0].Text?
    ensures Rest(NoList, paragraph, lines) == Rest(NoList, paragraph + [lines[0].text], lines[1..])
  {
    RunOfText(lines);
    var n := TextRun(lines);
    var more := Texts(lines[1..][..n - 1]);
    assert paragraph + ([lines[0].text] + more) == (paragraph + [lines[0].text]) + more;
    assert [] + ([lines[0].text] + more) == [lines[0].text] + more;
    assert Emitted(Grouped(lines)) == [Paragraph(Texts(lines[..n]))] + Emitted(Grouped(lines[n..]));
  }

  lemma RestItem(kind: Kind, lines: seq<Line>)
    requires lines != [] && lines[0].Item? && lines[0].kind == kind
    ensures Rest(InList(kind), [], lines) == [ListItem(lines[0].text)] + Rest(InList(kind), [], lines[1..])
  {
    hide Grouped, Emitted;
    RunOfList(kind, lines);
    hide ListRun, Texts;
    var n, text := ListRun(kind, lines), lines[0].text;
    var more, close := Texts(lines[1..][..n - 1]), [Close(kind)] + Emitted(Grouped(lines[n..]));
    ItemsCons(text, more);
    hide Items;
    assert Rest(InList(kind), [], lines) == Items([text] + more) + close;
    assert Rest(InList(kind), [], lines[1..]) == Items(more) + close;
  }

  lemma ItemsCons(text: string, more: seq<string>)
    ensures Items([text] + more) == [ListItem(text)] + Items(more)
  {
    assert ([text] + more)[1..] == more;
  }

  lemma RestOpens(kind: Kind, lines: seq<Line>)
    requires lines != [] && lines[0].Item? && lines[0].kind == kind
    ensures Rest(NoList, [], lines) == [Open(kind)] + Rest(InList(kind), [], lines)
  {
    hide Items, Texts, ListRun;
    var n := ListRun(kind, lines);
    var groups := Grouped(lines);
    assert groups == [ListGroup(kind, Texts(lines[..n]))] + Grouped(lines[n..]);
    assert groups[1..] == Grouped(lines[n..]);
  }

  lemma RestBlank(list: OpenList, lines: seq<Line>)
    requires lines != [] && lines[0].Blank?
    ensures Rest(list, [], lines) == Rest(list, [], lines[1..])
  {
    if list.InList? {
      RunOfList(list.kind, lines);
      var more := Texts(lines[1..][..ListRun(list.kind, lines) - 1]);
      assert [] + more == more;
    }
  }

  lemma RestSingle(lines: seq<Line>)
    requires lines != [] && (lines[0].Rule? || lines[0].Placeholder? || lines[0].Heading?)
    ensures Rest(NoList, [], lines) == Next(START, lines[0]).out + Rest(NoList, [], lines[1..])
  {
    var groups := Grouped(lines);
    assert groups[1..] == Grouped(lines[1..]);
  }

  /** The output so far and the output to come. */
  function Whole(s: State, lines: seq<Line>): seq<Token>
    requires s.list.NoList? || s.paragraph == []
  {
    s.out + Rest(s.list, s.paragraph, lines)
  }

  /** Closing what is open does not change the whole output, when the next line closes it anyway. */
  lemma WholeCloses(s: State, lines: seq<Line>)
    requires s.list.NoList? || s.paragraph == []
    requires lines == [] || (s.list.InList? && !Continues(s.list.kind, lines[0])) || (s.list.NoList? && !lines[0].Text?)
    ensures Whole(s, lines) == Whole(EndList(EndParagraph(s)), lines)
    ensures var v := EndList(EndParagraph(s)); v.list == NoList && v.paragraph == []
  {
    hide Rest;
    RestCloses(s.list, s.paragraph, lines);
    var v := EndList(EndParagraph(s));
    assert v.out + Rest(NoList, [], lines) == s.out + ((v.out[|s.out|..]) + Rest(NoList, [], lines));
  }

  lemma StepOfText(s: State, lines: seq<Line>)
    requires lines != [] && lines[0].Text? && (s.list.NoList? || s.paragraph == [])
    ensures var v := Next(s, lines[0]);
            v.list.NoList? && Whole(s, lines) == Whole(v, lines[1..])
  {
    hide Rest;
    if s.list.InList? { WholeCloses(s, lines); }
    RestText(s.paragraph, lines);
  }

  lemma StepOfItem(s: State, lines: seq<Line>)
    requires lines != [] && lines[0].Item? && (s.list.NoList? || s.paragraph == [])
    ensures var v := Next(s, lines[0]);
            v.paragraph == [] && Whole(s, lines) == Whole(v, lines[1..])
  {
    hide Rest;
    var kind, t := lines[0].kind, [ListItem(lines[0].text)];
    RestItem(kind, lines);
    RestOpens(kind, lines);
    var rest := Rest(InList(kind), [], lines[1..]);
    if s.list == InList(kind) {
      assert s.out + (t + rest) == (s.out + t) + rest;
    } else {
      WholeCloses(s, lines);
      var closed := EndList(EndParagraph(s)).out;
      assert closed + ([Open(kind)] + (t + rest)) == ((closed + [Open(kind)]) + t) + rest;
    }
  }

  lemma StepOfBlank(s: State, lines: seq<Line>)
    requires lines != [] && lines[0].Blank? && (s.list.NoList? || s.paragraph == [])
    ensures var v := Next(s, lines[0]);
            (v.list.NoList? || v.paragraph == []) && Whole(s, lines) == Whole(v, lines[1..])
  {
    hide Rest;
    if s.list.NoList? { WholeCloses(s, lines); }
    RestBlank(s.list, lines);
  }

  lemma StepOfSingle(s: State, lines: seq<Line>)
    requires lines != [] && (s.list.NoList? || s.paragraph == [])
    requires lines[0].Rule? || lines[0].Placeholder? || lines[0].Heading?
    ensures var v := Next(s, lines[0]);
            v.list.NoList? && Whole(s, lines) == Whole(v, lines[1..])
  {
    hide Rest;
    WholeCloses(s, lines);
    RestSingle(lines);
    var closed, one, rest := EndList(EndParagraph(s)).out, Next(START, lines[0]).out, Rest(NoList, [], lines[1..]);
    assert closed + (one + rest) == (closed + one) + rest;
  }

  lemma {:induction false} FinishIsWhole(s: State, lines: seq<Line>)
    requires s.list.NoList? || s.paragraph == []
    ensures Finish(s, lines) == Whole(s, lines)
    decreases |lines|
  {
    if lines == [] {
      WholeCloses(s, []);
      assert Rest(NoList, [], []) == [];
    } else {
      match lines[0] {
        case Text(_) => StepOfText(s, lines);
        case Item(_, _) => StepOfItem(s, lines);
        case Blank => StepOfBlank(s, lines);
        case _ => StepOfSingle(s, lines);
      }
      FinishIsWhole(Next(s, lines[0]), lines[1..]);
    }
  }

  lemma LoopGroups(lines: seq<Line>)
    ensures Finish(START, lines) == Emitted(Grouped(lines))
  {
    FinishIsWhole(START, lines);
  }

  // ---- The output is well nested ----

  /** Lists open and close in turn, items stand only inside one, and nothing else does. */
  predicate WellNested(tokens: seq<Token>, open: OpenList) {
    if tokens == [] then open.NoList?
    else match tokens[0]
      case Open(kind) => open.NoList? && WellNested(tokens[1..], InList(kind))
      case Close(kind) => open == InList(kind) && WellNested(tokens[1..], NoList)
      case ListItem(_) => open.InList? && WellNested(tokens[1..], open)
      case _ => open.NoList? && WellNested(tokens[1..], NoList)
  }

  lemma {:induction false} ItemsNest(kind: Kind, items: seq<string>, rest: seq<Token>)
    requires WellNested(rest, NoList)
    ensures WellNested(Items(items) + [Close(kind)] + rest, InList(kind))
  {
    var all := Items(items) + [Close(kind)] + rest;
    if items == [] {
      assert all == [Close(kind)] + rest && all[1..] == rest;
    } else {
      ItemsNest(kind, items[1..], rest);
      assert all[1..] == Items(items[1..]) + [Close(kind)] + rest;
    }
  }

  lemma EmittedCons(g: Group, groups: seq<Group>)
    ensures Emitted([g] + groups) == Tokens(g) + Emitted(groups)
  {
    assert ([g] + groups)[1..] == groups;
  }

  lemma NestTokens(g: Group, rest: seq<Token>)
    requires WellNested(rest, NoList)
    ensures WellNested(Tokens(g) + rest, NoList)
  {
    var all := Tokens(g) + rest;
    if g.ListGroup? {
      assert all[1..] == Items(g.items) + [Close(g.kind)] + rest;
      ItemsNest(g.kind, g.items, rest);
    } else {
      assert all[1..] == rest;
    }
  }

  /** Whatever the lines, the output is well nested. */
  lemma {:induction false} EmittedNests(groups: seq<Group>)
    ensures WellNested(Emitted(groups), NoList)
  {
    hide WellNested, Emitted;
    if groups == [] {
      NothingNests();
    } else {
      EmittedNests(groups[1..]);
      EmittedCons(groups[0], groups[1..]);
      NestTokens(groups[0], Emitted(groups[1..]));
      assert groups == [groups[0]] + groups[1..];
    }
  }

  lemma NothingNests()
    ensures Emitted([]) == [] && WellNested([], NoList)
  {
  }

  // ---- The output says what the lines say ----

  /** A heading keeps the level it is drawn at. */
  function AsDrawn(line: Line): Line {
    if line.Heading? then Heading(Level(line.marks), line.text) else line
  }

  /** The lines that a reader finds in the output; `kind` is that of the open list. */
  function ReadBack(tokens: seq<Token>, kind: Kind): seq<Line> {
    if tokens == [] then []
    else match tokens[0]
      case Open(k) => ReadBack(tokens[1..], k)
      case Close(_) => ReadBack(tokens[1..], kind)
      case ListItem(text) => [Item(kind, text)] + ReadBack(tokens[1..], kind)
      case Paragraph(lines) => TextLines(lines) + ReadBack(tokens[1..], kind)
      case Title(level, text) => [Heading(level, text)] + ReadBack(tokens[1..], kind)
      case Hr => [Rule] + ReadBack(tokens[1..], kind)
      case Block(text) => [Placeholder(text)] + ReadBack(tokens[1..], kind)
  }

  function TextLines(texts: seq<string>): seq<Line> {
    if texts == [] then [] else [Text(texts[0])] + TextLines(texts[1..])
  }

  function ItemLines(kind: Kind, texts: seq<string>): seq<Line> {
    if texts == [] then [] else [Item(kind, texts[0])] + ItemLines(kind, texts[1..])
  }

  /** The non-blank lines, headings as drawn. */
  function Spoken(lines: seq<Line>): seq<Line> {
    if lines == [] then [] else (if lines[0].Blank? then [] else [AsDrawn(lines[0])]) + Spoken(lines[1..])
  }

  lemma {:induction false} SpokenConcat(a: seq<Line>, b: seq<Line>)
    ensures Spoken(a + b) == Spoken(a) + Spoken(b)
  {
    if a == [] {
      assert a + b == b;
    } else {
      var head := if a[0].Blank? then [] else [AsDrawn(a[0])];
      calc {
        Spoken(a + b);
        { assert (a + b)[0] == a[0] && (a + b)[1..] == a[1..] + b; }
        head + Spoken(a[1..] + b);
        { SpokenConcat(a[1..], b); }
        head + (Spoken(a[1..]) + Spoken(b));
        (head + Spoken(a[1..])) + Spoken(b);
        Spoken(a) + Spoken(b);
      }
    }
  }

  lemma {:induction false} SpokenText(lines: seq<Line>)
    requires forall i :: 0 <= i < |lines| ==> lines[i].Text?
    ensures Spoken(lines) == TextLines(Texts(lines))
  {
    if lines != [] {
      SpokenText(lines[1..]);
      assert Texts(lines) == [lines[0].text] + Texts(lines[1..]);
    }
  }

  lemma {:induction false} SpokenItems(kind: Kind, lines: seq<Line>)
    requires forall i :: 0 <= i < |lines| ==> Continues(kind, lines[i])
    ensures Spoken(lines) == ItemLines(kind, Texts(lines))
  {
    if lines != [] {
      SpokenItems(kind, lines[1..]);
      var more := Texts(lines[1..]);
      if lines[0].Item? {
        assert Texts(lines) == [lines[0].text] + more && Texts(lines)[1..] == more;
      } else {
        assert [] + more == more;
      }
    }
  }

  lemma {:induction false} ReadItems(kind: Kind, items: seq<string>, rest: seq<Token>)
    ensures ReadBack(Items(items) + [Close(kind)] + rest, kind) == ItemLines(kind, items) + ReadBack(rest, kind)
  {
    var all := Items(items) + [Close(kind)] + rest;
    if items == [] {
      assert all == [Close(kind)] + rest && all[1..] == rest;
    } else {
      ReadItems(kind, items[1..], rest);
      assert all[1..] == Items(items[1..]) + [Close(kind)] + rest;
    }
  }

  /** Outside lists the kind does not matter, since every list is opened first. */
  lemma {:induction false} KindForgotten(groups: seq<Group>, k: Kind, k': Kind)
    ensures ReadBack(Emitted(groups), k) == ReadBack(Emitted(groups), k')
  {
    if groups != [] {
      KindForgotten(groups[1..], k, k');
      var all, rest := Emitted(groups), Emitted(groups[1..]);
      if groups[0].ListGroup? {
        assert all[0] == Open(groups[0].kind);
      } else {
        assert all[1..] == rest;
      }
    }
  }

  /** The lines that a group stands for. */
  function GroupLines(g: Group): seq<Line> {
    match g
    case TextGroup(lines) => TextLines(lines)
    case ListGroup(kind, items) => ItemLines(kind, items)
    case TitleGroup(level, text) => [Heading(level, text)]
    case RuleGroup => [Rule]
    case CodeGroup(text) => [Placeholder(text)]
  }

  lemma ReadList(kind: Kind, items: seq<string>, rest: seq<Token>, k: Kind)
    ensures ReadBack(Tokens(ListGroup(kind, items)) + rest, k) == ItemLines(kind, items) + ReadBack(rest, kind)
  {
    var inner := Items(items) + [Close(kind)] + rest;
    ReadItems(kind, items, rest);
    assert Tokens(ListGroup(kind, items)) + rest == [Open(kind)] + inner;
    hide Items, ItemLines, Tokens;
    assert ([Open(kind)] + inner)[1..] == inner;
  }

  lemma ReadTokens(g: Group, rest: seq<Token>, k: Kind)
    requires g.ListGroup? ==> ReadBack(rest, g.kind) == ReadBack(rest, k)
    ensures ReadBack(Tokens(g) + rest, k) == GroupLines(g) + ReadBack(rest, k)
  {
    hide Items, ItemLines, TextLines;
    if g.ListGroup? {
      ReadList(g.kind, g.items, rest, k);
    } else {
      var t := Tokens(g)[0];
      assert Tokens(g) + rest == [t] + rest && ([t] + rest)[1..] == rest;
    }
  }

  lemma ReadGroup(g: Group, groups: seq<Group>, k: Kind)
    ensures ReadBack(Emitted([g] + groups), k) == GroupLines(g) + ReadBack(Emitted(groups), k)
  {
    hide ReadBack, Emitted, GroupLines;
    EmittedCons(g, groups);
    if g.ListGroup? { KindForgotten(groups, g.kind, k); }
    ReadTokens(g, Emitted(groups), k);
  }

  /** Every non-blank line is in the output exactly once, in its place and as what it was. */
  lemma {:induction false} OutputReadsBack(lines: seq<Line>, k: Kind)
    ensures ReadBack(Emitted(Grouped(lines)), k) == Spoken(lines)
    decreases |lines|
  {
    hide Emitted, ReadBack;
    if lines == [] {
      ReadNothing(k);
    } else if lines[0].Text? {
      var n := TextRun(lines);
      OutputReadsBack(lines[n..], k);
      ReadGroup(TextGroup(Texts(lines[..n])), Grouped(lines[n..]), k);
      hide Spoken;
      SpokenText(lines[..n]);
      SpokenPrefix(lines, n);
    } else if lines[0].Item? {
      var n := ListRun(lines[0].kind, lines);
      OutputReadsBack(lines[n..], k);
      ReadGroup(ListGroup(lines[0].kind, Texts(lines[..n])), Grouped(lines[n..]), k);
      hide Spoken;
      SpokenItems(lines[0].kind, lines[..n]);
      SpokenPrefix(lines, n);
    } else {
      OutputReadsBack(lines[1..], k);
      if !lines[0].Blank? { ReadGroup(Grouped(lines)[0], Grouped(lines[1..]), k); }
    }
  }

  lemma SpokenPrefix(lines: seq<Line>, n: nat)
    requires n <= |lines|
    ensures Spoken(lines) == Spoken(lines[..n]) + Spoken(lines[n..])
  {
    hide Spoken;
    SpokenConcat(lines[..n], lines[n..]);
    assert lines == lines[..n] + lines[n..];
  }

  lemma ReadNothing(k: Kind)
    ensures ReadBack(Emitted([]), k) == []
  {
  }

  /** Groups are never empty, and two lists in a row are of different kinds: no list is split. */
  ghost predicate Tight(groups: seq<Group>) {
    && (forall i :: 0 <= i < |groups| && groups[i].TextGroup? ==> groups[i].lines != [])
    && (forall i :: 0 <= i < |groups| && groups[i].ListGroup? ==> groups[i].items != [])
    && (forall i :: 0 <= i < |groups| - 1 && groups[i].ListGroup? && groups[i + 1].ListGroup? ==>
          groups[i].kind != groups[i + 1].kind)
  }

  lemma {:induction false} GroupsAreTight(lines: seq<Line>)
    ensures Tight(Grouped(lines))
    ensures Grouped(lines) != [] && Grouped(lines)[0].ListGroup? && !lines[0].Blank? ==> lines[0].Item? && lines[0].kind == Grouped(lines)[0].kind
    decreases |lines|
  {
    if lines != [] {
      match lines[0] {
        case Text(_) =>
          RunOfText(lines);
          GroupsAreTight(lines[TextRun(lines)..]);
        case Item(kind, _) =>
          RunOfList(kind, lines);
          GroupsAreTight(lines[ListRun(kind, lines)..]);
        case _ => GroupsAreTight(lines[1..]);
      }
    }
  }

  // ---- Blank lines ----

  function Run(s: State, lines: seq<Line>): State
    decreases |lines|
  {
    if lines == [] then s else Run(Next(s, lines[0]), lines[1..])
  }

  lemma {:induction false} FinishAfterRun(s: State, a: seq<Line>, b: seq<Line>)
    ensures Finish(s, a + b) == Finish(Run(s, a), b)
    decreases |a|
  {
    if a == [] {
      assert a + b == b;
    } else {
      assert (a + b)[0] == a[0] && (a + b)[1..] == a[1..] + b;
      FinishAfterRun(Next(s, a[0]), a[1..], b);
    }
  }

  /** A paragraph is unfinished exactly after a text line, and never inside a list. */
  lemma {:induction false} UnfinishedAfterText(s: State, lines: seq<Line>)
    requires s.list.NoList? || s.paragraph == []
    ensures var v := Run(s, lines);
            && (v.list.NoList? || v.paragraph == [])
            && (lines != [] ==> (v.paragraph != [] <==> lines[|lines| - 1].Text?))
    decreases |lines|
  {
    if lines != [] {
      UnfinishedAfterText(Next(s, lines[0]), lines[1..]);
      if |lines| > 1 { assert lines[1..][|lines| - 2] == lines[|lines| - 1]; }
    }
  }

  /**
   A blank line matters exactly between two text lines, where it splits a paragraph; anywhere else, and so
   anywhere in or next to a list, the output is the same without it.
   */
  lemma BlankMattersExactly(a: seq<Line>, b: seq<Line>)
    ensures Emitted(Grouped(a + [Blank] + b)) != Emitted(Grouped(a + b))
            <==> a != [] && a[|a| - 1].Text? && b != [] && b[0].Text?
  {
    hide Grouped, Emitted, Run, Finish;
    LoopGroups(a + [Blank] + b);
    LoopGroups(a + b);
    assert a + [Blank] + b == a + ([Blank] + b);
    FinishAfterRun(START, a, [Blank] + b);
    FinishAfterRun(START, a, b);
    RunOfNothing();
    UnfinishedAfterText(START, a);
    BlankAt(Run(START, a), b);
  }

  lemma BlankAt(s: State, b: seq<Line>)
    requires s.list.NoList? || s.paragraph == []
    ensures Finish(s, [Blank] + b) != Finish(s, b) <==> s.paragraph != [] && b != [] && b[0].Text?
  {
    assert ([Blank] + b)[1..] == b;
    assert Finish(s, [Blank] + b) == Finish(EndParagraph(s), b);
    hide Finish, EndParagraph;
    NothingToEnd(s);
    if s.paragraph != [] {
      if b == [] || !b[0].Text? {
        FinishIsWhole(s, b);
        FinishIsWhole(EndParagraph(s), b);
        WholeCloses(s, b);
      } else {
        SplitParagraph(s, b);
      }
    }
  }

  lemma NothingToEnd(s: State)
    ensures s.paragraph == [] ==> EndParagraph(s) == s
    ensures EndParagraph(s).list == s.list && EndParagraph(s).paragraph == []
    ensures s.list.NoList? ==> EndList(s) == s && EndList(EndParagraph(s)) == EndParagraph(s)
  {
  }

  lemma RunOfNothing()
    ensures Run(START, []) == START
  {
  }

  /** Ending a paragraph before a text line leaves a shorter paragraph in its place. */
  lemma SplitParagraph(s: State, b: seq<Line>)
    requires s.list.NoList? && s.paragraph != [] && b != [] && b[0].Text?
    ensures Finish(s, b) != Finish(EndParagraph(s), b)
  {
    FinishIsWhole(s, b);
    FinishIsWhole(EndParagraph(s), b);
    RunOfText(b);
    var joined := s.paragraph + Texts(b[..TextRun(b)]);
    assert |joined| > |s.paragraph|;
    assert Finish(s, b)[|s.out|] == Paragraph(joined);
    assert Finish(EndParagraph(s), b)[|s.out|] == Paragraph(s.paragraph);
  }
}
