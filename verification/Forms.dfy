/** The closure form, filled one line at a time (apps/webui-static/coden-view-model.js:128-184). */
module Forms {
  import opened Options
  import opened Text

  const FIELDS := 3

  const CANCEL := "/cancel"

  datatype Params = Params(runId: string, summary: string, notDone: seq<string>, nothingLeftUndone: bool, residualRisk: string)

  /** What one line leads to: the next question, the completed call, or nothing at all. */
  datatype Reply = Ask(field: nat) | Call(params: Params) | Cancelled

  // ---- The list of what was not done ----

  function SplitAt(s: string, c: char): (parts: seq<string>)
    ensures parts != []
  {
    if s == "" then [""]
    else if s[0] == c then [""] + SplitAt(s[1..], c)
    else var rest := SplitAt(s[1..], c); [[s[0]] + rest[0]] + rest[1..]
  }

  function TrimmedNonEmpty(parts: seq<string>): seq<string> {
    if parts == [] then []
    else (if Trim(parts[0]) == "" then [] else [Trim(parts[0])]) + TrimmedNonEmpty(parts[1..])
  }

  function Items(s: string): seq<string> {
    TrimmedNonEmpty(SplitAt(s, ';'))
  }

  /** An item as the register receives it. */
  predicate IsItem(item: string) {
    item != "" && ';' !in item && !IsSpace(item[0]) && !IsSpace(item[|item| - 1])
  }

  function JoinWith(items: seq<string>, c: char): string {
    if items == [] then "" else if |items| == 1 then items[0] else items[0] + [c] + JoinWith(items[1..], c)
  }

  lemma {:induction false} TrimEndWithin(s: string, c: char)
    requires c !in s
    ensures c !in TrimEnd(s)
  {
  }

  lemma {:induction false} TrimStartWithin(s: string, c: char)
    requires c !in s
    ensures c !in TrimStart(s)
  {
    if s != "" && IsSpace(s[0]) {
      TrimStartWithin(s[1..], c);
    }
  }

  lemma {:induction false} SplitParts(s: string, c: char)
    ensures forall part <- SplitAt(s, c) :: c !in part
  {
    if s != "" {
      SplitParts(s[1..], c);
      var rest := SplitAt(s[1..], c);
      assert rest[0] in rest;
      if s[0] != c {
        assert c !in [s[0]] + rest[0];
        assert forall part <- rest[1..] :: part in rest;
      }
    }
  }

  lemma {:induction false} TrimmedAreItems(parts: seq<string>)
    requires forall part <- parts :: ';' !in part
    ensures forall item <- TrimmedNonEmpty(parts) :: IsItem(item)
  {
    if parts != [] {
      TrimmedAreItems(parts[1..]);
      assert parts[0] in parts;
      TrimStartWithin(parts[0], ';');
      TrimEndWithin(TrimStart(parts[0]), ';');
    }
  }

  lemma {:induction false} SplitOfJoined(item: string, rest: string)
    requires ';' !in item
    ensures SplitAt(item + [';'] + rest, ';') == [item] + SplitAt(rest, ';')
    ensures SplitAt(item, ';') == [item]
  {
    var s := item + [';'] + rest;
    if item == "" {
      assert s[1..] == rest;
    } else {
      assert item[0] in item;
      assert s[1..] == item[1..] + [';'] + rest;
      SplitOfJoined(item[1..], rest);
      assert [item[0]] + item[1..] == item;
    }
  }

  /** Items joined again split into themselves. */
  lemma {:induction false} ItemsRoundTrip(items: seq<string>)
    requires forall item <- items :: IsItem(item)
    ensures Items(JoinWith(items, ';')) == items
  {
    if items == [] {
      assert SplitAt("", ';') == [""] && Trim("") == "";
    } else {
      assert items[0] in items;
      TrimKeeps(items[0]);
      SplitOfJoined(items[0], JoinWith(items[1..], ';'));
      if |items| == 1 {
        assert items == [items[0]];
        assert TrimmedNonEmpty([items[0]]) == [items[0]] + TrimmedNonEmpty([]);
      } else {
        ItemsRoundTrip(items[1..]);
        var parts := SplitAt(JoinWith(items, ';'), ';');
        assert parts[1..] == SplitAt(JoinWith(items[1..], ';'), ';');
      }
    }
  }

  /** Every answer yields proper items, and the same items when the register's list is typed back in. */
  lemma ItemsAreProper(s: string)
    ensures forall item <- Items(s) :: IsItem(item)
    ensures Items(JoinWith(Items(s), ';')) == Items(s)
  {
    SplitParts(s, ';');
    TrimmedAreItems(SplitAt(s, ';'));
    ItemsRoundTrip(Items(s));
  }

  // ---- Filling the form ----

  /** `lower` is the case folding of the platform. */
  function Complete(runId: string, answers: seq<string>, lower: string -> string): Params
    requires |answers| == FIELDS
  {
    var nothing := lower(answers[1]) == "nothing";
    Params(runId, answers[0], if nothing then [] else Items(answers[1]), nothing, answers[2])
  }

  class Form {
    const subject: string
    var index: nat
    var answers: seq<string>

    predicate Valid()
      reads this
    {
      index == |answers| && index < FIELDS && subject != ""
    }

    constructor (subject: string)
      requires subject != ""
      ensures Valid() && this.subject == subject && answers == []
    {
      this.subject := subject;
      index, answers := 0, [];
    }

    /** `fillForm`: one typed line. A form that has been completed is not filled again. */
    method Fill(line: string, lower: string -> string) returns (r: Reply)
      requires Valid()
      modifies this
      ensures r.Cancelled? <==> Trim(line) == CANCEL
      ensures r.Cancelled? ==> answers == old(answers) && Valid()
      ensures !r.Cancelled? ==> answers == old(answers) + [Trim(line)]
      ensures r.Ask? <==> Trim(line) != CANCEL && |answers| < FIELDS
      ensures r.Ask? ==> r.field == |answers| && Valid()
      ensures r.Call? ==> |answers| == FIELDS && r.params == Complete(subject, answers, lower)
    {
      var typed := Trim(line);
      if typed == CANCEL { return Cancelled; }
      answers := answers + [typed];
      index := index + 1;
      if index < FIELDS { return Ask(index); }
      var notDone := answers[1];
      var nothing := lower(notDone) == "nothing";
      return Call(Params(subject, answers[0], if nothing then [] else Items(notDone), nothing, answers[2]));
    }
  }

  /** `startForm`: a form needs a subject. */
  method StartForm(argument: string) returns (form: Form?)
    ensures form == null <==> Trim(argument) == ""
    ensures form != null ==> fresh(form) && form.Valid() && form.answers == [] && form.subject == Trim(argument)
  {
    var subject := Trim(argument);
    if subject == "" { return null; }
    form := new Form(subject);
  }

  /** Feeding a list of lines until the form is done, cancelled, or out of lines. */
  method Walk(form: Form, lines: seq<string>, lower: string -> string) returns (r: Reply)
    requires form.Valid() && form.answers == []
    modifies form
    ensures r == Walked(form.subject, lines, lower)
  {
    hide Complete, Trim;
    r := Ask(0);
    for i := 0 to |lines|
      invariant form.Valid() && form.answers == Trims(lines[..i]) && i < FIELDS && r == Ask(i)
      invariant forall j :: 0 <= j < i ==> Trim(lines[j]) != CANCEL
    {
      assert lines[..i + 1] == lines[..i] + [lines[i]];
      r := form.Fill(lines[i], lower);
      assert form.answers == Trims(lines[..|form.answers|]);
      if !r.Ask? { return; }
    }
    assert lines[..|lines|] == lines;
  }

  function Trims(lines: seq<string>): (r: seq<string>)
    ensures |r| == |lines| && forall i :: 0 <= i < |r| ==> r[i] == Trim(lines[i])
  {
    seq(|lines|, i requires 0 <= i < |lines| => Trim(lines[i]))
  }

  /** The index of the first cancelling line, or the number of lines. */
  function FirstCancel(lines: seq<string>): (i: nat)
    ensures i <= |lines| && forall j :: 0 <= j < i ==> Trim(lines[j]) != CANCEL
    ensures i < |lines| ==> Trim(lines[i]) == CANCEL
  {
    if lines == [] || Trim(lines[0]) == CANCEL then 0 else FirstCancel(lines[1..]) + 1
  }

  /**
   The whole conversation: the first three lines complete the form unless one of them cancels it, and later lines
   are not looked at.
   */
  function Walked(subject: string, lines: seq<string>, lower: string -> string): Reply {
    if FirstCancel(lines) < FIELDS && FirstCancel(lines) < |lines| then Cancelled
    else if |lines| < FIELDS then Ask(|lines|)
    else Call(Complete(subject, Trims(lines[..FIELDS]), lower))
  }

  /**
   A completed form names something left undone or states that nothing was, except when the answer to that question
   is made of semicolons and white space only; it never does both.
   */
  lemma NamesOrStates(runId: string, answers: seq<string>, lower: string -> string)
    requires |answers| == FIELDS
    ensures var p := Complete(runId, answers, lower);
            && !(p.nothingLeftUndone && p.notDone != [])
            && (p.notDone == [] && !p.nothingLeftUndone <==>
                  lower(answers[1]) != "nothing" && OnlySeparators(answers[1]))
  {
    NoItemsExactly(answers[1]);
  }

  /** What three lines, none of them cancelling, make of a form, each answer by its place. */
  lemma CompletedExactly(subject: string, lines: seq<string>, lower: string -> string)
    requires |lines| >= 3 && forall i :: 0 <= i < 3 ==> Trim(lines[i]) != "/cancel"
    ensures var r := Walked(subject, lines, lower);
            var nothing := lower(Trim(lines[1])) == "nothing";
            && r.Call? && r.params.runId == subject && r.params.summary == Trim(lines[0])
            && r.params.nothingLeftUndone == nothing
            && r.params.notDone == (if nothing then [] else Items(Trim(lines[1])))
            && r.params.residualRisk == Trim(lines[2])
  {
    var first := FirstCancel(lines);
    assert first < |lines| ==> Trim(lines[first]) == CANCEL;
  }

  /** Items part by part: those before a semicolon, then those after it; a part without one is an item unless blank. */
  lemma {:induction false} ItemsByParts(part: string, rest: string)
    requires ';' !in part
    ensures Items(part) == if Trim(part) == "" then [] else [Trim(part)]
    ensures Items(part + ";" + rest) == Items(part) + Items(rest)
  {
    SplitOfJoined(part, rest);
    var parts := [part] + SplitAt(rest, ';');
    assert part + ";" + rest == part + [';'] + rest;
    assert parts[0] == part && parts[1..] == SplitAt(rest, ';');
    assert [part][1..] == [] && TrimmedNonEmpty([]) == [];
  }

  predicate AllBlank(parts: seq<string>) {
    forall i :: 0 <= i < |parts| ==> AllSpace(parts[i])
  }

  predicate OnlySeparators(s: string) {
    forall i :: 0 <= i < |s| ==> s[i] == ';' || IsSpace(s[i])
  }

  lemma TrimsToNothing(s: string)
    ensures Trim(s) == "" <==> AllSpace(s)
  {
    StartsToNothing(s);
    var t := TrimStart(s);
    if t != "" { EndKeepsFirst(t); }
  }

  lemma {:induction false} StartsToNothing(s: string)
    ensures TrimStart(s) == "" <==> AllSpace(s)
  {
    if s != "" {
      StartsToNothing(s[1..]);
      SpaceCons(s);
    }
  }

  lemma {:induction false} EndKeepsFirst(t: string)
    requires t != "" && !IsSpace(t[0])
    ensures TrimEnd(t) != ""
  {
    if IsSpace(t[|t| - 1]) {
      EndKeepsFirst(t[..|t| - 1]);
    }
  }

  lemma NoItemsExactly(s: string)
    ensures Items(s) == [] <==> OnlySeparators(s)
  {
    NoItems(SplitAt(s, ';'));
    PartsOfSplit(s);
  }

  lemma {:induction false} NoItems(parts: seq<string>)
    ensures TrimmedNonEmpty(parts) == [] <==> AllBlank(parts)
  {
    if parts != [] {
      NoItems(parts[1..]);
      TrimsToNothing(parts[0]);
      BlankCons(parts[0], parts[1..]);
      assert parts == [parts[0]] + parts[1..];
    }
  }

  lemma {:induction false} PartsOfSplit(s: string)
    ensures AllBlank(SplitAt(s, ';')) <==> OnlySeparators(s)
  {
    if s != "" {
      PartsOfSplit(s[1..]);
      var rest := SplitAt(s[1..], ';');
      var parts := SplitAt(s, ';');
      assert OnlySeparators(s) <==> (s[0] == ';' || IsSpace(s[0])) && OnlySeparators(s[1..]) by { SeparatorsCons(s); }
      if s[0] == ';' {
        assert AllSpace("");
        BlankCons("", rest);
      } else {
        BlankCons(rest[0], rest[1..]);
        assert rest == [rest[0]] + rest[1..];
        BlankCons([s[0]] + rest[0], rest[1..]);
        SpaceCons([s[0]] + rest[0]);
        assert ([s[0]] + rest[0])[1..] == rest[0];
      }
    }
  }

  lemma SeparatorsCons(s: string)
    requires s != ""
    ensures OnlySeparators(s) <==> (s[0] == ';' || IsSpace(s[0])) && OnlySeparators(s[1..])
  {
    assert s == [s[0]] + s[1..];
  }

  lemma SpaceCons(s: string)
    requires s != ""
    ensures AllSpace(s) <==> IsSpace(s[0]) && AllSpace(s[1..])
  {
    assert s == [s[0]] + s[1..];
  }

  lemma BlankCons(part: string, parts: seq<string>)
    ensures AllBlank([part] + parts) <==> AllSpace(part) && AllBlank(parts)
  {
    var all := [part] + parts;
    assert all[0] == part && forall i :: 0 <= i < |parts| ==> all[i + 1] == parts[i];
  }
}
