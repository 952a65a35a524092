/**
 The transcript of a session (`say`, `working`, and clearing; apps/webui-static/coden-view-model.js:333-340 and
 415-419, apps/webui-static/coden-terminal.js:400): ordinary entries stay, working notes come and go.
 */
module Transcript {
  import opened Options
  import opened Sorting

  const KINDS := {"note", "user", "agent", "tool", "error"}

  const CLEARED := "Transcript cleared. The session kept its state — this shell is a viewer."

  /** A working note is an object of its own, told from every other by its identity. */
  datatype Entry = Said(kind: string, text: string, detail: Option<seq<string>>) | Working(note: nat)

  /** What a shell can do; `Done` may come in any order, more than once, and after a clear. */
  datatype Act = Say(kind: string, text: string, detail: Option<seq<string>>) | Clear | Start | Done(note: nat)

  /** The transcript, and how many working notes were ever started. */
  datatype Log = Log(entries: seq<Entry>, started: nat)

  /** The position of the last entry equal to `e`, or -1: `lastIndexOf`. */
  function LastIndexOf(entries: seq<Entry>, e: Entry): (i: int)
    ensures -1 <= i < |entries|
    ensures i >= 0 ==> entries[i] == e
    ensures forall j :: i < j < |entries| ==> entries[j] != e
  {
    if entries == [] then -1
    else if entries[|entries| - 1] == e then |entries| - 1
    else LastIndexOf(entries[..|entries| - 1], e)
  }

  function Without(entries: seq<Entry>, e: Entry): seq<Entry> {
    var at := LastIndexOf(entries, e);
    if at >= 0 then entries[..at] + entries[at + 1..] else entries
  }

  function Do(log: Log, act: Act): Log {
    match act
    case Say(kind, text, detail) => if kind in KINDS then log.(entries := log.entries + [Said(kind, text, detail)]) else log
    case Clear => log.(entries := [Said("note", CLEARED, None)])
    case Start => Log(log.entries + [Working(log.started)], log.started + 1)
    case Done(note) => log.(entries := Without(log.entries, Working(note)))
  }

  /** The view whose transcript the shells share. */
  class View {
    var transcript: seq<Entry>
    var started: nat

    function Contents(): Log
      reads this
    {
      Log(transcript, started)
    }

    constructor (opening: string)
      ensures Contents() == Log([Said("note", opening, None)], 0)
    {
      transcript, started := [Said("note", opening, None)], 0;
    }

    /** An unknown kind throws and changes nothing. */
    method Record(kind: string, text: string, detail: Option<seq<string>>) returns (ok: bool)
      modifies this
      ensures Contents() == Do(old(Contents()), Say(kind, text, detail))
      ensures ok <==> kind in {"note", "user", "agent", "tool", "error"}
    {
      ok := kind in KINDS;
      if ok { transcript := transcript + [Said(kind, text, detail)]; }
    }

    method Wipe()
      modifies this
      ensures Contents() == Do(old(Contents()), Clear)
      ensures |transcript| == 1 && transcript[0].Said? && transcript[0].kind == "note" && started == old(started)
    {
      transcript := [Said("note", CLEARED, None)];
    }

    /** Returns the identity that the closure handed to the caller removes. */
    method StartWorking() returns (note: nat)
      modifies this
      ensures Contents() == Do(old(Contents()), Start)
      ensures note == old(started)
    {
      note := started;
      transcript := transcript + [Working(started)];
      started := started + 1;
    }

    /** The closure that `working` returns, with its search from the end. */
    method Finished(note: nat)
      modifies this
      ensures Contents() == Do(old(Contents()), Done(note))
    {
      var at := |transcript| - 1;
      while at >= 0 && transcript[at] != Working(note)
        invariant -1 <= at < |transcript|
        invariant forall j :: at < j < |transcript| ==> transcript[j] != Working(note)
      {
        at := at - 1;
      }
      LastIndexIs(transcript, Working(note), at);
      if at >= 0 { transcript := transcript[..at] + transcript[at + 1..]; }
    }
  }

  lemma LastIndexIs(entries: seq<Entry>, e: Entry, at: int)
    requires -1 <= at < |entries| && (at >= 0 ==> entries[at] == e)
    requires forall j :: at < j < |entries| ==> entries[j] != e
    ensures LastIndexOf(entries, e) == at
  {
  }

  // ---- What every run leaves ----

  function Run(log: Log, acts: seq<Act>): Log
    decreases |acts|
  {
    if acts == [] then log else Run(Do(log, acts[0]), acts[1..])
  }

  predicate IsSaid(e: Entry) {
    e.Said?
  }

  function SaidAfter(before: seq<Entry>, act: Act): seq<Entry> {
    match act
    case Say(kind, text, detail) => if kind in KINDS then before + [Said(kind, text, detail)] else before
    case Clear => [Said("note", CLEARED, None)]
    case _ => before
  }

  function OpenAfter(before: set<nat>, started: nat, act: Act): set<nat> {
    match act
    case Say(_, _, _) => before
    case Clear => {}
    case Start => before + {started}
    case Done(note) => before - {note}
  }

  /** What was said since the last clear, starting from what stood there before. */
  function SaidSince(before: seq<Entry>, acts: seq<Act>): seq<Entry>
    decreases |acts|
  {
    if acts == [] then before else SaidSince(SaidAfter(before, acts[0]), acts[1..])
  }

  /** The notes started since the last clear and not done since. */
  function Open(before: set<nat>, started: nat, acts: seq<Act>): set<nat>
    decreases |acts|
  {
    if acts == [] then before
    else Open(OpenAfter(before, started, acts[0]), if acts[0].Start? then started + 1 else started, acts[1..])
  }

  /** Notes in the transcript are told apart and were all started. */
  ghost predicate Valid(log: Log) {
    && (forall i, j :: 0 <= i < j < |log.entries| && log.entries[i].Working? ==> log.entries[i] != log.entries[j])
    && (forall i :: 0 <= i < |log.entries| && log.entries[i].Working? ==> log.entries[i].note < log.started)
  }

  ghost predicate Notes(log: Log, open: set<nat>) {
    forall n: nat :: Working(n) in log.entries <==> n in open
  }

  lemma WithoutKeepsSaid(entries: seq<Entry>, note: nat)
    ensures Filter(Without(entries, Working(note)), IsSaid) == Filter(entries, IsSaid)
  {
    var at := LastIndexOf(entries, Working(note));
    if at >= 0 {
      assert entries == entries[..at] + ([entries[at]] + entries[at + 1..]);
      FilterConcat(entries[..at], [entries[at]] + entries[at + 1..], IsSaid);
      FilterConcat([entries[at]], entries[at + 1..], IsSaid);
      FilterConcat(entries[..at], entries[at + 1..], IsSaid);
    }
  }

  lemma DoneKeeps(log: Log, note: nat, open: set<nat>)
    requires Valid(log) && Notes(log, open)
    ensures Valid(Do(log, Done(note))) && Notes(Do(log, Done(note)), open - {note})
  {
    var e, at := log.entries, LastIndexOf(log.entries, Working(note));
    if at >= 0 {
      var front, back := e[..at], e[at + 1..];
      assert e == front + [Working(note)] + back;
      hide LastIndexOf;
      RemovalKeepsValid(front, Working(note), back, log.started);
      hide Valid;
      forall n: nat ensures Working(n) in front + back <==> n in open - {note} {
        assert Working(n) in e <==> n in open;
        RemovalTakesOne(front, Working(note), back, Working(n));
      }
    }
  }

  /** Without the entry between two parts the others are still told apart. */
  lemma RemovalKeepsValid(front: seq<Entry>, x: Entry, back: seq<Entry>, started: nat)
    requires Valid(Log(front + [x] + back, started))
    ensures Valid(Log(front + back, started))
    ensures x.Working? ==> x !in front && x !in back
  {
    var e, v := front + [x] + back, front + back;
    forall i | 0 <= i < |v| ensures v[i] == e[if i < |front| then i else i + 1] { }
    assert e[|front|] == x;
    assert forall i :: 0 <= i < |front| ==> e[i] == front[i];
    assert forall i :: 0 <= i < |back| ==> e[|front| + 1 + i] == back[i];
  }

  lemma RemovalTakesOne(front: seq<Entry>, x: Entry, back: seq<Entry>, y: Entry)
    requires x !in front && x !in back
    ensures y in front + back <==> y in front + [x] + back && y != x
  {
  }

  lemma AddKeeps(log: Log, act: Act, open: set<nat>)
    requires Valid(log) && Notes(log, open) && !act.Done?
    ensures Valid(Do(log, act)) && Notes(Do(log, act), OpenAfter(open, log.started, act))
  {
  }

  lemma SaidKeeps(log: Log, act: Act)
    ensures Filter(Do(log, act).entries, IsSaid) == SaidAfter(Filter(log.entries, IsSaid), act)
  {
    match act
    case Say(kind, text, detail) => FilterConcat(log.entries, [Said(kind, text, detail)], IsSaid);
    case Clear =>
    case Start => FilterConcat(log.entries, [Working(log.started)], IsSaid);
    case Done(note) => WithoutKeepsSaid(log.entries, note);
  }

  lemma DoKeeps(log: Log, act: Act, open: set<nat>)
    requires Valid(log) && Notes(log, open)
    ensures var v := Do(log, act);
            && Valid(v) && Notes(v, OpenAfter(open, log.started, act))
            && Filter(v.entries, IsSaid) == SaidAfter(Filter(log.entries, IsSaid), act)
            && v.started == if act.Start? then log.started + 1 else log.started
  {
    SaidKeeps(log, act);
    hide Filter, SaidAfter, Without;
    match act
    case Done(note) => DoneKeeps(log, note, open);
    case _ => AddKeeps(log, act, open);
  }

  /**
   After any run the entries that were said are the log since the last clear, in order, and the working notes are
   those started since and not done: interleaving, repeated and late `done` calls never lose or duplicate anything.
   */
  lemma {:induction false} RunLeaves(log: Log, acts: seq<Act>, open: set<nat>)
    requires Valid(log) && Notes(log, open)
    ensures var v := Run(log, acts);
            && Valid(v)
            && Filter(v.entries, IsSaid) == SaidSince(Filter(log.entries, IsSaid), acts)
            && Notes(v, Open(open, log.started, acts))
    decreases |acts|
  {
    if acts != [] {
      hide Valid, Notes, OpenAfter, SaidAfter, Do, Filter;
      var next, rest := Do(log, acts[0]), acts[1..];
      DoKeeps(log, acts[0], open);
      assert Run(log, acts) == Run(next, rest);
      assert SaidSince(Filter(log.entries, IsSaid), acts) == SaidSince(Filter(next.entries, IsSaid), rest);
      assert Open(open, log.started, acts) == Open(OpenAfter(open, log.started, acts[0]), next.started, rest);
      hide Run, SaidSince, Open;
      RunLeaves(next, rest, OpenAfter(open, log.started, acts[0]));
    }
  }

  /** Once every note that was started is done, the transcript is exactly the log since the last clear. */
  lemma NothingWorkingAtTheEnd(log: Log, acts: seq<Act>, open: set<nat>)
    requires Valid(log) && Notes(log, open) && Open(open, log.started, acts) == {}
    ensures Run(log, acts).entries == SaidSince(Filter(log.entries, IsSaid), acts)
  {
    RunLeaves(log, acts, open);
    var v := Run(log, acts);
    forall x | !IsSaid(x) ensures x !in v.entries {
      assert x == Working(x.note);
    }
    FilterAll(v.entries, IsSaid);
  }
}
