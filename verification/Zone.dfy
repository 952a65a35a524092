/**
 A time zone as a step function, and the two-pass solution of `t + offset(t) == w` for `t`
 (apps/webui-static/schedule.js). Instants, wall clocks and offsets are integers in milliseconds.
 */
module Zone {

  datatype Transition = Transition(at: int, offset: int)

  /** `initial` is in force before the first transition. */
  datatype Zone = Zone(initial: int, transitions: seq<Transition>)

  function OffsetAt(z: Zone, t: int): int
    decreases |z.transitions|
  {
    if z.transitions == [] then z.initial
    else if Last(z).at <= t then Last(z).offset
    else OffsetAt(Earlier(z), t)
  }

  function Last(z: Zone): Transition
    requires z.transitions != []
  {
    z.transitions[|z.transitions| - 1]
  }

  /** The zone as it was before its last transition was decided. */
  function Earlier(z: Zone): Zone
    requires z.transitions != []
  {
    z.(transitions := z.transitions[..|z.transitions| - 1])
  }

  function Final(z: Zone): int {
    if z.transitions == [] then z.initial else Last(z).offset
  }

  /** Offsets stay within `m` and transitions are at least `d` apart. */
  ghost predicate SpacedBy(z: Zone, m: int, d: int) {
    && -m <= z.initial <= m
    && (forall i :: 0 <= i < |z.transitions| ==> -m <= z.transitions[i].offset <= m)
    && (forall i, j :: 0 <= i < j < |z.transitions| ==> z.transitions[i].at + d <= z.transitions[j].at)
  }

  ghost predicate Spaced(z: Zone, m: int) {
    SpacedBy(z, m, 2 * m)
  }

  /** What the clock of the zone shows at instant `t`, written as if it were UTC. */
  function Reads(z: Zone, t: int): int {
    t + OffsetAt(z, t)
  }

  /** Some instant reads as `w`. */
  ghost predicate Readable(z: Zone, w: int) {
    exists t :: Reads(z, t) == w
  }

  /** One pass: trust the offset in force at `guess`. */
  function Pass(z: Zone, w: int, guess: int): int {
    w - OffsetAt(z, guess)
  }

  /** The two passes of `zonedWallClockToUtcIso`. */
  function Resolve(z: Zone, w: int): int {
    Pass(z, w, Pass(z, w, w))
  }

  /** `n` passes, starting from the wall clock itself. */
  function Passes(z: Zone, w: int, n: nat): int {
    if n == 0 then w else Pass(z, w, Passes(z, w, n - 1))
  }

  /** From each transition up to the next its offset is in force, and `initial` before the first. */
  lemma {:induction false} OffsetFromTransition(z: Zone, i: int, t: int)
    requires -1 <= i < |z.transitions|
    requires i >= 0 ==> z.transitions[i].at <= t
    requires forall j :: i < j < |z.transitions| ==> t < z.transitions[j].at
    ensures OffsetAt(z, t) == if i < 0 then z.initial else z.transitions[i].offset
    decreases |z.transitions|
  {
    if i < |z.transitions| - 1 {
      OffsetFromTransition(Earlier(z), i, t);
    }
  }

  // ---- Near a wall clock a spaced zone changes its offset at most once ----

  /** The offset around a wall clock: `before` until `at`, `after` from then on. */
  datatype Change = Change(at: int, before: int, after: int)

  ghost predicate Describes(c: Change, z: Zone, w: int, m: int) {
    && -m <= c.before <= m && -m <= c.after <= m
    && forall t :: w - m <= t <= w + m ==> OffsetAt(z, t) == if t < c.at then c.before else c.after
  }

  /** The transition nearest to `w`, or a change from an offset to itself when none is near. */
  function ChangeNear(z: Zone, w: int, m: int): (c: Change)
    decreases |z.transitions|
  {
    if z.transitions == [] then Change(w, z.initial, z.initial)
    else if Last(z).at <= w - m then Change(w, Last(z).offset, Last(z).offset)
    else if Last(z).at <= w + m then Change(Last(z).at, Final(Earlier(z)), Last(z).offset)
    else ChangeNear(Earlier(z), w, m)
  }

  lemma {:induction false} AtMostOneChange(z: Zone, w: int, m: int)
    requires Spaced(z, m)
    ensures Describes(ChangeNear(z, w, m), z, w, m)
    decreases |z.transitions|
  {
    if z.transitions != [] && Last(z).at > w - m {
      var e := Earlier(z);
      assert Spaced(e, m);
      if Last(z).at <= w + m {
        if e.transitions != [] {
          assert Last(e) == z.transitions[|z.transitions| - 2];
        }
      } else {
        AtMostOneChange(e, w, m);
        var c := ChangeNear(e, w, m);
        forall t | w - m <= t <= w + m ensures OffsetAt(z, t) == if t < c.at then c.before else c.after {
          assert OffsetAt(z, t) == OffsetAt(e, t);
        }
      }
    }
  }

  lemma {:induction false} OffsetBounded(z: Zone, t: int, m: int)
    requires Spaced(z, m)
    ensures -m <= OffsetAt(z, t) <= m
    decreases |z.transitions|
  {
    if z.transitions != [] && Last(z).at > t {
      assert Spaced(Earlier(z), m);
      OffsetBounded(Earlier(z), t, m);
    }
  }

  /** Exactly two candidates can read as `w`: one under each offset of the nearby change. */
  lemma ReadersOf(z: Zone, w: int, m: int, t: int)
    requires Spaced(z, m)
    ensures var c := ChangeNear(z, w, m);
            Reads(z, t) == w <==> (t == w - c.before && t < c.at) || (t == w - c.after && c.at <= t)
  {
    AtMostOneChange(z, w, m);
    OffsetBounded(z, t, m);
  }

  // ---- The two passes ----

  /** Two passes suffice: the result reads as `w` exactly when any instant does. */
  lemma TwoPassesSuffice(z: Zone, w: int, m: int)
    requires Spaced(z, m)
    ensures Reads(z, Resolve(z, w)) == w <==> Readable(z, w)
  {
    AtMostOneChange(z, w, m);
    var c := ChangeNear(z, w, m);
    if Readable(z, w) {
      var t :| Reads(z, t) == w;
      ReadersOf(z, w, m, t);
    }
  }

  /** A wall clock falls in a gap exactly when the nearby change jumps over it. */
  lemma GapExactly(z: Zone, w: int, m: int)
    requires Spaced(z, m)
    ensures var c := ChangeNear(z, w, m);
            !Readable(z, w) <==> c.at + c.before <= w < c.at + c.after
  {
    var c := ChangeNear(z, w, m);
    AtMostOneChange(z, w, m);
    if Readable(z, w) {
      var t :| Reads(z, t) == w;
      ReadersOf(z, w, m, t);
    } else {
      assert Reads(z, w - c.before) != w;
      assert Reads(z, w - c.after) != w;
    }
  }

  /**
   Inside a gap the result reads later than asked when `w` is not below the transition instant, and
   earlier otherwise; the comment at schedule.js:60-62 describes only the first case.
   */
  lemma ResultInGap(z: Zone, w: int, m: int)
    requires Spaced(z, m) && !Readable(z, w)
    ensures var c := ChangeNear(z, w, m);
            var jump := c.after - c.before;
            && jump > 0
            && Reads(z, Resolve(z, w)) == (if c.at <= w then w + jump else w - jump)
            && Resolve(z, w) == (if c.at <= w then w - c.before else w - c.after)
  {
    GapExactly(z, w, m);
    AtMostOneChange(z, w, m);
  }

  /** East of UTC the documented behaviour always holds inside a gap; west of UTC it never does. */
  lemma GapEastAndWest(z: Zone, w: int, m: int)
    requires Spaced(z, m) && !Readable(z, w)
    ensures var c := ChangeNear(z, w, m);
            && (c.before >= 0 ==> Reads(z, Resolve(z, w)) > w)
            && (c.after <= 0 ==> Reads(z, Resolve(z, w)) < w)
  {
    GapExactly(z, w, m);
    ResultInGap(z, w, m);
  }

  /** Inside a gap further passes never settle: they alternate between the two candidates for ever. */
  lemma {:induction false} PassesAlternateInGap(z: Zone, w: int, m: int, n: nat)
    requires Spaced(z, m) && !Readable(z, w) && n > 0
    ensures Passes(z, w, n) == if n % 2 == 1 then Passes(z, w, 1) else Resolve(z, w)
    ensures Passes(z, w, n) != Passes(z, w, n + 1)
  {
    GapExactly(z, w, m);
    AtMostOneChange(z, w, m);
    var c := ChangeNear(z, w, m);
    assert Passes(z, w, 1) == Pass(z, w, w);
    if n > 1 {
      PassesAlternateInGap(z, w, m, n - 1);
    }
  }

  /** Outside a gap every pass after the second returns the same instant. */
  lemma {:induction false} PassesSettle(z: Zone, w: int, m: int, n: nat)
    requires Spaced(z, m) && Readable(z, w) && n >= 2
    ensures Passes(z, w, n) == Resolve(z, w)
  {
    TwoPassesSuffice(z, w, m);
    if n > 2 {
      PassesSettle(z, w, m, n - 1);
    } else {
      assert Passes(z, w, 1) == Pass(z, w, w);
      assert Passes(z, w, 2) == Pass(z, w, Passes(z, w, 1));
    }
  }

  /** When two instants read as `w` the later one is returned if and only if `w` is not below the transition. */
  lemma ResultInOverlap(z: Zone, w: int, m: int, early: int, late: int)
    requires Spaced(z, m) && early < late && Reads(z, early) == w && Reads(z, late) == w
    ensures var c := ChangeNear(z, w, m);
            && early < c.at <= late
            && Resolve(z, w) == (if c.at <= w then late else early)
            && (c.after >= 0 ==> Resolve(z, w) == late)
            && (c.before <= 0 ==> Resolve(z, w) == early)
  {
    AtMostOneChange(z, w, m);
    ReadersOf(z, w, m, early);
    ReadersOf(z, w, m, late);
  }

  /** Resolving what an instant reads returns that instant, unless the overlap rule picks its twin. */
  lemma ResolveReads(z: Zone, t: int, m: int)
    requires Spaced(z, m)
    ensures var w := Reads(z, t);
            var c := ChangeNear(z, w, m);
            Resolve(z, w) == t <==>
              (c.after < c.before && c.at + c.after <= w < c.at + c.before ==> (c.at <= w <==> c.at <= t))
  {
    var w := Reads(z, t);
    AtMostOneChange(z, w, m);
    ReadersOf(z, w, m, t);
  }

  // ---- Why two passes, and why the spacing ----

  const HOUR := 3_600_000

  /** Europe/Rome in 2026 (schedule.js:60-65): to +02:00 on 29 March, back to +01:00 on 25 October. */
  const ROME := Zone(HOUR, [Transition(1_774_746_000_000, 2 * HOUR), Transition(1_792_890_000_000, HOUR)])

  /** America/New_York in 2026: to -04:00 on 8 March, back to -05:00 on 1 November. */
  const NEW_YORK := Zone(-5 * HOUR, [Transition(1_772_953_200_000, -4 * HOUR), Transition(1_793_512_800_000, -5 * HOUR)])

  /**
   The measured cases of schedule.js:60-65 (02:30 in the gap gives 01:30Z, 02:30 in the overlap gives 01:30Z);
   and both the other way round in New York. There 02:30 in the gap resolves to 06:30Z and so reads 01:30, before
   the jump; and 01:30 in the overlap, which 05:30Z and 06:30Z both read, resolves to 05:30Z, the first occurrence.
   */
  lemma MeasuredCases()
    ensures Resolve(ROME, 1_774_751_400_000) == 1_774_747_800_000
    ensures Reads(ROME, 1_774_747_800_000) == 1_774_751_400_000 + HOUR
    ensures Resolve(ROME, 1_792_895_400_000) == 1_792_891_800_000
    ensures Resolve(NEW_YORK, 1_772_937_000_000) == 1_772_951_400_000
    ensures Reads(NEW_YORK, 1_772_951_400_000) == 1_772_937_000_000 - HOUR
    ensures Resolve(NEW_YORK, 1_793_496_600_000) == 1_793_511_000_000
    ensures Reads(NEW_YORK, 1_793_511_000_000) == Reads(NEW_YORK, 1_793_514_600_000) == 1_793_496_600_000
  {
    forall t { TwoTransitions(ROME, t); }
    forall t { TwoTransitions(NEW_YORK, t); }
  }

  /** One pass is not enough: 01:30 on the day Rome jumps at 02:00 is read by an instant one pass misses. */
  lemma OnePassFails()
    ensures Readable(ROME, 1_774_747_800_000)
    ensures Reads(ROME, Pass(ROME, 1_774_747_800_000, 1_774_747_800_000)) != 1_774_747_800_000
  {
    forall t { TwoTransitions(ROME, t); }
    assert Reads(ROME, 1_774_744_200_000) == 1_774_747_800_000;
  }

  /** One millisecond less and two passes can miss: here only `-m` reads as 0, and they return 0, which reads as `-m`. */
  lemma CloseTransitionsFail(m: int)
    requires m > 0
    ensures var z := Zone(m, [Transition(1 - m, -m), Transition(m, 0)]);
            && SpacedBy(z, m, 2 * m - 1)
            && Reads(z, -m) == 0 && Readable(z, 0)
            && Resolve(z, 0) == 0 && Reads(z, 0) == -m
  {
    var z := Zone(m, [Transition(1 - m, -m), Transition(m, 0)]);
    TwoTransitions(z, -m);
    TwoTransitions(z, 0);
    TwoTransitions(z, m);
    assert Reads(z, -m) == 0;
  }

  /** The spacing is needed as it stands: twice the largest offset is the least that makes two passes enough. */
  lemma SpacingIsTight(m: int, d: int)
    requires m > 0
    ensures (forall z, w :: SpacedBy(z, m, d) ==> (Reads(z, Resolve(z, w)) == w <==> Readable(z, w))) <==> d >= 2 * m
  {
    if d >= 2 * m {
      forall z, w | SpacedBy(z, m, d) ensures Reads(z, Resolve(z, w)) == w <==> Readable(z, w) {
        TwoPassesSuffice(z, w, m);
      }
    } else {
      CloseTransitionsFail(m);
      var z := Zone(m, [Transition(1 - m, -m), Transition(m, 0)]);
      assert SpacedBy(z, m, d) && Readable(z, 0) && Reads(z, Resolve(z, 0)) != 0;
    }
  }

  lemma OneTransition(z: Zone, t: int)
    requires |z.transitions| == 1
    ensures OffsetAt(z, t) == if z.transitions[0].at <= t then z.transitions[0].offset else z.initial
  {
    assert Earlier(z).transitions == [];
  }

  lemma TwoTransitions(z: Zone, t: int)
    requires |z.transitions| == 2
    ensures OffsetAt(z, t) ==
            if z.transitions[1].at <= t then z.transitions[1].offset
            else if z.transitions[0].at <= t then z.transitions[0].offset else z.initial
  {
    OneTransition(Earlier(z), t);
  }
}
