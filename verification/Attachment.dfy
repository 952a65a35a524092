/**
 The attachment protocol of apps/webui-static/coden-terminal.js as a step system: one client that connects,
 asks, reconnects, detaches and is disposed of, against a network and a timer that may do anything the
 WHATWG WebSockets and HTML standards allow.
 */
module Attachment {
  import opened Options

  datatype Status = Idle | Connecting | Live | Reconnecting | Refused | Failed

  /** `readyState`; a socket is `Closed` from its close event on, which fires once. */
  datatype SocketState = Opening | Open | Closing | Closed

  datatype Request = Request(id: nat, socket: nat)

  /** A reply names the socket it came over and the id in its frame; a failure is a local rejection. */
  datatype Outcome = Reply(socket: nat, frameId: nat) | Failure

  datatype Settlement = Settlement(request: Request, outcome: Outcome)

  /** What a frame can do to the protocol; an id is looked at before the kind. */
  datatype Frame = Mismatch | Frame(id: Option<nat>, welcome: bool) | Throws | Unparsable

  datatype World = World(
    // the client
    socket: Option<nat>, status: Status, attempt: nat, disposed: bool, timer: Option<nat>, nextId: nat,
    pending: seq<Request>,
    // the browser: every socket and every timer made so far, whether the timer is still armed, and what it waits
    // for before jitter
    sockets: seq<SocketState>, timers: seq<bool>, delays: seq<nat>,
    // the history: every message sent, those that wait for a reply, those settled, and whether a detach, a refusal
    // or a disposal has happened
    sent: seq<Request>, issued: seq<Request>, settled: seq<Settlement>, stopped: bool)

  datatype Event =
    | Opened(s: nat)
    | ClosingBegins(s: nat)
    | Message(s: nat, frame: Frame)
    | CloseFired(s: nat, code: nat)
    | TimerFired(t: nat, constructed: bool)
    | Called
    | Resized
    | LoggedOut
    | DisposedOf

  const POLICY_REFUSAL := 1008

  // ---- What each function of the source does ----

  /** `!socket || socket.readyState !== 1` fails. */
  predicate CanSend(w: World) {
    w.socket.Some? && w.socket.value < |w.sockets| && w.sockets[w.socket.value] == Open
  }

  function Call(w: World): World {
    if !CanSend(w) then w
    else
      var r := Request(w.nextId + 1, w.socket.value);
      w.(nextId := w.nextId + 1, pending := w.pending + [r], sent := w.sent + [r], issued := w.issued + [r])
  }

  function SendGeometry(w: World): World {
    if CanSend(w) then w.(nextId := w.nextId + 1, sent := w.sent + [Request(w.nextId + 1, w.socket.value)]) else w
  }

  function Failures(requests: seq<Request>): seq<Settlement> {
    if requests == [] then [] else [Settlement(requests[0], Failure)] + Failures(requests[1..])
  }

  function FailPending(w: World): World {
    w.(pending := [], settled := w.settled + Failures(w.pending))
  }

  function CloseSocket(w: World, socket: Option<nat>): World {
    if socket.Some? && socket.value < |w.sockets| && w.sockets[socket.value] in {Opening, Open}
    then w.(sockets := w.sockets[socket.value := Closing]) else w
  }

  /** `clearTimeout`, which ignores timers that have fired. */
  function ClearTimer(w: World): World {
    if w.timer.Some? && w.timer.value < |w.timers| then w.(timers := w.timers[w.timer.value := false]) else w
  }

  const BACKOFF: seq<nat> := [500, 1000, 2000, 4000, 8000, 15_000]

  /** The delay before jitter that a reconnect waits when `attempt` reconnects came before it. */
  function Delay(attempt: nat): nat {
    BACKOFF[if attempt < |BACKOFF| then attempt else |BACKOFF| - 1]
  }

  function ScheduleReconnect(w: World): World {
    if w.disposed then w
    else w.(attempt := w.attempt + 1, status := Reconnecting, timer := Some(|w.timers|),
            timers := w.timers + [true], delays := w.delays + [Delay(w.attempt)])
  }

  /** `constructed` is false when the socket constructor throws. */
  function Connect(w: World, constructed: bool): World {
    if w.disposed then w
    else
      var w1 := w.(status := if w.attempt == 0 then Connecting else Reconnecting);
      if !constructed then ScheduleReconnect(w1)
      else w1.(socket := Some(|w.sockets|), sockets := w.sockets + [Opening])
  }

  /** The position of the pending request with an id, or the length when there is none. */
  function Find(pending: seq<Request>, id: nat): (i: nat)
    ensures i <= |pending|
    ensures i < |pending| ==> pending[i].id == id
    ensures forall j :: 0 <= j < i ==> pending[j].id != id
  {
    if pending == [] || pending[0].id == id then 0 else Find(pending[1..], id) + 1
  }

  function OnFrame(w: World, s: nat, frame: Frame): World {
    match frame
    case Mismatch => CloseSocket(w.(status := Failed), w.socket)
    case Throws => w.(status := Failed)
    case Unparsable => w
    case Frame(id, welcome) =>
      if id.Some? && Find(w.pending, id.value) < |w.pending| then
        var i := Find(w.pending, id.value);
        w.(pending := w.pending[..i] + w.pending[i + 1..],
           settled := w.settled + [Settlement(w.pending[i], Reply(s, id.value))])
      else if welcome then Call(SendGeometry(w.(attempt := 0, status := Live)))
      else w
  }

  function OnClose(w: World, s: nat, code: nat): World {
    var w1 := FailPending(w);
    if w.disposed || w.socket != Some(s) then w1
    else if code == POLICY_REFUSAL then w1.(status := Refused, stopped := true)
    else ScheduleReconnect(w1)
  }

  function DisposeSocket(w: World): World {
    var w1 := FailPending(ClearTimer(w).(timer := None));
    CloseSocket(w1.(socket := None), w.socket).(status := Idle, stopped := true)
  }

  function Dispose(w: World): World {
    CloseSocket(FailPending(ClearTimer(w.(disposed := true))), w.socket).(stopped := true)
  }

  // ---- Steps and runs ----

  /** What the browser may do next: messages only on open sockets, one close event a socket, armed timers only. */
  predicate Enabled(w: World, e: Event) {
    match e
    case Opened(s) => s < |w.sockets| && w.sockets[s] == Opening
    case ClosingBegins(s) => s < |w.sockets| && w.sockets[s] in {Opening, Open}
    case Message(s, _) => s < |w.sockets| && w.sockets[s] == Open
    case CloseFired(s, _) => s < |w.sockets| && w.sockets[s] != Closed
    case TimerFired(t, _) => t < |w.timers| && w.timers[t]
    case _ => true
  }

  function Step(w: World, e: Event): World
    requires Enabled(w, e)
  {
    match e
    case Opened(s) => w.(sockets := w.sockets[s := Open])
    case ClosingBegins(s) => w.(sockets := w.sockets[s := Closing])
    case Message(s, frame) => OnFrame(w, s, frame)
    case CloseFired(s, code) => OnClose(w.(sockets := w.sockets[s := Closed]), s, code)
    case TimerFired(t, constructed) => Connect(w.(timers := w.timers[t := false]), constructed)
    case Called => Call(w)
    case Resized => SendGeometry(w)
    case LoggedOut => DisposeSocket(w)
    case DisposedOf => Dispose(w)
  }

  /** The state once the terminal is mounted, which connects at once. */
  function Mounted(constructed: bool): World {
    Connect(World(None, Idle, 0, false, None, 1, [], [], [], [], [], [], [], false), constructed)
  }

  ghost predicate IsRun(w: World, events: seq<Event>)
    decreases |events|
  {
    events == [] || (Enabled(w, events[0]) && IsRun(Step(w, events[0]), events[1..]))
  }

  ghost function After(w: World, events: seq<Event>): World
    requires IsRun(w, events)
    decreases |events|
  {
    if events == [] then w else After(Step(w, events[0]), events[1..])
  }

  // ---- The invariant ----

  /** A socket whose close event has not fired. */
  predicate Unfired(w: World, s: nat) {
    s < |w.sockets| && w.sockets[s] != Closed
  }

  predicate Armed(w: World, t: nat) {
    t < |w.timers| && w.timers[t]
  }

  predicate HasSocket(w: World) {
    w.socket.Some? && Unfired(w, w.socket.value)
  }

  predicate HasTimer(w: World) {
    w.timer.Some? && Armed(w, w.timer.value)
  }

  /** At most one socket has its close event to come, at most one timer is armed, and never both. */
  ghost predicate OneConnection(w: World) {
    && (w.socket.Some? ==> w.socket.value < |w.sockets|)
    && (forall s: nat :: Unfired(w, s) ==> s == |w.sockets| - 1)
    && (forall t: nat :: Armed(w, t) ==> w.timer == Some(t) && !w.disposed)
    && (HasTimer(w) ==> forall s: nat :: !Unfired(w, s))
    && (forall s: nat :: Unfired(w, s) && w.sockets[s] != Closing ==> w.socket == Some(s) && !w.disposed)
  }

  /** A stopped client holds no timer and no longer listens to a socket; any other holds one of the two. */
  ghost predicate StopsForGood(w: World) {
    && (w.disposed ==> w.stopped)
    && (w.stopped ==> !HasTimer(w) && (w.disposed || w.socket.None? || !HasSocket(w)))
    && (!w.stopped ==> HasTimer(w) || HasSocket(w))
  }

  ghost predicate StatusIsHonest(w: World) {
    && (w.status == Live && !w.disposed ==> HasSocket(w))
    && (HasTimer(w) ==> w.status == Reconnecting)
  }

  ghost predicate Shape(w: World) {
    OneConnection(w) && StopsForGood(w) && StatusIsHonest(w)
  }

  ghost function Requests(settled: seq<Settlement>): seq<Request> {
    if settled == [] then [] else [settled[0].request] + Requests(settled[1..])
  }

  /** Every request sent is either pending or settled, and not both. */
  ghost predicate Conserved(issued: seq<Request>, pending: seq<Request>, settled: seq<Settlement>) {
    multiset(issued) == multiset(pending) + multiset(Requests(settled))
  }

  /** Ids grow, so no two requests share one. */
  ghost predicate IdsGrow(issued: seq<Request>, nextId: nat) {
    && (forall i, j :: 0 <= i < j < |issued| ==> issued[i].id < issued[j].id)
    && (forall i :: 0 <= i < |issued| ==> issued[i].id <= nextId)
  }

  /** Requests wait only for the current socket, before its close event. */
  ghost predicate WaitsOnCurrent(w: World) {
    forall i :: 0 <= i < |w.pending| ==>
      w.socket == Some(w.pending[i].socket) && Unfired(w, w.pending[i].socket) && !w.disposed
  }

  /** A reply carries the id of the request it settles, over the socket that request was sent on. */
  ghost predicate RepliesMatch(settled: seq<Settlement>) {
    forall i :: 0 <= i < |settled| && settled[i].outcome.Reply? ==>
      settled[i].outcome == Reply(settled[i].request.socket, settled[i].request.id)
  }

  /** What waits for a reply was sent. */
  ghost predicate WereSent(issued: seq<Request>, sent: seq<Request>) {
    forall r <- issued :: r in sent
  }

  ghost predicate Accounted(w: World) {
    && Conserved(w.issued, w.pending, w.settled) && IdsGrow(w.issued, w.nextId)
    && IdsGrow(w.sent, w.nextId) && WereSent(w.issued, w.sent)
    && WaitsOnCurrent(w) && RepliesMatch(w.settled)
  }

  ghost predicate Inv(w: World) {
    Shape(w) && Accounted(w)
  }

  // ---- Every step keeps the invariant ----

  lemma {:induction false} RequestsConcat(a: seq<Settlement>, b: seq<Settlement>)
    ensures Requests(a + b) == Requests(a) + Requests(b)
  {
    if a == [] {
      assert a + b == b;
    } else {
      calc {
        Requests(a + b);
        { assert (a + b)[0] == a[0] && (a + b)[1..] == a[1..] + b; }
        [a[0].request] + Requests(a[1..] + b);
        { RequestsConcat(a[1..], b); }
        [a[0].request] + (Requests(a[1..]) + Requests(b));
        Requests(a) + Requests(b);
      }
    }
  }

  lemma {:induction false} RequestsOfFailures(requests: seq<Request>)
    ensures Requests(Failures(requests)) == requests
    ensures forall i :: 0 <= i < |Failures(requests)| ==> Failures(requests)[i].outcome == Failure
  {
    if requests != [] {
      RequestsOfFailures(requests[1..]);
    }
  }

  lemma FailPendingKeeps(w: World)
    requires Accounted(w)
    ensures Accounted(FailPending(w))
  {
    RequestsConcat(w.settled, Failures(w.pending));
    RequestsOfFailures(w.pending);
  }

  /** Only the requests matter to the account while none is pending. */
  lemma AccountedWithoutPending(w: World, v: World)
    requires Accounted(w) && w.pending == v.pending == [] && w.settled == v.settled && w.issued == v.issued
    requires w.nextId == v.nextId && w.sent == v.sent
    ensures Accounted(v)
  {
  }

  /** Requests and counters do not matter to the shape. */
  lemma ShapeIgnoresRequests(w: World, v: World)
    requires Shape(w)
    requires v == w.(nextId := v.nextId, pending := v.pending, sent := v.sent, issued := v.issued, settled := v.settled, attempt := v.attempt)
    ensures Shape(v)
  {
    assert forall s: nat :: Unfired(v, s) <==> Unfired(w, s);
    assert forall t: nat :: Armed(v, t) <==> Armed(w, t);
  }

  lemma CallKeeps(w: World)
    requires Inv(w)
    ensures Inv(Call(w)) && Inv(SendGeometry(w))
  {
    ShapeIgnoresRequests(w, Call(w));
    ShapeIgnoresRequests(w, SendGeometry(w));
    if CanSend(w) {
      CallAccounted(w);
      GeometryAccounted(w);
    }
  }

  lemma CallAccounted(w: World)
    requires Inv(w) && CanSend(w)
    ensures Accounted(Call(w))
  {
    SendSetting(w);
    var r := Request(w.nextId + 1, w.socket.value);
    CallStep(w);
    hide Shape, RepliesMatch, Conserved, IdsGrow, WaitsOnCurrent, Unfired, HasSocket, WereSent, Call;
    WaitsAfter(w, Call(w));
    ConservedBySending(w.issued, w.pending, w.settled, r);
    SentIdsGrow(w.issued, w.nextId, r);
    SentIdsGrow(w.sent, w.nextId, r);
    SendingKeepsSent(w.issued, w.sent, r);
  }

  lemma CallStep(w: World)
    requires CanSend(w)
    ensures var r := Request(w.nextId + 1, w.socket.value);
            Call(w) == w.(nextId := w.nextId + 1, pending := w.pending + [r], sent := w.sent + [r], issued := w.issued + [r])
  {
  }

  lemma GeometryAccounted(w: World)
    requires Inv(w) && CanSend(w)
    ensures Accounted(SendGeometry(w))
  {
    SendSetting(w);
    var r := Request(w.nextId + 1, w.socket.value);
    hide Shape, RepliesMatch, Conserved, IdsGrow, WaitsOnCurrent, Unfired, HasSocket, WereSent;
    WaitsAfter(w, SendGeometry(w));
    SentIdsGrow(w.issued, w.nextId, r);
    SentIdsGrow(w.sent, w.nextId, r);
    SendingKeepsSent(w.issued, w.sent, r);
  }

  /** Sending happens on the current, unfired socket, which everything pending waits on. */
  lemma SendSetting(w: World)
    requires Inv(w) && CanSend(w)
    ensures HasSocket(w) && !w.disposed
    ensures forall j :: 0 <= j < |w.pending| ==> w.socket == Some(w.pending[j].socket)
  {
    OpenIsCurrent(w, w.socket.value);
  }

  lemma SendingKeepsSent(issued: seq<Request>, sent: seq<Request>, r: Request)
    requires WereSent(issued, sent)
    ensures WereSent(issued, sent + [r]) && WereSent(issued + [r], sent + [r])
  {
  }

  lemma SentIdsGrow(issued: seq<Request>, nextId: nat, r: Request)
    requires IdsGrow(issued, nextId) && r.id == nextId + 1
    ensures IdsGrow(issued + [r], nextId + 1) && IdsGrow(issued, nextId + 1)
  {
  }

  /** Requests sent on the current socket wait on a socket that is still unfired. */
  lemma WaitsAfter(w: World, v: World)
    requires HasSocket(w) && !w.disposed
    requires v.socket == w.socket && v.sockets == w.sockets && !v.disposed
    requires forall i :: 0 <= i < |v.pending| ==> w.socket == Some(v.pending[i].socket)
    ensures WaitsOnCurrent(v)
  {
  }

  lemma ConservedBySending(issued: seq<Request>, pending: seq<Request>, settled: seq<Settlement>, r: Request)
    requires Conserved(issued, pending, settled)
    ensures Conserved(issued + [r], pending + [r], settled)
  {
  }

  lemma ConservedByReply(issued: seq<Request>, pending: seq<Request>, settled: seq<Settlement>, i: nat, o: Outcome)
    requires Conserved(issued, pending, settled) && i < |pending|
    ensures Conserved(issued, pending[..i] + pending[i + 1..], settled + [Settlement(pending[i], o)])
  {
    var r := pending[i];
    assert pending == pending[..i] + [r] + pending[i + 1..];
    RequestsConcat(settled, [Settlement(r, o)]);
    assert Requests([Settlement(r, o)]) == [r];
  }

  lemma RepliesAppend(settled: seq<Settlement>, x: Settlement)
    requires RepliesMatch(settled) && x.outcome == Reply(x.request.socket, x.request.id)
    ensures RepliesMatch(settled + [x])
  {
  }

  lemma ReplyAccounted(w: World, s: nat, id: nat)
    requires Inv(w) && s < |w.sockets| && w.sockets[s] == Open && Find(w.pending, id) < |w.pending|
    ensures Accounted(OnFrame(w, s, Frame(Some(id), false)))
  {
    var i := Find(w.pending, id);
    OpenIsCurrent(w, s);
    SendSetting(w);
    ReplyStep(w, s, id);
    hide OnFrame, Shape, Accounted, HasSocket;
    RemovedAccounted(w, OnFrame(w, s, Frame(Some(id), false)), i);
  }

  lemma ReplyStep(w: World, s: nat, id: nat)
    requires Find(w.pending, id) < |w.pending|
    ensures var i := Find(w.pending, id);
            OnFrame(w, s, Frame(Some(id), false))
            == w.(pending := w.pending[..i] + w.pending[i + 1..],
                  settled := w.settled + [Settlement(w.pending[i], Reply(s, w.pending[i].id))])
  {
  }

  /** Settling the pending request at a position by a reply that fits it. */
  lemma RemovedAccounted(w: World, v: World, i: nat)
    requires Accounted(w) && i < |w.pending| && HasSocket(w) && !w.disposed
    requires forall j :: 0 <= j < |w.pending| ==> w.socket == Some(w.pending[j].socket)
    requires var x := Settlement(w.pending[i], Reply(w.pending[i].socket, w.pending[i].id));
             v == w.(pending := w.pending[..i] + w.pending[i + 1..], settled := w.settled + [x])
    ensures Accounted(v)
  {
    hide IdsGrow, WaitsOnCurrent, Unfired, HasSocket, WereSent;
    WaitsAfter(w, v);
    hide Conserved, RepliesMatch;
    ConservedByReply(w.issued, w.pending, w.settled, i, Reply(w.pending[i].socket, w.pending[i].id));
    RepliesAppend(w.settled, Settlement(w.pending[i], Reply(w.pending[i].socket, w.pending[i].id)));
  }

  /** A status that fits an open socket keeps the shape. */
  lemma ShapeOfStatus(w: World, status: Status)
    requires Shape(w) && HasSocket(w)
    ensures Shape(w.(status := status))
  {
    var v := w.(status := status);
    assert forall s: nat :: Unfired(v, s) <==> Unfired(w, s);
    assert forall t: nat :: Armed(v, t) <==> Armed(w, t);
  }

  /** Opening or closing a socket that is current keeps the shape. */
  lemma ShapeOfMove(w: World, s: nat, to: SocketState)
    requires Shape(w) && s < |w.sockets| && w.sockets[s] in {Opening, Open} && to in {Open, Closing}
    ensures Shape(w.(sockets := w.sockets[s := to]))
  {
    var v := w.(sockets := w.sockets[s := to]);
    assert Unfired(w, s);
    assert forall k: nat :: Unfired(v, k) <==> Unfired(w, k);
    assert forall t: nat :: Armed(v, t) <==> Armed(w, t);
  }

  lemma SameAccount(w: World, v: World)
    requires Accounted(w) && v.issued == w.issued && v.settled == w.settled && v.pending == w.pending
    requires v.nextId == w.nextId && v.sent == w.sent && v.socket == w.socket && v.disposed == w.disposed
    requires forall s: nat :: Unfired(w, s) ==> Unfired(v, s)
    ensures Accounted(v)
  {
  }

  lemma SocketMoves(w: World, s: nat, to: SocketState)
    requires Inv(w) && s < |w.sockets| && w.sockets[s] in {Opening, Open} && to in {Open, Closing}
    ensures Inv(w.(sockets := w.sockets[s := to]))
  {
    ShapeOfMove(w, s, to);
    SameAccount(w, w.(sockets := w.sockets[s := to]));
  }

  lemma MessageKeeps(w: World, s: nat, frame: Frame)
    requires Inv(w) && s < |w.sockets| && w.sockets[s] == Open
    ensures Inv(OnFrame(w, s, frame))
  {
    hide Shape, Accounted;
    assert HasSocket(w) by { assert Unfired(w, s); assert Shape(w); OpenIsCurrent(w, s); }
    var failed := w.(status := Failed);
    ShapeOfStatus(w, Failed);
    SameAccount(w, failed);
    match frame
    case Mismatch =>
      OpenIsCurrent(w, s);
      SocketMoves(failed, s, Closing);
    case Throws =>
    case Unparsable =>
    case Frame(id, welcome) =>
      if id.Some? && Find(w.pending, id.value) < |w.pending| {
        ReplyAccounted(w, s, id.value);
        ShapeIgnoresRequests(w, OnFrame(w, s, frame));
      } else if welcome {
        var v := w.(attempt := 0);
        ShapeIgnoresRequests(w, v);
        ShapeOfStatus(v, Live);
        SameAccount(w, v.(status := Live));
        CallKeeps(v.(status := Live));
        CallKeeps(SendGeometry(v.(status := Live)));
      }
  }

  lemma OpenIsCurrent(w: World, s: nat)
    requires Shape(w) && s < |w.sockets| && w.sockets[s] == Open
    ensures w.socket == Some(s) && HasSocket(w)
  {
    assert Unfired(w, s);
  }

  lemma CloseKeeps(w: World, s: nat, code: nat)
    requires Inv(w) && Unfired(w, s)
    ensures Inv(OnClose(w.(sockets := w.sockets[s := Closed]), s, code))
  {
    var w1 := w.(sockets := w.sockets[s := Closed]);
    var v := OnClose(w1, s, code);
    hide Shape, Accounted, Failures;
    CloseShape(w, s, code);
    FailPendingKeeps(w);
    CloseOnlyFails(w, s, code);
    hide OnClose, FailPending, ScheduleReconnect;
    AccountedWithoutPending(FailPending(w), v);
  }

  /** To the requests a close event does no more than `failPending` does. */
  lemma CloseOnlyFails(w: World, s: nat, code: nat)
    requires s < |w.sockets|
    ensures var v, f := OnClose(w.(sockets := w.sockets[s := Closed]), s, code), FailPending(w);
            && v.pending == f.pending == [] && v.settled == f.settled && v.issued == f.issued
            && v.sent == f.sent && v.nextId == f.nextId
  {
  }

  lemma CloseShape(w: World, s: nat, code: nat)
    requires Shape(w) && Unfired(w, s)
    ensures Shape(OnClose(w.(sockets := w.sockets[s := Closed]), s, code))
  {
    var w1 := w.(sockets := w.sockets[s := Closed]);
    var v := OnClose(w1, s, code);
    assert v.sockets == w1.sockets && v.socket == w.socket && v.disposed == w.disposed;
    assert forall k: nat :: !Unfired(v, k) by {
      forall k: nat ensures !Unfired(v, k) {
        assert Unfired(w, k) ==> k == |w.sockets| - 1 == s;
      }
    }
    assert !HasTimer(w);
    var again := !w.disposed && w.socket == Some(s) && code != POLICY_REFUSAL;
    forall t: nat ensures Armed(v, t) <==> again && t == |w.timers| {
      assert !Armed(w, t);
    }
  }

  lemma PendingNeedsSocket(w: World)
    requires WaitsOnCurrent(w) && w.pending != []
    ensures HasSocket(w)
  {
    assert Unfired(w, w.pending[0].socket);
  }

  lemma TimerKeeps(w: World, t: nat, constructed: bool)
    requires Inv(w) && Armed(w, t)
    ensures Inv(Connect(w.(timers := w.timers[t := false]), constructed))
  {
    var v := Connect(w.(timers := w.timers[t := false]), constructed);
    assert HasTimer(w);
    if w.pending != [] { PendingNeedsSocket(w); }
    AccountedWithoutPending(w, v);
    forall k: nat ensures Unfired(v, k) <==> constructed && k == |w.sockets| {
      assert !Unfired(w, k);
    }
    forall k: nat ensures Armed(v, k) <==> !constructed && k == |w.timers| {
      assert Armed(w, k) ==> k == t;
    }
  }

  lemma DetachKeeps(w: World)
    requires Inv(w)
    ensures Inv(DisposeSocket(w)) && Inv(Dispose(w))
  {
    hide Shape, Accounted, Failures;
    DetachedShape(w);
    DisposedShape(w);
    FailPendingKeeps(w);
    AccountedWithoutPending(FailPending(w), DisposeSocket(w));
    AccountedWithoutPending(FailPending(w), Dispose(w));
  }

  /** Whatever is still to close after its socket was closed is closing. */
  lemma ClosedSockets(w: World, k: nat)
    requires Shape(w)
    ensures var v := CloseSocket(w, w.socket);
            (Unfired(v, k) <==> Unfired(w, k)) && (Unfired(v, k) ==> v.sockets[k] == Closing)
  {
    if Unfired(w, k) && w.sockets[k] != Closing {
      assert w.socket == Some(k);
    }
  }

  lemma ClearedTimers(w: World, t: nat)
    requires Shape(w)
    ensures !Armed(ClearTimer(w), t)
  {
    assert Armed(w, t) ==> w.timer == Some(t);
  }

  lemma DetachedShape(w: World)
    requires Shape(w)
    ensures Shape(DisposeSocket(w))
  {
    var v := DisposeSocket(w);
    assert v.sockets == CloseSocket(w, w.socket).sockets && v.timers == ClearTimer(w).timers;
    forall k: nat ensures (Unfired(v, k) <==> Unfired(w, k)) && (Unfired(v, k) ==> v.sockets[k] == Closing) {
      ClosedSockets(w, k);
    }
    forall t: nat ensures !Armed(v, t) { ClearedTimers(w, t); }
  }

  lemma DisposedShape(w: World)
    requires Shape(w)
    ensures Shape(Dispose(w))
  {
    var v := Dispose(w);
    assert v.sockets == CloseSocket(w, w.socket).sockets && v.timers == ClearTimer(w).timers;
    forall k: nat ensures (Unfired(v, k) <==> Unfired(w, k)) && (Unfired(v, k) ==> v.sockets[k] == Closing) {
      ClosedSockets(w, k);
    }
    forall t: nat ensures !Armed(v, t) { ClearedTimers(w, t); }
  }

  lemma StepKeeps(w: World, e: Event)
    requires Inv(w) && Enabled(w, e)
    ensures Inv(Step(w, e))
  {
    hide Inv, OnFrame, OnClose, Connect, DisposeSocket, Dispose, Call, SendGeometry;
    match e
    case Opened(s) => SocketMoves(w, s, Open);
    case ClosingBegins(s) => SocketMoves(w, s, Closing);
    case Message(s, frame) => MessageKeeps(w, s, frame);
    case CloseFired(s, code) => CloseKeeps(w, s, code);
    case TimerFired(t, constructed) => TimerKeeps(w, t, constructed);
    case Called => CallKeeps(w);
    case Resized => CallKeeps(w);
    case LoggedOut => DetachKeeps(w);
    case DisposedOf => DetachKeeps(w);
  }

  lemma MountedHolds(constructed: bool)
    ensures Inv(Mounted(constructed))
  {
    var w := Mounted(constructed);
    assert forall k: nat :: Unfired(w, k) <==> constructed && k == 0;
    assert forall t: nat :: Armed(w, t) <==> !constructed && t == 0;
  }

  /** The invariant holds after every run. */
  lemma {:induction false} RunKeeps(w: World, events: seq<Event>)
    requires Inv(w) && IsRun(w, events)
    ensures Inv(After(w, events))
    decreases |events|
  {
    hide Inv, Step;
    if events != [] {
      StepKeeps(w, events[0]);
      RunKeeps(Step(w, events[0]), events[1..]);
    }
  }

  // ---- What holds in every reachable state ----

  /** The states the terminal can be in. */
  ghost predicate Reachable(w: World) {
    exists constructed, events :: IsRun(Mounted(constructed), events) && After(Mounted(constructed), events) == w
  }

  lemma ReachableHolds(w: World)
    requires Reachable(w)
    ensures Inv(w)
  {
    hide Inv, Mounted;
    var constructed, events :| IsRun(Mounted(constructed), events) && After(Mounted(constructed), events) == w;
    MountedHolds(constructed);
    RunKeeps(Mounted(constructed), events);
  }

  /**
   At most one socket has its close event to come and at most one reconnect timer is armed, never both;
   and until the client is stopped there is always exactly one of the two, so a lost link is never forgotten.
   */
  lemma OneSocketOrOneTimer(w: World)
    requires Reachable(w)
    ensures forall s, s' :: Unfired(w, s) && Unfired(w, s') ==> s == s'
    ensures forall t, t' :: Armed(w, t) && Armed(w, t') ==> t == t'
    ensures !((exists s :: Unfired(w, s)) && (exists t :: Armed(w, t)))
    ensures !w.stopped ==> (exists s :: Unfired(w, s)) || (exists t :: Armed(w, t))
  {
    ReachableHolds(w);
    assert HasSocket(w) ==> Unfired(w, w.socket.value);
    assert HasTimer(w) ==> Armed(w, w.timer.value);
  }

  lemma {:induction false} RequestsAt(settled: seq<Settlement>)
    ensures |Requests(settled)| == |settled|
    ensures forall i :: 0 <= i < |settled| ==> Requests(settled)[i] == settled[i].request
  {
    if settled != [] {
      RequestsAt(settled[1..]);
    }
  }

  lemma TwiceInMultiset<T>(s: seq<T>, i: nat, j: nat)
    requires i < j < |s| && s[i] == s[j]
    ensures multiset(s)[s[i]] >= 2
  {
    assert s == s[..j] + s[j..];
    assert s[i] in s[..j] && s[j] in s[j..];
  }

  lemma {:induction false} IssuedOnce(issued: seq<Request>, nextId: nat, r: Request)
    requires IdsGrow(issued, nextId)
    ensures multiset(issued)[r] <= 1
  {
    if issued != [] {
      var last := |issued| - 1;
      var front := issued[..last];
      IssuedOnce(front, nextId, r);
      assert issued == front + [issued[last]];
      assert forall i :: 0 <= i < |front| ==> front[i].id < issued[last].id;
    }
  }

  /**
   Every request ever sent is settled at most once, and until then it is pending; a reply settles only the
   request whose id it carries, over the connection that request was sent on. No id is used twice.
   */
  lemma SettledAtMostOnce(w: World)
    requires Reachable(w)
    ensures forall i, j :: 0 <= i < j < |w.settled| ==> w.settled[i].request.id != w.settled[j].request.id
    ensures forall r :: r in w.issued <==> r in w.pending || exists x <- w.settled :: x.request == r
    ensures forall x <- w.settled :: x.request !in w.pending
    ensures forall x <- w.settled :: x.outcome.Reply? ==> x.outcome == Reply(x.request.socket, x.request.id)
  {
    ReachableHolds(w);
    hide Inv, Shape;
    var done := Requests(w.settled);
    RequestsAt(w.settled);
    forall r ensures r in w.issued <==> r in w.pending || exists x <- w.settled :: x.request == r {
      assert r in w.issued <==> r in multiset(w.issued);
      assert r in multiset(done) <==> r in done;
      if r in done {
        var i :| 0 <= i < |done| && done[i] == r;
        assert w.settled[i] in w.settled;
      }
    }
    forall i, j | 0 <= i < j < |w.settled| ensures w.settled[i].request.id != w.settled[j].request.id {
      SettledApart(w, i, j);
    }
    forall x | x in w.settled ensures x.request !in w.pending {
      var i :| 0 <= i < |w.settled| && w.settled[i] == x;
      assert done[i] in multiset(done);
      IssuedOnce(w.issued, w.nextId, x.request);
      assert x.request in w.pending ==> x.request in multiset(w.pending);
    }
  }

  /**
   No two messages share an id, size announcements included, so whatever answers a pending request's id answers
   that request: only one message with that id was ever sent, on the socket the request waits on.
   */
  lemma RepliesAreUnambiguous(w: World, r: Request, m: Request)
    requires Reachable(w) && r in w.pending && m in w.sent && m.id == r.id
    ensures m == r
  {
    ReachableHolds(w);
    hide Inv, Shape;
    assert r in multiset(w.pending) && r in multiset(w.issued);
    assert r in w.issued && r in w.sent;
    IdDecidesRequest(w.sent, w.nextId, r, m);
  }

  lemma SettledApart(w: World, i: nat, j: nat)
    requires Conserved(w.issued, w.pending, w.settled) && IdsGrow(w.issued, w.nextId) && i < j < |w.settled|
    ensures w.settled[i].request.id != w.settled[j].request.id
  {
    var done := Requests(w.settled);
    RequestsAt(w.settled);
    assert done[i] in multiset(done) && done[j] in multiset(done);
    assert done[i] in multiset(w.issued) && done[j] in multiset(w.issued);
    if done[i].id == done[j].id {
      IdDecidesRequest(w.issued, w.nextId, done[i], done[j]);
      TwiceInMultiset(done, i, j);
      IssuedOnce(w.issued, w.nextId, done[i]);
    }
  }

  lemma IdDecidesRequest(issued: seq<Request>, nextId: nat, r: Request, q: Request)
    requires IdsGrow(issued, nextId) && r in issued && q in issued && r.id == q.id
    ensures r == q
  {
    var i :| 0 <= i < |issued| && issued[i] == r;
    var j :| 0 <= j < |issued| && issued[j] == q;
  }

  /** No request outlives its connection: once the close event of its socket has fired it is settled. */
  lemma NoneOutlivesItsConnection(w: World, r: Request)
    requires Reachable(w) && r in w.issued && !Unfired(w, r.socket)
    ensures exists x <- w.settled :: x.request == r
  {
    ReachableHolds(w);
    SettledAtMostOnce(w);
    assert forall i :: 0 <= i < |w.pending| ==> Unfired(w, w.pending[i].socket);
  }

  /** Until it is disposed of a client never claims a connection that has gone, nor hides that a reconnect is coming. */
  lemma StatusTellsTheTruth(w: World)
    requires Reachable(w)
    ensures w.status == Live && !w.disposed ==> exists s :: w.socket == Some(s) && Unfired(w, s)
    ensures (exists t :: Armed(w, t)) ==> w.status == Reconnecting
  {
    ReachableHolds(w);
  }

  lemma DisposedStep(w: World, e: Event)
    requires Inv(w) && Enabled(w, e) && (w.disposed || e.DisposedOf?)
    ensures Step(w, e).disposed && Step(w, e).status == if e.LoggedOut? then Idle else w.status
  {
    assert e.TimerFired? ==> Armed(w, e.t);
    assert e.Message? ==> Unfired(w, e.s);
    hide Accounted, Find, Failures, StopsForGood, StatusIsHonest;
  }

  /** One run of that kind: a client disposed of while it is live says LIVE after its only socket has closed. */
  lemma LiveAfterDisposal()
    ensures exists w :: Reachable(w) && w.disposed && w.status == Live && forall s: nat :: !Unfired(w, s)
  {
    var w := Mounted(true);
    var welcome := Message(0, Frame(None, true));
    LiveAfterWelcome();
    var live := Step(Step(w, Opened(0)), welcome);
    ClosedAfterDisposal(live);
    hide Step, Enabled, Mounted, Unfired;
    RunExtends(Step(w, Opened(0)), welcome, [DisposedOf] + [CloseFired(0, 1000)]);
    RunExtends(w, Opened(0), [welcome] + ([DisposedOf] + [CloseFired(0, 1000)]));
    assert Reachable(Step(Step(live, DisposedOf), CloseFired(0, 1000)));
  }

  lemma LiveAfterWelcome()
    ensures var w := Mounted(true);
            var welcome := Message(0, Frame(None, true));
            && Enabled(w, Opened(0)) && Enabled(Step(w, Opened(0)), welcome)
            && var live := Step(Step(w, Opened(0)), welcome);
               live.status == Live && live.socket == Some(0) && live.sockets == [Open]
  {
    var w := Step(Mounted(true), Opened(0));
    assert w.sockets == [Open];
  }

  lemma ClosedAfterDisposal(w: World)
    requires w.status == Live && w.socket == Some(0) && w.sockets == [Open]
    ensures var closed := CloseFired(0, 1000);
            && IsRun(w, [DisposedOf] + [closed]) && After(w, [DisposedOf] + [closed]) == Step(Step(w, DisposedOf), closed)
            && var v := Step(Step(w, DisposedOf), closed);
               v.disposed && v.status == Live && forall s: nat :: !Unfired(v, s)
  {
    var u := Step(w, DisposedOf);
    assert u.sockets == [Closing];
    RunOfOne(u, CloseFired(0, 1000));
    RunExtends(w, DisposedOf, [CloseFired(0, 1000)]);
    assert Step(u, CloseFired(0, 1000)).sockets == [Closed];
  }

  lemma RunOfOne(w: World, e: Event)
    requires Enabled(w, e)
    ensures IsRun(w, [e]) && After(w, [e]) == Step(w, e)
  {
  }

  lemma RunExtends(w: World, e: Event, events: seq<Event>)
    requires Enabled(w, e) && IsRun(Step(w, e), events)
    ensures IsRun(w, [e] + events) && After(w, [e] + events) == After(Step(w, e), events)
  {
    assert ([e] + events)[0] == e && ([e] + events)[1..] == events;
  }

  /** Disposal leaves the status as it stands, LIVE included, and after it nothing but a detach changes it. */
  lemma {:induction false} DisposedStatusStands(w: World, events: seq<Event>)
    requires Inv(w) && IsRun(w, events) && (w.disposed || (events != [] && events[0].DisposedOf?))
    ensures var v := After(w, events);
            v.disposed && v.status == if exists e <- events :: e.LoggedOut? then Idle else w.status
    decreases |events|
  {
    hide Inv, Step, Enabled;
    if events != [] {
      DisposedStep(w, events[0]);
      StepKeeps(w, events[0]);
      DisposedStatusStands(Step(w, events[0]), events[1..]);
      assert events == [events[0]] + events[1..];
    }
  }

  /** `/logout`, disposal, and a policy refusal on the current socket. */
  predicate IsStop(w: World, e: Event) {
    e.LoggedOut? || e.DisposedOf? || (e.CloseFired? && e.code == POLICY_REFUSAL && w.socket == Some(e.s))
  }

  lemma StopEvents(w: World, e: Event)
    requires Inv(w) && Enabled(w, e) && IsStop(w, e)
    ensures var v := Step(w, e);
            v.stopped && |v.sockets| == |w.sockets| && |v.timers| == |w.timers|
  {
    assert w.disposed ==> w.stopped;
    hide Inv, DisposeSocket, Dispose, OnClose;
    match e
    case LoggedOut => DetachStops(w);
    case DisposedOf => DisposeStops(w);
    case CloseFired(s, _) => RefusalStops(w.(sockets := w.sockets[s := Closed]), s);
    case _ =>
  }

  lemma DetachStops(w: World)
    ensures var v := DisposeSocket(w); v.stopped && |v.sockets| == |w.sockets| && |v.timers| == |w.timers|
  {
    hide Failures;
  }

  lemma DisposeStops(w: World)
    ensures var v := Dispose(w); v.stopped && |v.sockets| == |w.sockets| && |v.timers| == |w.timers|
  {
    hide Failures;
  }

  lemma RefusalStops(w: World, s: nat)
    requires w.socket == Some(s) && (w.disposed ==> w.stopped)
    ensures var v := OnClose(w, s, POLICY_REFUSAL); v.stopped && |v.sockets| == |w.sockets| && |v.timers| == |w.timers|
  {
    hide Failures;
  }

  lemma StopStays(w: World, e: Event)
    requires Inv(w) && Enabled(w, e) && w.stopped
    ensures var v := Step(w, e);
            v.stopped && |v.sockets| == |w.sockets| && |v.timers| == |w.timers|
  {
    assert forall t: nat :: !Armed(w, t);
    assert e.TimerFired? ==> !Armed(w, e.t);
    assert e.CloseFired? ==> Unfired(w, e.s);
    assert e.CloseFired? && w.socket == Some(e.s) ==> w.disposed;
    hide OneConnection, StatusIsHonest, Accounted, Find, Failures;
  }

  lemma {:induction false} StoppedStays(w: World, events: seq<Event>)
    requires Inv(w) && w.stopped && IsRun(w, events)
    ensures var v := After(w, events);
            v.stopped && |v.sockets| == |w.sockets| && |v.timers| == |w.timers|
    decreases |events|
  {
    hide Inv, Step;
    if events != [] {
      StopStays(w, events[0]);
      StepKeeps(w, events[0]);
      StoppedStays(Step(w, events[0]), events[1..]);
    }
  }

  /** From a stop on no run, however long, opens another socket or arms another timer. */
  lemma StopIsFinal(w: World, e: Event, events: seq<Event>)
    requires Reachable(w) && IsRun(w, [e] + events) && IsStop(w, e)
    ensures var v := After(w, [e] + events);
            v.stopped && |v.sockets| == |w.sockets| && |v.timers| == |w.timers|
  {
    ReachableHolds(w);
    hide Inv, Step, IsStop, Reachable;
    assert ([e] + events)[0] == e && ([e] + events)[1..] == events;
    StopEvents(w, e);
    StepKeeps(w, e);
    StoppedStays(Step(w, e), events);
  }

  /** History only grows: what was settled stays settled the same way. */
  lemma {:induction false} HistoryGrows(w: World, events: seq<Event>)
    requires IsRun(w, events)
    ensures w.issued <= After(w, events).issued && w.settled <= After(w, events).settled && w.sent <= After(w, events).sent
    decreases |events|
  {
    if events != [] {
      StepGrows(w, events[0]);
      HistoryGrows(Step(w, events[0]), events[1..]);
    }
  }

  lemma StepGrows(w: World, e: Event)
    requires Enabled(w, e)
    ensures w.issued <= Step(w, e).issued && w.settled <= Step(w, e).settled && w.sent <= Step(w, e).sent
  {
    hide Find, Failures, Unfired;
    match e
    case Message(s, frame) => FrameGrows(w, s, frame);
    case _ =>
  }

  lemma FrameGrows(w: World, s: nat, frame: Frame)
    ensures w.issued <= OnFrame(w, s, frame).issued && w.settled <= OnFrame(w, s, frame).settled
    ensures w.sent <= OnFrame(w, s, frame).sent
  {
  }

  /** A frame of another protocol version is not the end: its close event leads to a reconnect like any other. */
  lemma FailedReconnects(w: World, s: nat, code: nat)
    requires Inv(w) && s < |w.sockets| && w.sockets[s] == Open && code != POLICY_REFUSAL
    ensures var failed := Step(w, Message(s, Mismatch));
            && failed.status == Failed && Enabled(failed, CloseFired(s, code))
            && HasTimer(Step(failed, CloseFired(s, code))) && Step(failed, CloseFired(s, code)).status == Reconnecting
  {
    OpenIsCurrent(w, s);
    assert Unfired(w, s);
  }

  // ---- Backoff ----

  predicate Welcome(e: Event) {
    e.Message? && e.frame.Frame? && e.frame.welcome
  }

  /**
   Without a welcome in between every timer of a run counts one attempt, and each of them waits for the delay that
   the attempts before it call for.
   */
  lemma {:induction false} BackoffCountsTimers(w: World, events: seq<Event>)
    requires IsRun(w, events) && forall i :: 0 <= i < |events| ==> !Welcome(events[i])
    ensures var v := After(w, events);
            && v.attempt - w.attempt == |v.timers| - |w.timers| == |v.delays| - |w.delays| >= 0
            && w.delays <= v.delays
            && forall i :: |w.delays| <= i < |v.delays| ==> v.delays[i] == Delay(w.attempt + i - |w.delays|)
    decreases |events|
  {
    hide Step, Enabled, Delay;
    if events != [] {
      StepCountsTimers(w, events[0]);
      BackoffCountsTimers(Step(w, events[0]), events[1..]);
    }
  }

  lemma StepCountsTimers(w: World, e: Event)
    requires Enabled(w, e) && !Welcome(e)
    ensures var v := Step(w, e);
            || (v.attempt == w.attempt && |v.timers| == |w.timers| && v.delays == w.delays)
            || (v.attempt == w.attempt + 1 && |v.timers| == |w.timers| + 1 && v.delays == w.delays + [Delay(w.attempt)])
  {
    hide Delay, Failures, Find, CanSend;
    match e
    case Message(s, frame) => FrameKeepsTimers(w, s, frame);
    case _ =>
  }

  lemma FrameKeepsTimers(w: World, s: nat, frame: Frame)
    requires !(frame.Frame? && frame.welcome)
    ensures var v := OnFrame(w, s, frame);
            v.attempt == w.attempt && v.timers == w.timers && v.delays == w.delays
  {
    hide Find;
  }

  lemma DelaysGrow(a: nat, b: nat)
    requires a <= b
    ensures Delay(a) <= Delay(b) <= 15_000
  {
  }

  /** The table by name: half a second, doubled each time, and fifteen seconds from the sixth attempt on. */
  lemma DelayExactly(attempt: nat)
    ensures Delay(0) == 500
    ensures attempt < 4 ==> Delay(attempt + 1) == 2 * Delay(attempt)
    ensures attempt > 4 ==> Delay(attempt) == 15_000
  {
  }

  // ---- What each event does ----

  /** A pending request is found by its id, wherever it stands. */
  lemma FoundById(w: World, i: nat)
    requires Inv(w) && i < |w.pending|
    ensures Find(w.pending, w.pending[i].id) == i
  {
    hide Shape;
    var j := Find(w.pending, w.pending[i].id);
    var a, b := w.pending[j], w.pending[i];
    assert a in multiset(w.pending) && b in multiset(w.pending);
    assert a in multiset(w.issued) && b in multiset(w.issued);
    IdDecidesRequest(w.issued, w.nextId, a, b);
    IssuedOnce(w.issued, w.nextId, a);
    if j < i { TwiceInMultiset(w.pending, j, i); }
  }

  /**
   A frame with the id of a pending request settles that request by that reply, at once, and changes nothing else,
   whatever else the frame says.
   */
  lemma ReplySettles(w: World, s: nat, i: nat, welcome: bool)
    requires Inv(w) && s < |w.sockets| && w.sockets[s] == Open && i < |w.pending|
    ensures var r := w.pending[i];
            var v := Step(w, Message(s, Frame(Some(r.id), welcome)));
            && v == w.(pending := w.pending[..i] + w.pending[i + 1..],
                       settled := w.settled + [Settlement(r, Reply(s, r.id))])
            && r !in v.pending
  {
    var r := w.pending[i];
    FoundById(w, i);
    var rest := w.pending[..i] + w.pending[i + 1..];
    forall j | 0 <= j < |rest| ensures rest[j] != r {
      var k := if j < i then j else j + 1;
      assert rest[j] == w.pending[k];
      FoundById(w, k);
    }
    hide Inv, Find;
  }

  /** No pending request has this id. */
  predicate Unasked(w: World, id: Option<nat>) {
    id.None? || forall i :: 0 <= i < |w.pending| ==> w.pending[i].id != id.value
  }

  /** Any other welcome makes the client live and its backoff new, announces the size, and asks for the addresses. */
  lemma WelcomeOpens(w: World, s: nat, id: Option<nat>)
    requires Inv(w) && s < |w.sockets| && w.sockets[s] == Open && Unasked(w, id)
    ensures var size, ask := Request(w.nextId + 1, s), Request(w.nextId + 2, s);
            Step(w, Message(s, Frame(id, true)))
            == w.(status := Live, attempt := 0, nextId := w.nextId + 2, sent := w.sent + [size, ask],
                  pending := w.pending + [ask], issued := w.issued + [ask])
  {
    OpenIsCurrent(w, s);
    hide Inv;
    assert w.sent + [Request(w.nextId + 1, s)] + [Request(w.nextId + 2, s)]
        == w.sent + [Request(w.nextId + 1, s), Request(w.nextId + 2, s)];
  }

  /**
   A frame of another protocol fails the client and closes the socket it came over; one whose handling throws only
   fails the client; any other frame, unreadable ones included, settles nothing and changes nothing.
   */
  lemma OtherFrames(w: World, s: nat, id: Option<nat>)
    requires Inv(w) && s < |w.sockets| && w.sockets[s] == Open
    ensures Step(w, Message(s, Mismatch)) == w.(status := Failed, sockets := w.sockets[s := Closing])
    ensures Step(w, Message(s, Throws)) == w.(status := Failed)
    ensures Step(w, Message(s, Unparsable)) == w
    ensures Unasked(w, id) ==> Step(w, Message(s, Frame(id, false))) == w
  {
    OpenIsCurrent(w, s);
    hide Inv;
  }

  /** Every request that waited has failed, in the order in which they were sent, and none waits any longer. */
  ghost predicate AllFailed(w: World, v: World) {
    && v.pending == [] && |v.settled| == |w.settled| + |w.pending| && w.settled <= v.settled
    && forall i :: 0 <= i < |w.pending| ==> v.settled[|w.settled| + i] == Settlement(w.pending[i], Failure)
  }

  lemma {:induction false} FailuresInOrder(requests: seq<Request>)
    ensures |Failures(requests)| == |requests|
    ensures forall i :: 0 <= i < |requests| ==> Failures(requests)[i] == Settlement(requests[i], Failure)
  {
    if requests != [] { FailuresInOrder(requests[1..]); }
  }

  /**
   A close event fails what waited. That of the current socket of a client not disposed of refuses the client for
   good on code 1008, and otherwise arms a timer for a reconnect; that of any other socket does nothing more.
   */
  lemma CloseEffects(w: World, s: nat, code: nat)
    requires Unfired(w, s)
    ensures var v := Step(w, CloseFired(s, code));
            var closed := w.(sockets := w.sockets[s := Closed], pending := [], settled := v.settled);
            && AllFailed(w, v)
            && v == if w.disposed || w.socket != Some(s) then closed
                    else if code == 1008 then closed.(status := Refused, stopped := true)
                    else closed.(status := Reconnecting, attempt := w.attempt + 1, timer := Some(|w.timers|),
                                 timers := w.timers + [true], delays := w.delays + [Delay(w.attempt)])
  {
    FailuresInOrder(w.pending);
    hide Failures, Delay;
  }

  /** A timer that fires tries to connect: one more socket or, when there can be none, one more timer. */
  lemma TimerEffects(w: World, t: nat, constructed: bool)
    requires Inv(w) && Armed(w, t)
    ensures var v := Step(w, TimerFired(t, constructed));
            var fired := w.(timers := w.timers[t := false]);
            v == if constructed
                 then fired.(status := if w.attempt == 0 then Connecting else Reconnecting,
                             socket := Some(|w.sockets|), sockets := w.sockets + [Opening])
                 else fired.(status := Reconnecting, attempt := w.attempt + 1, timer := Some(|w.timers|),
                             timers := w.timers[t := false] + [true], delays := w.delays + [Delay(w.attempt)])
  {
    assert !w.disposed;
    hide Inv, Delay;
  }

  /** No timer is armed, no socket is left that is not closing, and nothing was sent or made on the way. */
  ghost predicate StandsStill(w: World, v: World) {
    && (forall t: nat :: !Armed(v, t)) && (forall s: nat :: Unfired(v, s) ==> v.sockets[s] == Closing)
    && |v.sockets| == |w.sockets| && |v.timers| == |w.timers| && v.delays == w.delays
    && v.sent == w.sent && v.issued == w.issued && v.nextId == w.nextId && v.attempt == w.attempt
  }

  lemma NothingLeft(w: World, v: World)
    requires OneConnection(w)
    requires v.timers == ClearTimer(w).timers && v.sockets == CloseSocket(w, w.socket).sockets
    ensures (forall t: nat :: !Armed(v, t)) && (forall s: nat :: Unfired(v, s) ==> v.sockets[s] == Closing)
    ensures |v.sockets| == |w.sockets| && |v.timers| == |w.timers|
  {
    forall t: nat ensures !Armed(v, t) { assert Armed(w, t) ==> w.timer == Some(t); }
    forall s: nat | Unfired(v, s) ensures v.sockets[s] == Closing {
      assert Unfired(w, s);
      assert w.sockets[s] != Closing ==> w.socket == Some(s);
    }
  }

  lemma DetachParts(w: World)
    ensures DisposeSocket(w)
            == w.(pending := [], settled := w.settled + Failures(w.pending), timer := None, timers := ClearTimer(w).timers,
                  socket := None, sockets := CloseSocket(w, w.socket).sockets, status := Idle, stopped := true)
  {
  }

  lemma DisposeParts(w: World)
    ensures Dispose(w)
            == w.(pending := [], settled := w.settled + Failures(w.pending), timers := ClearTimer(w).timers,
                  sockets := CloseSocket(w, w.socket).sockets, disposed := true, stopped := true)
  {
  }

  /** `/logout` fails what waited, disarms the timer, lets go of the socket and closes it; the client is idle. */
  lemma DetachEffects(w: World)
    requires Inv(w)
    ensures var v := Step(w, LoggedOut);
            && AllFailed(w, v) && StandsStill(w, v)
            && v.status == Idle && v.socket == None && v.timer == None && v.disposed == w.disposed
  {
    hide DisposeSocket, Failures, Armed, Unfired, CloseSocket, ClearTimer, Accounted, OneConnection;
    DetachParts(w);
    FailuresInOrder(w.pending);
    NothingLeft(w, DisposeSocket(w));
  }

  /** Disposal does the same to requests, timer and connection, but the status and the socket stand. */
  lemma DisposeEffects(w: World)
    requires Inv(w)
    ensures var v := Step(w, DisposedOf);
            && AllFailed(w, v) && StandsStill(w, v)
            && v.status == w.status && v.socket == w.socket && v.disposed
  {
    hide Dispose, Failures, Armed, Unfired, CloseSocket, ClearTimer, Accounted, OneConnection;
    DisposeParts(w);
    FailuresInOrder(w.pending);
    NothingLeft(w, Dispose(w));
  }

  /** A call over an open socket sends one request, which waits; without one nothing happens. A resize does not wait. */
  lemma CallEffects(w: World)
    requires Inv(w)
    ensures var open := exists s: nat :: s < |w.sockets| && w.sockets[s] == Open;
            var v, u := Step(w, Called), Step(w, Resized);
            if open then
              exists s: nat :: s < |w.sockets| && w.sockets[s] == Open
                && (var r := Request(w.nextId + 1, s);
                    && v == w.(nextId := w.nextId + 1, sent := w.sent + [r], issued := w.issued + [r], pending := w.pending + [r])
                    && u == w.(nextId := w.nextId + 1, sent := w.sent + [r]))
            else v == w && u == w
  {
    forall s: nat | s < |w.sockets| && w.sockets[s] == Open ensures w.socket == Some(s) { OpenIsCurrent(w, s); }
    hide Inv;
  }
}
