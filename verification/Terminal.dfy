/**
 The mounted terminal as an object whose handlers update it in place (apps/webui-static/coden-terminal.js), each
 proved to take the step of `Attachment` that carries its name.
 */
module Terminal {
  import opened Attachment
  import opened Options

  class Terminal {
    var socket: Option<nat>
    var status: Status
    var attempt: nat
    var disposed: bool
    var reconnectTimer: Option<nat>
    var nextId: nat
    var pending: seq<Request>

    // what the browser holds for the terminal
    var sockets: seq<SocketState>
    var timers: seq<bool>
    var delays: seq<nat>

    // what has happened so far
    ghost var sent: seq<Request>
    ghost var issued: seq<Request>
    ghost var settled: seq<Settlement>
    ghost var stopped: bool

    ghost function State(): World
      reads this
    {
      World(socket, status, attempt, disposed, reconnectTimer, nextId, pending, sockets, timers, delays,
            sent, issued, settled, stopped)
    }

    constructor (constructed: bool)
      ensures State() == Mounted(constructed)
    {
      socket, status, attempt, disposed, reconnectTimer, nextId, pending := None, Idle, 0, false, None, 1, [];
      sockets, timers, delays, sent, issued, settled, stopped := [], [], [], [], [], [], false;
      new;
      Reattach(constructed);
    }

    /** `socket && socket.readyState === 1`. */
    predicate Sendable()
      reads this
      ensures Sendable() == CanSend(State())
    {
      socket.Some? && socket.value < |sockets| && sockets[socket.value] == Open
    }

    /** `call`; without an open socket the request is rejected at once and nothing is sent. */
    method Ask() returns (id: Option<nat>)
      modifies this`nextId, this`pending, this`sent, this`issued
      ensures State() == Call(old(State()))
      ensures id.Some? <==> old(Sendable())
      ensures id.Some? && old(Inv(State())) ==> forall r <- old(sent) + old(issued) :: r.id < id.value
    {
      if !Sendable() { return None; }
      nextId := nextId + 1;
      pending := pending + [Request(nextId, socket.value)];
      sent := sent + [Request(nextId, socket.value)];
      issued := issued + [Request(nextId, socket.value)];
      return Some(nextId);
    }

    method TellGeometry()
      modifies this`nextId, this`sent
      ensures State() == SendGeometry(old(State()))
    {
      if Sendable() {
        nextId := nextId + 1;
        sent := sent + [Request(nextId, socket.value)];
      }
    }

    /** `failPending`: rejects what waits, oldest first, then forgets it. */
    method RejectPending()
      modifies this`pending, this`settled
      ensures State() == FailPending(old(State()))
    {
      ghost var before := settled;
      for i := 0 to |pending|
        invariant unchanged(`pending)
        invariant settled + Failures(pending[i..]) == before + Failures(pending)
      {
        assert pending[i..] == [pending[i]] + pending[i + 1..];
        settled := settled + [Settlement(pending[i], Failure)];
      }
      pending := [];
    }

    /** `WebSocket.close`, which does nothing to a socket that is closing or closed. */
    method Close(s: Option<nat>)
      modifies this`sockets
      ensures State() == CloseSocket(old(State()), s)
    {
      if s.Some? && s.value < |sockets| && sockets[s.value] in {Opening, Open} {
        sockets := sockets[s.value := Closing];
      }
    }

    method ClearReconnect()
      modifies this`timers
      ensures State() == ClearTimer(old(State()))
    {
      if reconnectTimer.Some? && reconnectTimer.value < |timers| {
        timers := timers[reconnectTimer.value := false];
      }
    }

    method ForgetReconnect()
      modifies this`timers, this`reconnectTimer
      ensures State() == ClearTimer(old(State())).(timer := None)
    {
      ClearReconnect();
      reconnectTimer := None;
    }

    /** `scheduleReconnect`; the delay is the one that the count of earlier attempts calls for. */
    method Reschedule() returns (delay: nat)
      modifies this`attempt, this`status, this`reconnectTimer, this`timers, this`delays
      ensures State() == ScheduleReconnect(old(State()))
      ensures delay == Delay(old(attempt)) && (!old(disposed) ==> delays == old(delays) + [delay])
    {
      delay := BACKOFF[if attempt < |BACKOFF| then attempt else |BACKOFF| - 1];
      if disposed { return; }
      attempt := attempt + 1;
      status := Reconnecting;
      reconnectTimer := Some(|timers|);
      timers := timers + [true];
      delays := delays + [delay];
    }

    /** `connect`; `constructed` is false when the socket constructor throws. */
    method Reattach(constructed: bool)
      modifies this
      ensures State() == Connect(old(State()), constructed)
    {
      if disposed { return; }
      status := if attempt == 0 then Connecting else Reconnecting;
      if !constructed {
        var _ := Reschedule();
        return;
      }
      socket := Some(|sockets|);
      sockets := sockets + [Opening];
    }

    /** `onFrame`, for a message on socket `s`. */
    method Receive(s: nat, frame: Frame)
      modifies this
      ensures State() == OnFrame(old(State()), s, frame)
    {
      hide CloseSocket, Call, SendGeometry, CanSend;
      match frame
      case Mismatch =>
        status := Failed;
        Close(socket);
      case Throws =>
        status := Failed;
      case Unparsable =>
      case Frame(id, welcome) =>
        if id.Some? {
          var i := Find(pending, id.value);
          if i < |pending| {
            Answered(s, i);
            return;
          }
        }
        if welcome { Welcomed(); }
    }

    /** A reply on socket `s` to the request at position `i`. */
    method Answered(s: nat, i: nat)
      requires i < |pending|
      modifies this`pending, this`settled
      ensures pending == old(pending[..i] + pending[i + 1..])
      ensures settled == old(settled + [Settlement(pending[i], Reply(s, pending[i].id))])
    {
      settled := settled + [Settlement(pending[i], Reply(s, pending[i].id))];
      pending := pending[..i] + pending[i + 1..];
    }

    /** The bridge is ready: announce the size and open the session. */
    method Welcomed()
      modifies this
      ensures State() == Call(SendGeometry(old(State()).(attempt := 0, status := Live)))
    {
      hide Call, SendGeometry, CanSend;
      attempt := 0;
      status := Live;
      TellGeometry();
      var _ := Ask();
    }

    /** The listener of the close event of socket `s`. */
    method Closed(s: nat, code: nat)
      modifies this
      ensures State() == OnClose(old(State()), s, code)
    {
      hide FailPending, ScheduleReconnect;
      RejectPending();
      if disposed { return; }
      if socket != Some(s) { return; }
      if code == POLICY_REFUSAL {
        status := Refused;
        stopped := true;
        return;
      }
      var _ := Reschedule();
    }

    /** Lets go of the socket before it is closed, so that its close event finds another or none. */
    method Release()
      modifies this`socket, this`sockets
      ensures State() == CloseSocket(old(State()).(socket := None), old(socket))
    {
      var closing := socket;
      socket := None;
      Close(closing);
    }

    /** `disposeSocket`, for `/logout`. */
    method Detach()
      modifies this
      ensures State() == DisposeSocket(old(State()))
    {
      hide ClearTimer, CloseSocket, Failures;
      ForgetReconnect();
      RejectPending();
      Release();
      status := Idle;
      stopped := true;
    }

    /** `dispose` of the handle. */
    method Unmount()
      modifies this
      ensures State() == Dispose(old(State()))
    {
      hide ClearTimer, FailPending, CloseSocket;
      disposed := true;
      ClearReconnect();
      RejectPending();
      Close(socket);
      stopped := true;
    }

    /** Whatever happens next is a step, and every step keeps the invariant. */
    method Handle(e: Event)
      requires Enabled(State(), e)
      modifies this
      ensures State() == Step(old(State()), e)
      ensures old(Inv(State())) ==> Inv(State())
    {
      hide OnFrame, OnClose, Connect, Call, SendGeometry, DisposeSocket, Dispose, Inv;
      ghost var before := State();
      match e {
        case Opened(s) => sockets := sockets[s := Open];
        case ClosingBegins(s) => sockets := sockets[s := Closing];
        case Message(s, frame) => Receive(s, frame);
        case CloseFired(s, code) =>
          sockets := sockets[s := SocketState.Closed];
          Closed(s, code);
        case TimerFired(t, constructed) =>
          timers := timers[t := false];
          Reattach(constructed);
        case Called => var _ := Ask();
        case Resized => TellGeometry();
        case LoggedOut => Detach();
        case DisposedOf => Unmount();
      }
      if Inv(before) { StepKeeps(before, e); }
    }
  }
}
