/**
  The connection object: the connection state and its transitions, the
  outcomes of the connect worker and of the read worker, the write gate,
  and the messages posted to the activity, in posting order.

  Threads are not modelled: every call and every worker outcome is one
  atomic action on an immutable `Session`.
*/
module Comm {
  import opened Results
  import opened Wire
  import opened Buffers
  import opened Decoder
  import opened Messages

  /** The state codes `getState` returns and state-change messages carry. */
  const StateNoneCode := 0
  const StateConnectingCode := 2
  const StateConnectedCode := 3

  /** The toast texts of the two failure paths. */
  const UnableToConnect := "Unable to connect device"
  const ConnectionLost := "Connection was lost"

  datatype ConnState = StateNone | StateConnecting | StateConnected {
    function Code(): (c: int)
      ensures c in {StateNoneCode, StateConnectingCode, StateConnectedCode}
    {
      match this
      case StateNone => StateNoneCode
      case StateConnecting => StateConnectingCode
      case StateConnected => StateConnectedCode
    }
  }

  /** A remote device, known to the model only by its display name. */
  datatype Device = Device(name: string)

  /**
    The read worker as the connection object sees it: no reference, a
    running loop with its own high register, or a loop that left after a
    read error but is still referenced.
  */
  datatype Reader = NoReader | Reading(high: int) | Stopped

  /**
    The connection object. `socket` says whether the socket field is
    non-null; `pendingConnects` counts connect workers started and not yet
    finished (dropping the reference to a worker does not stop it);
    `sent` lists the byte arrays handed to the output stream.
  */
  datatype Session = Session(
    state: ConnState,
    device: Option<Device>,
    socket: bool,
    pendingConnects: nat,
    reader: Reader,
    bufs: BufferSet,
    notices: seq<Notice>,
    sent: seq<seq<Byte>>)

  /** The connection states reported so far, in order. */
  function StateChanges(ns: seq<Notice>): (r: seq<int>)
    ensures |r| <= |ns|
  {
    if |ns| == 0 then []
    else StateChanges(ns[..|ns| - 1]) + (if ns[|ns| - 1].StateChange? then [ns[|ns| - 1].state] else [])
  }

  lemma {:induction false} StateChangesAppend(a: seq<Notice>, b: seq<Notice>)
    ensures StateChanges(a + b) == StateChanges(a) + StateChanges(b)
    decreases |b|
  {
    if |b| == 0 {
      assert a + b == a;
    } else {
      assert (a + b)[..|a + b| - 1] == a + b[..|b| - 1];
      StateChangesAppend(a, b[..|b| - 1]);
    }
  }

  /**
    What the activity believes the state is, from the last state-change
    message, and the idle state before any message.
  */
  function ReportedState(s: Session): int {
    var changes := StateChanges(s.notices);
    if |changes| == 0 then StateNoneCode else changes[|changes| - 1]
  }

  /**
    Facts every reachable session keeps: CONNECTED implies a running read
    worker, so `write` never dereferences a missing one; the buffers are
    well formed and hold 10-bit samples; the read worker's high register
    holds five bits; and the last state-change message tells the current
    state.
  */
  predicate Inv(s: Session) {
    && (s.state == StateConnected ==> s.reader.Reading?)
    && (s.reader.Reading? ==> 0 <= s.reader.high < 32)
    && s.bufs.Valid()
    && s.bufs.InRange()
    && ReportedState(s) == s.state.Code()
  }

  lemma StateChangesOfReadComplete(events: seq<Notice>)
    requires forall i :: 0 <= i < |events| ==> events[i] == ReadComplete
    ensures StateChanges(events) == []
  {
    if |events| > 0 {
      StateChangesOfReadComplete(events[..|events| - 1]);
    }
  }

  lemma ReportedAfter(s: Session, extra: seq<Notice>, st: ConnState)
    requires StateChanges(extra) == [st.Code()]
    ensures ReportedState(s.(notices := s.notices + extra)) == st.Code()
  {
    StateChangesAppend(s.notices, extra);
  }

  /** The constructor followed by `initBuffer(buflen)`, as the activity's setup does it. */
  function Create(buflen: nat): (s: Session)
    ensures Inv(s)
    ensures s.state == StateNone && s.device == None && !s.socket && s.reader == NoReader
    ensures s.bufs.length == buflen && s.notices == [] && s.sent == []
    ensures s.bufs == Initial(buflen) && s.pendingConnects == 0
    ensures AllMidScale(s.bufs.buf0, buflen) && AllMidScale(s.bufs.buf1, buflen)
    ensures s.bufs.active == 0 && s.bufs.index == 0 && s.bufs.mode == Burst
  {
    Session(StateNone, None, false, 0, NoReader, Initial(buflen), [], [])
  }

  /**
    `getState()`: the code of the current state, which in a reachable
    session is the code the last state-change message carried.
  */
  function GetState(s: Session): (c: int)
    ensures c == StateNoneCode <==> s.state == StateNone
    ensures c == StateConnectingCode <==> s.state == StateConnecting
    ensures c == StateConnectedCode <==> s.state == StateConnected
    ensures Inv(s) ==> c == ReportedState(s)
  {
    s.state.Code()
  }

  /** `setState`: store the state and post its code. */
  function SetState(s: Session, st: ConnState): (r: Session)
    ensures r.state == st && GetState(r) == st.Code()
    ensures r.notices == s.notices + [StateChange(st.Code())]
    ensures var last := r.notices[|r.notices| - 1];
      last.What() == MessageStateChange && last.state == st.Code() && ReportedState(r) == st.Code()
    ensures r.(notices := s.notices, state := s.state) == s
  {
    s.(state := st, notices := s.notices + [StateChange(st.Code())])
  }

  /**
    `connect(device)`: remember the device, drop the reference to a
    previous connect worker (it keeps running), cancel and drop the read
    worker, create the socket, start a connect worker, and report
    CONNECTING, whatever the state was.
  */
  function Connect(s: Session, dev: Device): (r: Session)
    ensures r.state == StateConnecting
    ensures r.device == Some(dev) && r.socket && r.reader == NoReader
    ensures r.pendingConnects == s.pendingConnects + 1
    ensures r.notices == s.notices + [StateChange(StateConnectingCode)]
    ensures r.bufs == s.bufs && r.sent == s.sent
    ensures Inv(s) ==> Inv(r)
  {
    var started := s.(device := Some(dev), reader := NoReader, socket := true,
                      pendingConnects := s.pendingConnects + 1);
    ReportedAfter(started, [StateChange(StateConnectingCode)], StateConnecting);
    SetState(started, StateConnecting)
  }

  /**
    `disconnect()`: from any state, drop both workers (cancelling the
    read worker), close and clear the socket, forget the device and report
    NONE.
  */
  function Disconnect(s: Session): (r: Session)
    ensures r.state == StateNone
    ensures r.device == None && !r.socket && r.reader == NoReader
    ensures r.pendingConnects == s.pendingConnects
    ensures r.notices == s.notices + [StateChange(StateNoneCode)]
    ensures r.bufs == s.bufs && r.sent == s.sent
    ensures Inv(s) ==> Inv(r)
  {
    var stopped := s.(reader := NoReader, socket := false, device := None);
    ReportedAfter(stopped, [StateChange(StateNoneCode)], StateNone);
    SetState(stopped, StateNone)
  }

  /**
    `write(out)`: dropped unless the state is CONNECTED; otherwise handed
    to the read worker's output stream. A failing write is only logged, so
    it changes nothing either way.
  */
  function Write(s: Session, out: seq<Byte>): (r: Result<Session>)
    ensures s.state != StateConnected ==> r == Ok(s)
    ensures s.state == StateConnected && !s.reader.NoReader? ==> r == Ok(s.(sent := s.sent + [out]))
  {
    if s.state != StateConnected then Ok(s)
    else if s.reader.NoReader? then Err(NullReference)
    else Ok(s.(sent := s.sent + [out]))
  }

  /** `initBuffer(buflen)` on a live session: fresh buffers, nothing else touched. */
  function InitBuffer(s: Session, buflen: int): (r: Result<Session>)
    ensures r.Err? <==> buflen < 0
    ensures r.Err? ==> r.fault == NegativeArraySize(buflen)
    ensures r.Ok? ==> r.value.bufs.length == buflen && r.value.bufs.index == 0 && r.value.bufs.mode == Burst
    ensures r.Ok? ==>
      && AllMidScale(r.value.bufs.buf0, buflen) && AllMidScale(r.value.bufs.buf1, buflen)
      && r.value.bufs.active == 0
    ensures r.Ok? ==> r.value.bufs == Initial(buflen)
    ensures r.Ok? ==> r.value.(bufs := s.bufs) == s
  {
    if buflen < 0 then Err(NegativeArraySize(buflen)) else Ok(s.(bufs := Initial(buflen)))
  }

  /**
    A connect worker whose socket connect failed: close and clear the
    socket, post the failure toast, report NONE. Closing a socket field
    that a `disconnect` has already cleared throws.
  */
  function ConnectFailed(s: Session): (r: Result<Session>)
    requires s.pendingConnects > 0
    ensures r.Err? <==> !s.socket
    ensures r.Ok? ==>
      && r.value.state == StateNone && !r.value.socket
      && r.value.pendingConnects == s.pendingConnects - 1
      && r.value.notices == s.notices + [Toast(UnableToConnect), StateChange(StateNoneCode)]
      && r.value.reader == s.reader && r.value.device == s.device
      && r.value.bufs == s.bufs && r.value.sent == s.sent
    ensures Inv(s) && r.Ok? ==> Inv(r.value)
  {
    if !s.socket then Err(NullReference)
    else
      var closed := s.(socket := false, pendingConnects := s.pendingConnects - 1);
      ReportedAfter(closed, [Toast(UnableToConnect), StateChange(StateNoneCode)], StateNone);
      Ok(SetState(closed.(notices := s.notices + [Toast(UnableToConnect)]), StateNone))
  }

  /**
    The failure path with the null check it evidently lacks: a socket a
    `disconnect` has already closed and cleared is not closed again. It
    agrees with `ConnectFailed` whenever that one does not throw.
  */
  function ConnectFailedGuarded(s: Session): (r: Session)
    requires s.pendingConnects > 0
    ensures r.state == StateNone && !r.socket
    ensures r.pendingConnects == s.pendingConnects - 1
    ensures r.notices == s.notices + [Toast(UnableToConnect), StateChange(StateNoneCode)]
    ensures r.reader == s.reader && r.device == s.device
    ensures r.bufs == s.bufs && r.sent == s.sent
    ensures s.socket ==> ConnectFailed(s) == Ok(r)
    ensures Inv(s) ==> Inv(r)
  {
    var closed := s.(socket := false, pendingConnects := s.pendingConnects - 1);
    ReportedAfter(closed, [Toast(UnableToConnect), StateChange(StateNoneCode)], StateNone);
    SetState(closed.(notices := s.notices + [Toast(UnableToConnect)]), StateNone)
  }

  /**
    `connect`, then `disconnect` while the connect worker is still
    blocked, then that worker's connect failing (the closed socket makes
    it fail): the failure path dereferences the cleared socket field and
    throws, where the guarded version reports NONE.
  */
  lemma DisconnectDuringConnectCrashes(buflen: nat, dev: Device)
    ensures var s := Disconnect(Connect(Create(buflen), dev));
      && s.pendingConnects == 1 && s.state == StateNone
      && ConnectFailed(s) == Err(NullReference)
      && ConnectFailedGuarded(s).state == StateNone
      && ConnectFailedGuarded(s).notices[|ConnectFailedGuarded(s).notices| - 1] == StateChange(StateNoneCode)
  {
  }

  /**
    A connect worker whose socket connect succeeded: start a new read
    worker (its high register starts at 0), post the device name, report
    CONNECTED. A socket or device field that a `disconnect` has cleared in
    the meantime makes it throw.
  */
  function ConnectSucceeded(s: Session): (r: Result<Session>)
    requires s.pendingConnects > 0
    ensures r.Err? <==> !s.socket || s.device.None?
    ensures r.Ok? ==>
      && r.value.state == StateConnected
      && r.value.reader == Reading(0)
      && r.value.pendingConnects == s.pendingConnects - 1
      && r.value.notices == s.notices + [DeviceName(s.device.value.name), StateChange(StateConnectedCode)]
      && r.value.device == s.device && r.value.socket
      && r.value.bufs == s.bufs && r.value.sent == s.sent
    ensures Inv(s) && r.Ok? ==> Inv(r.value)
  {
    if !s.socket || s.device.None? then Err(NullReference)
    else
      var started := s.(reader := Reading(0), pendingConnects := s.pendingConnects - 1);
      var named := [DeviceName(s.device.value.name)];
      ReportedAfter(started, named + [StateChange(StateConnectedCode)], StateConnected);
      Ok(SetState(started.(notices := s.notices + named), StateConnected))
  }

  /**
    The read worker decodes one received chunk into the shared buffers,
    keeping its high register for the next chunk and posting a
    read-complete message per frame end.
  */
  function Receive(s: Session, chunk: seq<Byte>): (r: Result<Session>)
    requires s.reader.Reading? && s.bufs.Valid() && 0 <= s.reader.high < 32
    ensures s.bufs.length > 0 ==> r.Ok?
    ensures r.Ok? ==>
      && r.value.reader.Reading?
      && r.value.bufs.length == s.bufs.length
      && r.value.(bufs := s.bufs, reader := s.reader, notices := s.notices) == s
  {
    var d :- Feed(s.bufs, s.reader.high, chunk);
    Ok(s.(bufs := d.bufs, reader := Reading(d.high), notices := s.notices + d.events))
  }

  /** Decoding a chunk posts no state change, so a reachable session stays reachable. */
  lemma ReceiveKeepsInv(s: Session, chunk: seq<Byte>)
    requires Inv(s) && s.reader.Reading?
    ensures Receive(s, chunk).Ok? ==> Inv(Receive(s, chunk).value)
  {
    var r := Feed(s.bufs, s.reader.high, chunk);
    if r.Ok? {
      FeedEvents(s.bufs, s.reader.high, chunk);
      StateChangesOfReadComplete(r.value.events);
      StateChangesAppend(s.notices, r.value.events);
      FeedInRange(s.bufs, s.reader.high, chunk);
    }
  }

  /**
    The read worker's read failed: post the connection-lost toast, report
    NONE, and leave the loop for good.
  */
  function ReadFailed(s: Session): (r: Session)
    requires s.reader.Reading?
    ensures r.state == StateNone && r.reader == Stopped
    ensures r.notices == s.notices + [Toast(ConnectionLost), StateChange(StateNoneCode)]
    ensures r.device == s.device && r.socket == s.socket && r.pendingConnects == s.pendingConnects
    ensures r.bufs == s.bufs && r.sent == s.sent
    ensures Inv(s) ==> Inv(r)
  {
    var stopped := s.(reader := Stopped);
    ReportedAfter(stopped, [Toast(ConnectionLost), StateChange(StateNoneCode)], StateNone);
    SetState(stopped.(notices := s.notices + [Toast(ConnectionLost)]), StateNone)
  }

  /** Every call into the connection object and every worker outcome. */
  datatype Action =
    | ConnectTo(dev: Device)
    | DisconnectAll
    | WriteBytes(out: seq<Byte>)
    | ResizeBuffers(buflen: int)
    | ConnectFailure
    | ConnectSuccess
    | Received(chunk: seq<Byte>)
    | ReadFailure
  {
    /** The actions that go through `setState`. */
    predicate Transition() {
      ConnectTo? || DisconnectAll? || ConnectFailure? || ConnectSuccess? || ReadFailure?
    }
  }

  /**
    Whether the action can happen at all: a connect outcome needs a
    connect worker that has not finished, and a received chunk or a read
    error needs a running read loop.
  */
  predicate Enabled(s: Session, a: Action) {
    match a
    case ConnectFailure => s.pendingConnects > 0
    case ConnectSuccess => s.pendingConnects > 0
    case Received(_) => s.reader.Reading?
    case ReadFailure => s.reader.Reading?
    case _ => true
  }

  /** One action of the connection object; the Java exception it may raise aborts it. */
  function Apply(s: Session, a: Action): (r: Result<Session>)
    requires Inv(s) && Enabled(s, a)
    ensures r.Ok? ==> Inv(r.value)
  {
    match a
    case ConnectTo(dev) => Ok(Connect(s, dev))
    case DisconnectAll => Ok(Disconnect(s))
    case WriteBytes(out) => Write(s, out)
    case ResizeBuffers(n) => InitBuffer(s, n)
    case ConnectFailure => ConnectFailed(s)
    case ConnectSuccess => ConnectSucceeded(s)
    case Received(chunk) => ReceiveKeepsInv(s, chunk); Receive(s, chunk)
    case ReadFailure => Ok(ReadFailed(s))
  }

  /** Decoding a chunk adds no state-change message. */
  lemma ReceiveReportsNothing(s: Session, chunk: seq<Byte>)
    requires s.reader.Reading? && s.bufs.Valid() && 0 <= s.reader.high < 32
    requires Receive(s, chunk).Ok?
    ensures StateChanges(Receive(s, chunk).value.notices) == StateChanges(s.notices)
  {
    FeedEvents(s.bufs, s.reader.high, chunk);
    var d := Feed(s.bufs, s.reader.high, chunk).value;
    StateChangesOfReadComplete(d.events);
    StateChangesAppend(s.notices, d.events);
  }

  /**
    Each transition posts exactly one state-change message, carrying the
    new state; every other action posts none and keeps the state.
  */
  lemma ReportsEachTransition(s: Session, a: Action)
    requires Inv(s) && Enabled(s, a) && Apply(s, a).Ok?
    ensures StateChanges(Apply(s, a).value.notices) ==
      StateChanges(s.notices) + (if a.Transition() then [Apply(s, a).value.state.Code()] else [])
    ensures !a.Transition() ==> Apply(s, a).value.state == s.state
  {
    if a.Transition() {
      TransitionReports(s, a);
    } else {
      OtherActionsQuiet(s, a);
    }
  }

  /** The transitions each post one state change carrying the new state. */
  lemma TransitionReports(s: Session, a: Action)
    requires Inv(s) && Enabled(s, a) && Apply(s, a).Ok? && a.Transition()
    ensures StateChanges(Apply(s, a).value.notices) == StateChanges(s.notices) + [Apply(s, a).value.state.Code()]
  {
    var r := Apply(s, a).value;
    match a
    case ConnectTo(dev) =>
      assert r == Connect(s, dev);
      StateChangesAppend(s.notices, [StateChange(StateConnectingCode)]);
    case DisconnectAll =>
      assert r == Disconnect(s);
      StateChangesAppend(s.notices, [StateChange(StateNoneCode)]);
    case ConnectFailure =>
      assert r == ConnectFailed(s).value;
      StateChangesAppend(s.notices, [Toast(UnableToConnect), StateChange(StateNoneCode)]);
    case ConnectSuccess =>
      assert r == ConnectSucceeded(s).value;
      StateChangesAppend(s.notices, [DeviceName(s.device.value.name), StateChange(StateConnectedCode)]);
    case ReadFailure =>
      assert r == ReadFailed(s);
      StateChangesAppend(s.notices, [Toast(ConnectionLost), StateChange(StateNoneCode)]);
  }

  /** Writes, buffer resets and received chunks post no state change and keep the state. */
  lemma OtherActionsQuiet(s: Session, a: Action)
    requires Inv(s) && Enabled(s, a) && Apply(s, a).Ok? && !a.Transition()
    ensures StateChanges(Apply(s, a).value.notices) == StateChanges(s.notices)
    ensures Apply(s, a).value.state == s.state
  {
    var r := Apply(s, a).value;
    match a
    case WriteBytes(out) =>
      assert r.notices == s.notices && r.state == s.state;
    case ResizeBuffers(n) =>
      assert r.notices == s.notices && r.state == s.state;
    case Received(chunk) =>
      assert r == Receive(s, chunk).value;
      ReceiveReportsNothing(s, chunk);
  }

  /**
    The write gate: in a reachable session a write never throws, and it
    reaches the output stream exactly when the state is CONNECTED;
    nothing else changes.
  */
  lemma WriteGate(s: Session, out: seq<Byte>)
    requires Inv(s)
    ensures Write(s, out).Ok?
    ensures Write(s, out).value.sent == s.sent + [out] <==> s.state == StateConnected
    ensures Write(s, out).value.(sent := s.sent) == s
  {
    if s.state != StateConnected {
      assert s.sent != s.sent + [out];
    }
  }

  /**
    The high register survives chunk boundaries: receiving two chunks one
    after the other decodes exactly what receiving them as one chunk does.
  */
  lemma ChunkBoundaries(s: Session, a: seq<Byte>, b: seq<Byte>)
    requires s.reader.Reading? && s.bufs.Valid() && 0 <= s.reader.high < 32
    requires Receive(s, a).Ok?
    ensures var s1 := Receive(s, a).value;
      s1.reader.Reading? && s1.bufs.Valid() && 0 <= s1.reader.high < 32 &&
      Receive(s1, b) == Receive(s, a + b)
  {
    var d := Feed(s.bufs, s.reader.high, a).value;
    var s1 := Receive(s, a).value;
    assert s1 == s.(bufs := d.bufs, reader := Reading(d.high), notices := s.notices + d.events);
    var rb := Feed(d.bufs, d.high, b);
    var whole := Feed(s.bufs, s.reader.high, a + b);
    assert whole == (if rb.Err? then rb else Ok(rb.value.(events := d.events + rb.value.events))) by {
      FeedConcat(s.bufs, s.reader.high, a, b);
    }
    if rb.Ok? {
      var e := rb.value;
      assert s.notices + d.events + e.events == s.notices + (d.events + e.events);
    }
  }

  /** A sequence of actions that can actually happen, each enabled when it comes, stopping at the first exception. */
  predicate Admissible(s: Session, actions: seq<Action>)
    requires Inv(s)
    decreases |actions|
  {
    || |actions| == 0
    || (&& Enabled(s, actions[0])
        && match Apply(s, actions[0])
           case Err(_) => true
           case Ok(s1) => Admissible(s1, actions[1..]))
  }

  /** A run of actions from a reachable session; the first exception ends it. */
  function Run(s: Session, actions: seq<Action>): (r: Result<Session>)
    requires Inv(s) && Admissible(s, actions)
    ensures r.Ok? ==> Inv(r.value)
    decreases |actions|
  {
    if |actions| == 0 then Ok(s)
    else
      var s1 :- Apply(s, actions[0]);
      Run(s1, actions[1..])
  }

  /**
    The run `connect`, `disconnect`, failed connect is admissible from a
    fresh session and ends in the null dereference of the failure path.
  */
  lemma DisconnectDuringConnectAborts(buflen: nat, dev: Device)
    ensures Admissible(Create(buflen), [ConnectTo(dev), DisconnectAll, ConnectFailure])
    ensures Run(Create(buflen), [ConnectTo(dev), DisconnectAll, ConnectFailure]) == Err(NullReference)
  {
    var actions := [ConnectTo(dev), DisconnectAll, ConnectFailure];
    var s0 := Create(buflen);
    var s1 := Connect(s0, dev);
    var s2 := Disconnect(s1);
    DisconnectDuringConnectCrashes(buflen, dev);
    assert actions[1..] == [DisconnectAll, ConnectFailure];
    assert actions[1..][1..] == [ConnectFailure];
    assert Apply(s0, actions[0]) == Ok(s1);
    assert Apply(s1, actions[1]) == Ok(s2);
    assert Apply(s2, ConnectFailure) == Err(NullReference);
    assert Run(s2, [ConnectFailure]) == Err(NullReference);
    assert Run(s1, actions[1..]) == Run(s2, [ConnectFailure]);
    assert Run(s0, actions) == Run(s1, actions[1..]);
  }

  /** Whether some action in the sequence is a `connect` call. */
  predicate CallsConnect(actions: seq<Action>) {
    exists i :: 0 <= i < |actions| && actions[i].ConnectTo?
  }

  /**
    Once no connect worker is pending and the session is not CONNECTED
    (after a read error, a failed connect or a disconnect), nothing brings
    it back to CONNECTED short of a new `connect` call.
  */
  lemma {:induction false} NoReconnectWithoutConnect(s: Session, actions: seq<Action>)
    requires Inv(s) && Admissible(s, actions)
    requires s.pendingConnects == 0 && s.state != StateConnected
    requires !CallsConnect(actions)
    ensures Run(s, actions).Ok? ==>
      Run(s, actions).value.state != StateConnected && Run(s, actions).value.pendingConnects == 0
    decreases |actions|
  {
    if |actions| > 0 {
      var r1 := Apply(s, actions[0]);
      if r1.Ok? {
        assert !CallsConnect(actions[1..]) by {
          forall i | 0 <= i < |actions[1..]|
            ensures !actions[1..][i].ConnectTo?
          {
            assert actions[1..][i] == actions[i + 1];
          }
        }
        assert !actions[0].ConnectTo?;
        NoReconnectWithoutConnect(r1.value, actions[1..]);
      }
    }
  }

  /**
    A read error is reported once: afterwards the session is NONE and the
    read loop has left, so neither another read error nor another chunk
    can follow from that worker.
  */
  lemma ReadFailureIsFinal(s: Session)
    requires Inv(s) && Enabled(s, ReadFailure)
    ensures Apply(s, ReadFailure).Ok?
    ensures var r := Apply(s, ReadFailure).value;
      && r.state == StateNone && GetState(r) == StateNoneCode
      && !Enabled(r, ReadFailure)
      && (forall chunk :: !Enabled(r, Received(chunk)))
  {
  }
}
