/**
 What holds over every run of a connection: the write queue loses, repeats and reorders nothing, never has two writes
 outstanding and never stalls; the state moves forward only; and the open, fail and close handlers are called as
 connection.hpp promises.
 */
module ConnectionRun {
  import opened Bytes
  import opened Wrappers
  import opened Frame
  import Close
  import opened ConnectionSpec

  datatype Event =
    | StartCall
    | TransportReady(failed: bool)
    | HandshakeRead(readError: Option<ReadError>, read: HandshakeRead)
    | HandshakeWritten(writeError: Option<ReadError>, switching: bool, cause: Cause)
    | SendCalled(prepared: bool, payload: seq<byte>, terminal: bool, ok: bool)
    | PingCalled(payload: seq<byte>)
    | PongCalled(payload: seq<byte>)
    | CloseCalled(code: nat, reason: seq<byte>)
    | WriteDispatched
    | WriteDone(failed: bool)
    | ControlFrame(op: nat, payload: seq<byte>, reply: bool)
    | ReadFailed(error: ReadError)
    | ProtocolError(code: nat, reason: seq<byte>)
    | TimerExpired
    | ShutdownDone

  /**
   Completions come only for what is outstanding, frames only after the handshake; close codes are 16 bits wide; only
   plain HTTP requests end as such.
   */
  predicate Enabled(c: Conn, e: Event) {
    match e
    case WriteDispatched => c.pipe.dispatched > 0
    case WriteDone(_) => c.pipe.writes > 0
    case ShutdownDone => c.shutdowns != []
    case HandshakeWritten(_, _, cause) => cause != HttpConnectionEnded
    case CloseCalled(code, _) => code < 0x10000
    case ControlFrame(_, _, _) => c.internal == ProcessConnection
    case ProtocolError(code, _) => c.internal == ProcessConnection && code < 0x10000
    case _ => true
  }

  function Step(c: Conn, e: Event): Conn
    requires Inv(c) && Enabled(c, e)
  {
    match e
    case StartCall => Start(c)
    case TransportReady(failed) => HandleTransportInit(c, failed)
    case HandshakeRead(error, read) => HandleReadHandshake(c, error, read)
    case HandshakeWritten(error, switching, cause) => HandleWriteHttpResponse(c, error, switching, cause)
    case SendCalled(prepared, payload, terminal, ok) => Send(c, prepared, payload, terminal, ok)
    case PingCalled(payload) => Ping(c, payload)
    case PongCalled(payload) => Pong(c, payload)
    case CloseCalled(code, reason) => CloseCall(c, code, reason).0
    case WriteDispatched => c.(pipe := WriteFrame(c.pipe))
    case WriteDone(failed) => HandleWriteFrame(c, failed)
    case ControlFrame(op, payload, reply) => ProcessControlFrame(c, op, payload, reply)
    case ReadFailed(error) => HandleReadError(c, error)
    case ProtocolError(code, reason) => HandleProtocolError(c, code, reason)
    case TimerExpired => Terminate(c, OtherError)
    case ShutdownDone => HandleTerminate(c)
  }

  //
  // The invariant
  //

  /** Nothing is lost, repeated or reordered. */
  predicate Conserved(pushed: seq<OutMsg>, written: seq<OutMsg>, queue: seq<OutMsg>, bufferSize: int) {
    pushed == written + queue && bufferSize == TotalSize(queue)
  }

  /**
   The frames being written are the last ones handed over; the flag is held while there are any, and for ever after
   the last.
   */
  predicate OneWrite(writes: nat, current: seq<OutMsg>, written: seq<OutMsg>, writeFlag: bool, closed: bool) {
    && writes == (if current != [] then 1 else 0)
    && |current| <= |written| && current == written[|written| - |current|..]
    && (current != [] ==> writeFlag)
    && (writeFlag && current == [] ==> closed)
  }

  /** Only the last frame handed over may be terminal, and then the write flag is never released. */
  predicate TerminalLast(written: seq<OutMsg>, writeFlag: bool) {
    && (forall i :: 0 <= i < |written| - 1 ==> !written[i].terminal)
    && (written != [] && written[|written| - 1].terminal ==> writeFlag)
  }

  predicate Flowing(p: Pipe, closed: bool) {
    && Conserved(p.pushed, p.written, p.queue, p.bufferSize)
    && OneWrite(p.writes, p.current, p.written, p.writeFlag, closed)
    && TerminalLast(p.written, p.writeFlag)
    && (p.queue != [] && !p.writeFlag ==> p.dispatched > 0)
  }

  /** A close frame is followed by nothing but close frames. */
  predicate CloseIsLast(pushed: seq<OutMsg>, state: SessionState) {
    && (forall i, j :: 0 <= i < j < |pushed| && pushed[i].kind == CloseFrame ==> pushed[j].kind == CloseFrame)
    && (pushed != [] && pushed[|pushed| - 1].kind == CloseFrame ==> state == Closing || state == Closed)
  }

  /** The handlers called so far, and the shutdown started when the state became closed. */
  predicate LifeCycle(state: SessionState, accepted: bool, shutdowns: seq<TerminateStatus>, calls: seq<Handler>) {
    && (state == Open || state == Closing ==> accepted)
    && (state == Connecting ==> !accepted)
    && (state != Closed ==> shutdowns == [])
    && (shutdowns == [] || shutdowns == [if accepted then ClosedStatus else FailedStatus])
    && if state != Closed || shutdowns != [] then calls == if accepted then [OpenHandler] else []
       else if accepted then calls == [OpenHandler, CloseHandler, TerminationHandler]
       else calls == [FailHandler, TerminationHandler] || calls == [TerminationHandler]
  }

  predicate Inv(c: Conn) {
    && c.remoteCode < 0x10000
    && Flowing(c.pipe, c.state == Closed)
    && CloseIsLast(c.pipe.pushed, c.state)
    && LifeCycle(c.state, c.internal == ProcessConnection, c.shutdowns, c.calls)
  }

  lemma InitialInv(cfg: Config)
    ensures Inv(Initial(cfg))
  {
  }

  //
  // Each operation keeps it
  //

  lemma {:induction false} TotalSizeConcat(a: seq<OutMsg>, b: seq<OutMsg>)
    ensures TotalSize(a + b) == TotalSize(a) + TotalSize(b)
  {
    if a == [] {
      assert a + b == b;
    } else {
      assert (a + b)[1..] == a[1..] + b;
      TotalSizeConcat(a[1..], b);
    }
  }

  lemma {:induction false} BatchTerminal(queue: seq<OutMsg>)
    ensures queue != [] ==> Batch(queue) != []
    ensures forall i :: 0 <= i < |Batch(queue)| - 1 ==> !Batch(queue)[i].terminal
    ensures |Batch(queue)| < |queue| ==> Batch(queue)[|Batch(queue)| - 1].terminal
  {
    if queue != [] && !queue[0].terminal {
      BatchTerminal(queue[1..]);
    }
  }

  /** Terminating keeps the invariant, even with the write flag stuck. */
  lemma TerminateInv(c: Conn, ec: Cause)
    requires c.remoteCode < 0x10000 && Flowing(c.pipe, true) && CloseIsLast(c.pipe.pushed, c.state)
    requires LifeCycle(c.state, c.internal == ProcessConnection, c.shutdowns, c.calls)
    ensures Inv(Terminate(c, ec))
  {
    hide Flowing;
  }

  lemma TerminateKeeps(c: Conn, ec: Cause)
    requires Inv(c)
    ensures Inv(Terminate(c, ec))
  {
    assert Flowing(c.pipe, true);
    TerminateInv(c, ec);
  }

  lemma PushConserves(pushed: seq<OutMsg>, written: seq<OutMsg>, queue: seq<OutMsg>, size: int, m: OutMsg)
    requires Conserved(pushed, written, queue, size)
    ensures Conserved(pushed + [m], written, queue + [m], size + |m.payload|)
  {
    assert TotalSize([m]) == |m.payload|;
    hide TotalSize;
    TotalSizeConcat(queue, [m]);
    assert written + queue + [m] == written + (queue + [m]);
  }

  lemma PushFlows(p: Pipe, m: OutMsg, closed: bool)
    requires Flowing(p, closed)
    ensures Flowing(Push(p, m), closed)
  {
    hide Conserved, OneWrite, TerminalLast;
    PushConserves(p.pushed, p.written, p.queue, p.bufferSize, m);
  }

  lemma PushOrder(pushed: seq<OutMsg>, m: OutMsg, state: SessionState)
    requires CloseIsLast(pushed, state)
    requires if m.kind == CloseFrame then state == Closing else state == Open
    ensures CloseIsLast(pushed + [m], state)
  {
  }

  /** Frames other than close frames are queued only while open. */
  lemma EnqueueInv(c: Conn, m: OutMsg)
    requires Inv(c)
    requires if m.kind == CloseFrame then c.state == Closing else c.state == Open
    ensures Inv(Enqueue(c, m))
  {
    PushFlows(c.pipe, m, c.state == Closed);
    PushOrder(c.pipe.pushed, m, c.state);
    hide Flowing, LifeCycle, CloseIsLast;
  }

  lemma BatchConserves(pushed: seq<OutMsg>, written: seq<OutMsg>, queue: seq<OutMsg>, size: int, b: seq<OutMsg>)
    requires Conserved(pushed, written, queue, size) && b <= queue
    ensures Conserved(pushed, written + b, queue[|b|..], size - TotalSize(b))
  {
    var rest := queue[|b|..];
    assert queue == b + rest;
    TotalSizeConcat(b, rest);
    hide TotalSize;
    assert pushed == (written + b) + rest;
  }

  lemma BatchTerminalLast(written: seq<OutMsg>, queue: seq<OutMsg>)
    requires TerminalLast(written, false)
    ensures TerminalLast(written + Batch(queue), true)
  {
    BatchTerminal(queue);
    hide Batch;
  }

  lemma BatchIsCurrent(written: seq<OutMsg>, b: seq<OutMsg>, closed: bool)
    requires b != []
    ensures OneWrite(1, b, written + b, true, closed)
  {
  }

  lemma IdleFacts(p: Pipe, closed: bool)
    requires Flowing(p, closed) && !p.writeFlag
    ensures p.writes == 0 && p.current == [] && TerminalLast(p.written, false)
  {
  }

  lemma WriteFrameFlows(p: Pipe, closed: bool)
    requires Flowing(p, closed) && p.dispatched > 0
    ensures Flowing(WriteFrame(p), closed) && WriteFrame(p).pushed == p.pushed
  {
    hide Conserved, OneWrite, TerminalLast, TotalSize, Batch;
    if !p.writeFlag {
      var b := Batch(p.queue);
      IdleFacts(p, closed);
      BatchTerminal(p.queue);
      BatchConserves(p.pushed, p.written, p.queue, p.bufferSize, b);
      BatchTerminalLast(p.written, p.queue);
      assert p.current + b == b;
      if b == [] {
        assert p.written + b == p.written;
      } else {
        BatchIsCurrent(p.written, b, closed);
      }
    }
  }

  /** The frames being written have been written. */
  lemma WriteOver(writes: nat, current: seq<OutMsg>, written: seq<OutMsg>, flag: bool, closed: bool)
    requires OneWrite(writes, current, written, flag, closed) && writes > 0
    ensures writes - 1 == 0 && OneWrite(0, [], written, flag, true)
    ensures current != [] && written != [] && written[|written| - 1] == current[|current| - 1]
  {
  }

  lemma Released(written: seq<OutMsg>, flag: bool, closed: bool)
    requires TerminalLast(written, flag) && written != [] && !written[|written| - 1].terminal
    ensures TerminalLast(written, false) && OneWrite(0, [], written, false, closed)
  {
  }

  lemma ReleaseFlows(p: Pipe, closed: bool)
    requires Flowing(p, true) && p.writes == 0 && p.current == []
    requires p.written != [] && !p.written[|p.written| - 1].terminal
    ensures Flowing(Release(p), closed)
  {
    hide Conserved, OneWrite, TerminalLast;
    Released(p.written, p.writeFlag, closed);
  }

  lemma WriteDoneFlows(p: Pipe, closed: bool)
    requires Flowing(p, closed) && p.writes > 0
    ensures p.writes - 1 == 0 && p.current != []
    ensures var q := p.(current := [], writes := 0);
      Flowing(q, true) && (!p.current[|p.current| - 1].terminal ==> Flowing(Release(q), closed))
  {
    hide Conserved, OneWrite, TerminalLast, Release;
    WriteOver(p.writes, p.current, p.written, p.writeFlag, closed);
    var q := p.(current := [], writes := 0);
    if !p.current[|p.current| - 1].terminal {
      ReleaseFlows(q, closed);
    }
  }

  lemma HandleWriteFrameInv(c: Conn, failed: bool)
    requires Inv(c) && c.pipe.writes > 0
    ensures c.pipe.current != [] && Inv(HandleWriteFrame(c, failed))
  {
    hide Flowing, LifeCycle, CloseIsLast, Terminate;
    WriteDoneFlows(c.pipe, c.state == Closed);
    var d := c.(pipe := c.pipe.(current := [], writes := 0));
    TerminateInv(d, OtherError);
    TerminateInv(d, NoError);
    hide Inv, Release;
    if !failed && !c.pipe.current[|c.pipe.current| - 1].terminal {
      ReleasedInv(c, d);
    }
  }

  lemma ReleasedInv(c: Conn, d: Conn)
    requires Inv(c) && d == c.(pipe := d.pipe) && d.pipe.pushed == c.pipe.pushed
    requires Flowing(Release(d.pipe), c.state == Closed)
    ensures Inv(d.(pipe := Release(d.pipe)))
  {
    hide Flowing, LifeCycle, CloseIsLast;
  }

  lemma SendCloseFrameInv(c: Conn, code: nat, reason: seq<byte>, ack: bool, terminal: bool)
    requires Inv(c) && code < 0x10000
    requires c.state == Open || c.state == Closing
    ensures Inv(SendCloseFrame(c, code, reason, ack, terminal).0)
  {
    var (local, why) := LocalClose(c, code, reason, ack);
    var d := c.(state := Closing, wasClean := c.wasClean || ack);
    assert Inv(d);
    var p := Close.ClosePayload(local, why);
    if p.Ok? {
      EnqueueInv(d, OutMsg(CloseFrame, p.bytes, terminal));
    }
    hide Inv, Close.ClosePayload, Enqueue;
  }

  lemma AckInv(c: Conn, code: nat, reason: seq<byte>)
    requires Inv(c) && code < 0x10000
    requires c.state == Open || c.state == Closing
    ensures Inv(SendCloseAck(c, code, reason))
  {
    SendCloseFrameInv(c, code, reason, true, c.cfg.server);
    hide Inv, SendCloseFrame;
  }

  lemma RefuseCloseInv(c: Conn, text: seq<byte>)
    requires Inv(c) && (c.state == Open || c.state == Closing)
    ensures Inv(RefuseClose(c, text))
  {
    TerminateKeeps(c, OtherError);
    AckInv(c, Close.PROTOCOL_ERROR, text);
    hide Inv, Terminate, SendCloseAck;
  }

  lemma AcceptCloseInv(c: Conn)
    requires Inv(c) && (c.state == Open || c.state == Closing)
    ensures Inv(AcceptClose(c))
  {
    var d := c.(wasClean := true);
    assert Inv(d);
    TerminateKeeps(d, NoError);
    AckInv(c, Close.BLANK, []);
    hide Inv, Terminate, SendCloseAck;
  }

  lemma ProcessCloseInv(c: Conn, payload: seq<byte>)
    requires Inv(c) && (c.state == Open || c.state == Closing)
    ensures Inv(ProcessClose(c, payload))
  {
    Close.ExtractedCodeBound(payload);
    var (code, _) := Close.ExtractCode(payload);
    var (reason, _) := Close.ExtractReason(payload);
    var d := c.(remoteCode := code);
    var e := d.(remoteReason := reason);
    assert Inv(d) && Inv(e);
    RefuseCloseInv(d, INVALID_CODE_TEXT);
    RefuseCloseInv(e, INVALID_REASON_TEXT);
    AcceptCloseInv(e);
    hide Close.ExtractReason, Close.ExtractCode, RefuseClose, AcceptClose, Inv;
  }

  lemma CloseCallInv(c: Conn, code: nat, reason: seq<byte>)
    requires Inv(c) && code < 0x10000
    ensures Inv(CloseCall(c, code, reason).0)
  {
    if c.state == Open {
      var tr := if |reason| > CLOSE_REASON_SIZE then reason[..CLOSE_REASON_SIZE] else reason;
      SendCloseFrameInv(c, code, tr, false, Close.Terminal(code));
    }
  }

  /** Steps that leave the write queue alone. */
  lemma SameQueue(c: Conn, d: Conn)
    requires Inv(c)
    requires d.pipe == c.pipe && d.remoteCode == c.remoteCode
    requires d.state == c.state || (c.state == Connecting && d.state == Open)
    requires LifeCycle(d.state, d.internal == ProcessConnection, d.shutdowns, d.calls)
    ensures Inv(d)
  {
  }

  lemma StartingInv(c: Conn, failed: bool)
    requires Inv(c)
    ensures Inv(Start(c)) && Inv(HandleTransportInit(c, failed))
  {
    TerminateKeeps(c, OtherError);
    assert c.internal != ProcessConnection ==> LifeCycle(c.state, false, c.shutdowns, c.calls);
    hide LifeCycle, CloseIsLast, Flowing, Terminate;
    if c.internal == UserInit {
      SameQueue(c, Start(c));
    } else if c.internal == TransportInit && !failed {
      SameQueue(c, HandleTransportInit(c, failed));
    }
  }

  lemma HandshakeReadInv(c: Conn, error: Option<ReadError>, read: HandshakeRead)
    requires Inv(c)
    ensures Inv(HandleReadHandshake(c, error, read))
  {
    TerminateKeeps(c, OtherError);
    if CheckHandshake(c, error, ReadHttpRequest) == Proceed {
      assert LifeCycle(c.state, false, c.shutdowns, c.calls);
      hide LifeCycle, CloseIsLast, Flowing;
      SameQueue(c, HandleReadHandshake(c, error, read));
    } else {
      hide LifeCycle, CloseIsLast, Flowing, Terminate;
    }
  }

  lemma HandshakeWrittenInv(c: Conn, error: Option<ReadError>, switching: bool, cause: Cause)
    requires Inv(c)
    ensures Inv(HandleWriteHttpResponse(c, error, switching, cause))
  {
    if CheckHandshake(c, error, ProcessHttpRequest) == Proceed && switching {
      assert LifeCycle(Open, true, c.shutdowns, c.calls + [OpenHandler]);
      hide LifeCycle, CloseIsLast, Flowing;
      SameQueue(c, HandleWriteHttpResponse(c, error, switching, cause));
    } else {
      hide LifeCycle, CloseIsLast, Flowing, Terminate;
      TerminateKeeps(c, OtherError);
      TerminateKeeps(c, if c.isHttp then HttpConnectionEnded else cause);
    }
  }

  lemma HandleTerminateInv(c: Conn)
    requires Inv(c) && c.shutdowns != []
    ensures Inv(HandleTerminate(c))
  {
  }

  lemma SendingInv(c: Conn, e: Event)
    requires Inv(c)
    requires e.SendCalled? || e.PingCalled? || e.PongCalled?
    ensures Inv(Step(c, e))
  {
    hide Inv;
    if c.state == Open {
      match e
      case SendCalled(_, payload, terminal, _) =>
        EnqueueInv(c, OutMsg(PreparedFrame, payload, terminal));
        EnqueueInv(c, OutMsg(DataFrame, payload, false));
      case PingCalled(payload) => EnqueueInv(c, OutMsg(PingFrame, payload, false));
      case PongCalled(payload) => EnqueueInv(c, OutMsg(PongFrame, payload, false));
    }
  }

  lemma FramesAfterOpening(c: Conn)
    requires Inv(c) && c.internal == ProcessConnection
    ensures c.state != Connecting
  {
  }

  /** Every step keeps the invariant. */
  lemma StepInv(c: Conn, e: Event)
    requires Inv(c) && Enabled(c, e)
    ensures Inv(Step(c, e))
  {
    hide LifeCycle, CloseIsLast, Flowing;
    match e
    case SendCalled(_, _, _, _) => SendingInv(c, e);
    case PingCalled(_) => SendingInv(c, e);
    case PongCalled(_) => SendingInv(c, e);
    case CloseCalled(code, reason) => CloseCallInv(c, code, reason);
    case WriteDispatched => WriteFrameFlows(c.pipe, c.state == Closed);
    case WriteDone(failed) => HandleWriteFrameInv(c, failed);
    case ControlFrame(op, payload, reply) =>
      assert c.state != Connecting by { FramesAfterOpening(c); }
      if c.state != Closed && op == CLOSE {
        ProcessCloseInv(c, payload);
      } else if c.state == Open && op == PING && reply {
        SendingInv(c, PongCalled(payload));
      }
    case ReadFailed(error) => TerminateKeeps(c, NoError); TerminateKeeps(c, OtherError);
    case ProtocolError(code, reason) =>
      CloseCallInv(c, code, reason);
      TerminateKeeps(c, OtherError);
      TerminateKeeps(CloseCall(c, code, reason).0, OtherError);
    case TimerExpired => TerminateKeeps(c, OtherError);
    case ShutdownDone => HandleTerminateInv(c);
    case StartCall => StartingInv(c, false);
    case TransportReady(failed) => StartingInv(c, failed);
    case HandshakeRead(error, read) => HandshakeReadInv(c, error, read);
    case HandshakeWritten(error, switching, cause) => HandshakeWrittenInv(c, error, switching, cause);
  }

  //
  // Over whole runs
  //

  /** Whether events can happen in this order. */
  predicate Possible(c: Conn, es: seq<Event>)
    requires Inv(c)
    decreases es
  {
    es == [] || (Enabled(c, es[0]) && (StepInv(c, es[0]); Possible(Step(c, es[0]), es[1..])))
  }

  /** The state after them. */
  function Run(c: Conn, es: seq<Event>): Conn
    requires Inv(c) && Possible(c, es)
    decreases es
  {
    if es == [] then c else (StepInv(c, es[0]); Run(Step(c, es[0]), es[1..]))
  }

  /** Whether a new connection can see these events, and what becomes of it. */
  predicate CanSee(cfg: Config, es: seq<Event>) {
    InitialInv(cfg);
    Possible(Initial(cfg), es)
  }

  function After(cfg: Config, es: seq<Event>): Conn
    requires CanSee(cfg, es)
  {
    InitialInv(cfg);
    Run(Initial(cfg), es)
  }

  /** The invariant holds in every reachable state. */
  lemma {:induction false} RunInv(c: Conn, es: seq<Event>)
    requires Inv(c) && Possible(c, es)
    ensures Inv(Run(c, es))
    decreases es
  {
    hide Inv, Step, Enabled;
    if es != [] {
      StepInv(c, es[0]);
      RunInv(Step(c, es[0]), es[1..]);
    }
  }

  lemma AfterInv(cfg: Config, es: seq<Event>)
    requires CanSee(cfg, es)
    ensures Inv(After(cfg, es))
  {
    InitialInv(cfg);
    hide Inv, Run, Possible;
    RunInv(Initial(cfg), es);
  }

  /**
   Frames handed to the transport, then frames waiting, are exactly the frames queued, in order; the buffer size is that
   of the frames waiting.
   */
  lemma WritesConserved(cfg: Config, es: seq<Event>)
    requires CanSee(cfg, es)
    ensures var p := After(cfg, es).pipe;
      && p.pushed == p.written + p.queue && p.bufferSize == TotalSize(p.queue)
      && p.writes <= 1 && (p.writes == 1 ==> p.writeFlag)
      && (forall i :: 0 <= i < |p.written| - 1 ==> !p.written[i].terminal)
  {
    hide TotalSize, LifeCycle, CloseIsLast, After, CanSee;
    AfterInv(cfg, es);
  }

  lemma IdleIsEmpty(c: Conn)
    requires Inv(c) && c.pipe.dispatched == 0 && c.pipe.writes == 0 && c.state != Closed
    ensures c.pipe.written == c.pipe.pushed && c.pipe.bufferSize == 0
  {
    hide LifeCycle, CloseIsLast, TerminalLast;
    assert c.pipe.queue == [];
    assert c.pipe.written + c.pipe.queue == c.pipe.written;
  }

  /**
   The queue never stalls: with nothing dispatched and nothing being written, everything queued has been written, unless
   the connection is closed.
   */
  lemma NeverStalls(cfg: Config, es: seq<Event>)
    requires CanSee(cfg, es)
    ensures var c := After(cfg, es);
      c.pipe.dispatched == 0 && c.pipe.writes == 0 && c.state != Closed ==>
        c.pipe.written == c.pipe.pushed && c.pipe.bufferSize == 0
  {
    hide After, CanSee, Inv;
    AfterInv(cfg, es);
    var c := After(cfg, es);
    if c.pipe.dispatched == 0 && c.pipe.writes == 0 && c.state != Closed {
      IdleIsEmpty(c);
    }
  }

  function Rank(s: SessionState): nat {
    match s
    case Connecting => 0
    case Open => 1
    case Closing => 2
    case Closed => 3
  }

  /** What a step can only add to. */
  predicate Advances(c: Conn, d: Conn) {
    && Rank(c.state) <= Rank(d.state) && c.pipe.pushed <= d.pipe.pushed && c.pipe.written <= d.pipe.written
    && c.calls <= d.calls && c.cfg == d.cfg
  }

  lemma RefuseCloseAdvances(c: Conn, text: seq<byte>)
    requires c.remoteCode < 0x10000 && (c.state == Open || c.state == Closing)
    ensures Advances(c, RefuseClose(c, text))
  {
  }

  lemma AcceptCloseAdvances(c: Conn)
    requires c.remoteCode < 0x10000 && (c.state == Open || c.state == Closing)
    ensures Advances(c, AcceptClose(c))
  {
  }

  lemma ProcessCloseAdvances(c: Conn, payload: seq<byte>)
    requires c.remoteCode < 0x10000 && (c.state == Open || c.state == Closing)
    ensures Advances(c, ProcessClose(c, payload))
  {
    Close.ExtractedCodeBound(payload);
    var (code, _) := Close.ExtractCode(payload);
    var (reason, _) := Close.ExtractReason(payload);
    var d := c.(remoteCode := code);
    var e := d.(remoteReason := reason);
    RefuseCloseAdvances(d, INVALID_CODE_TEXT);
    RefuseCloseAdvances(e, INVALID_REASON_TEXT);
    AcceptCloseAdvances(e);
    hide Close.ExtractReason, Close.ExtractCode, RefuseClose, AcceptClose;
  }

  lemma CloseCallAdvances(c: Conn, code: nat, reason: seq<byte>)
    requires code < 0x10000 && c.remoteCode < 0x10000
    ensures Advances(c, CloseCall(c, code, reason).0)
  {
  }

  lemma QueueAdvances(c: Conn, m: OutMsg)
    ensures Advances(c, c) && Advances(c, Enqueue(c, m))
    ensures c.pipe.dispatched > 0 ==> Advances(c, c.(pipe := WriteFrame(c.pipe)))
  {
  }

  lemma TerminateAdvances(c: Conn, ec: Cause)
    ensures Advances(c, Terminate(c, ec))
  {
  }

  lemma WriteDoneAdvances(c: Conn, failed: bool)
    requires c.pipe.writes > 0 && c.pipe.current != []
    ensures Advances(c, HandleWriteFrame(c, failed))
  {
  }

  lemma EndingAdvances(c: Conn, e: Event)
    requires Inv(c) && Enabled(c, e)
    requires e.WriteDone? || e.ReadFailed? || e.TimerExpired? || e.ShutdownDone?
    ensures Advances(c, Step(c, e))
  {
    TerminateAdvances(c, NoError);
    TerminateAdvances(c, OtherError);
    if e.WriteDone? {
      WriteFrameTerms(c);
      hide Inv;
      WriteDoneAdvances(c, e.failed);
      hide HandleWriteFrame, Advances;
    } else {
      hide Inv, Terminate, HandleWriteFrame;
    }
  }

  lemma OpeningAdvances(c: Conn, e: Event)
    requires Inv(c) && Enabled(c, e)
    requires e.StartCall? || e.TransportReady? || e.HandshakeRead? || e.HandshakeWritten?
    ensures Advances(c, Step(c, e))
  {
    hide Inv;
  }

  lemma SendingAdvances(c: Conn, e: Event)
    requires Inv(c) && Enabled(c, e)
    requires e.SendCalled? || e.PingCalled? || e.PongCalled? || e.WriteDispatched?
    ensures Advances(c, Step(c, e))
  {
    hide Inv, Advances, Enqueue, WriteFrame;
    match e
    case SendCalled(prepared, payload, terminal, _) =>
      QueueAdvances(c, OutMsg(PreparedFrame, payload, terminal));
      QueueAdvances(c, OutMsg(DataFrame, payload, false));
    case PingCalled(payload) => QueueAdvances(c, OutMsg(PingFrame, payload, false));
    case PongCalled(payload) => QueueAdvances(c, OutMsg(PongFrame, payload, false));
    case WriteDispatched => QueueAdvances(c, OutMsg(PingFrame, [], false));
  }

  lemma ControlAdvances(c: Conn, op: nat, payload: seq<byte>, reply: bool)
    requires c.remoteCode < 0x10000 && c.state != Connecting
    ensures Advances(c, ProcessControlFrame(c, op, payload, reply))
  {
    QueueAdvances(c, OutMsg(PongFrame, payload, false));
    if c.state != Closed {
      ProcessCloseAdvances(c, payload);
    }
    hide ProcessClose, Advances;
  }

  lemma ProtocolErrorAdvances(c: Conn, code: nat, reason: seq<byte>)
    requires c.remoteCode < 0x10000 && code < 0x10000
    ensures Advances(c, HandleProtocolError(c, code, reason))
  {
    CloseCallAdvances(c, code, reason);
    TerminateAdvances(c, OtherError);
    TerminateAdvances(CloseCall(c, code, reason).0, OtherError);
    hide CloseCall, Terminate;
  }

  lemma FrameAdvances(c: Conn, e: Event)
    requires Inv(c) && Enabled(c, e)
    requires e.CloseCalled? || e.ControlFrame? || e.ProtocolError?
    ensures Advances(c, Step(c, e))
  {
    assert c.remoteCode < 0x10000;
    if e.ControlFrame? {
      FramesAfterOpening(c);
    }
    hide Inv, Advances, ProcessControlFrame, HandleProtocolError, CloseCall, Terminate;
    match e
    case CloseCalled(code, reason) => CloseCallAdvances(c, code, reason);
    case ControlFrame(op, payload, reply) => ControlAdvances(c, op, payload, reply);
    case ProtocolError(code, reason) => ProtocolErrorAdvances(c, code, reason);
  }

  lemma StepAdvances(c: Conn, e: Event)
    requires Inv(c) && Enabled(c, e)
    ensures Advances(c, Step(c, e))
  {
    hide Inv, Advances, Step, Enabled;
    if e.CloseCalled? || e.ControlFrame? || e.ProtocolError? {
      FrameAdvances(c, e);
    } else if e.SendCalled? || e.PingCalled? || e.PongCalled? || e.WriteDispatched? {
      SendingAdvances(c, e);
    } else if e.StartCall? || e.TransportReady? || e.HandshakeRead? || e.HandshakeWritten? {
      OpeningAdvances(c, e);
    } else {
      EndingAdvances(c, e);
    }
  }

  lemma WriteFrameTerms(c: Conn)
    requires Inv(c) && c.pipe.writes > 0
    ensures c.pipe.current != []
  {
  }

  /** The state only moves forward; frames queued, frames written and handlers called are never taken back. */
  lemma {:induction false} RunAdvances(c: Conn, es: seq<Event>)
    requires Inv(c) && Possible(c, es)
    ensures Advances(c, Run(c, es))
    decreases es
  {
    hide Inv, Step;
    if es != [] {
      StepInv(c, es[0]);
      StepAdvances(c, es[0]);
      RunAdvances(Step(c, es[0]), es[1..]);
    }
  }

  /** Nothing is written after a terminal frame. */
  lemma NothingAfterTerminal(c: Conn, es: seq<Event>)
    requires Inv(c) && Possible(c, es)
    requires c.pipe.written != [] && c.pipe.written[|c.pipe.written| - 1].terminal
    ensures Run(c, es).pipe.written == c.pipe.written
  {
    RunAdvances(c, es);
    RunInv(c, es);
    var d := Run(c, es);
    assert d.pipe.written[|c.pipe.written| - 1].terminal;
    hide LifeCycle, CloseIsLast;
  }

  /** Once a close frame is queued only close frames are queued. */
  lemma NothingAfterClose(c: Conn, es: seq<Event>, i: nat, j: nat)
    requires Inv(c) && Possible(c, es)
    requires i < |c.pipe.pushed| && c.pipe.pushed[i].kind == CloseFrame
    requires |c.pipe.pushed| <= j < |Run(c, es).pipe.pushed|
    ensures Run(c, es).pipe.pushed[j].kind == CloseFrame
  {
    RunAdvances(c, es);
    RunInv(c, es);
    var d := Run(c, es);
    assert d.pipe.pushed[i].kind == CloseFrame;
    hide LifeCycle, Flowing;
  }

  lemma ClosingClosePushes(c: Conn, payload: seq<byte>)
    requires c.remoteCode < 0x10000 && c.state == Closing
    ensures ProcessClose(c, payload).pipe.pushed == c.pipe.pushed <==>
      c.cfg.dropOnProtocolError || (Close.ExtractCode(payload).1.None? && Close.ExtractReason(payload).1.None?)
  {
  }

  lemma TerminateQuiet(c: Conn, ec: Cause)
    ensures Terminate(c, ec).pipe == c.pipe
  {
  }

  lemma WriteDoneQuiet(c: Conn, failed: bool)
    requires Inv(c) && c.pipe.writes > 0
    ensures HandleWriteFrame(c, failed).pipe.pushed == c.pipe.pushed
  {
  }

  lemma QuietCalls(c: Conn, e: Event)
    requires Inv(c) && Enabled(c, e) && (c.state == Closing || c.state == Closed)
    requires e.SendCalled? || e.PingCalled? || e.PongCalled? || e.CloseCalled? || e.WriteDispatched?
    ensures Step(c, e).pipe.pushed == c.pipe.pushed
  {
  }

  lemma QuietOpening(c: Conn, e: Event)
    requires Inv(c) && Enabled(c, e) && (c.state == Closing || c.state == Closed)
    requires e.StartCall? || e.TransportReady? || e.HandshakeRead? || e.HandshakeWritten?
    ensures Step(c, e).pipe.pushed == c.pipe.pushed
  {
    hide Inv;
  }

  lemma QuietEnding(c: Conn, e: Event)
    requires Inv(c) && Enabled(c, e) && (c.state == Closing || c.state == Closed)
    requires e.ReadFailed? || e.TimerExpired? || e.ShutdownDone?
    ensures Step(c, e).pipe.pushed == c.pipe.pushed
  {
    hide Inv;
  }

  /** Only frames received can have anything queued while closing, and nothing can once closed. */
  lemma QuietStep(c: Conn, e: Event)
    requires Inv(c) && Enabled(c, e) && (c.state == Closing || c.state == Closed)
    requires !e.ControlFrame? && !e.ProtocolError?
    ensures Step(c, e).pipe.pushed == c.pipe.pushed
  {
    if e.WriteDone? {
      WriteDoneQuiet(c, e.failed);
      hide Inv, HandleWriteFrame;
    } else if e.SendCalled? || e.PingCalled? || e.PongCalled? || e.CloseCalled? || e.WriteDispatched? {
      QuietCalls(c, e);
      hide Inv, Step;
    } else if e.StartCall? || e.TransportReady? || e.HandshakeRead? || e.HandshakeWritten? {
      QuietOpening(c, e);
      hide Inv, Step;
    } else {
      QuietEnding(c, e);
      hide Inv, Step;
    }
  }

  /**
   While closing, the only step that queues another frame is a bad close frame, when protocol errors do not drop the
   connection.
   */
  lemma SecondClose(c: Conn, e: Event)
    requires Inv(c) && Enabled(c, e) && c.state == Closing
    ensures Step(c, e).pipe.pushed != c.pipe.pushed <==>
      e.ControlFrame? && e.op == CLOSE && !c.cfg.dropOnProtocolError &&
      (Close.ExtractCode(e.payload).1.Some? || Close.ExtractReason(e.payload).1.Some?)
  {
    assert c.remoteCode < 0x10000;
    if e.ControlFrame? {
      hide Inv, ProcessClose, Close.ExtractCode, Close.ExtractReason;
      ClosingClosePushes(c, e.payload);
    } else if e.ProtocolError? {
      TerminateQuiet(c, OtherError);
      hide Inv, SendCloseFrame;
    } else {
      QuietStep(c, e);
      hide Inv, Step;
    }
  }

  /** A closed connection queues nothing. */
  lemma ClosedIsSilent(c: Conn, e: Event)
    requires Inv(c) && Enabled(c, e) && c.state == Closed
    ensures Step(c, e).pipe.pushed == c.pipe.pushed
  {
    if e.ControlFrame? || e.ProtocolError? {
      TerminateQuiet(c, OtherError);
      hide Inv, SendCloseFrame;
    } else {
      QuietStep(c, e);
      hide Inv, Step;
    }
  }

  /**
   The open handler is called at most once; when the connection has ended, the close handler has been called exactly
   once if it was opened and the fail handler at most once if it was not.
   */
  lemma HandlersCalled(cfg: Config, es: seq<Event>)
    requires CanSee(cfg, es)
    ensures var c := After(cfg, es);
      if c.state == Closed && c.shutdowns == [] then
        c.calls == [OpenHandler, CloseHandler, TerminationHandler] ||
        c.calls == [FailHandler, TerminationHandler] || c.calls == [TerminationHandler]
      else c.calls == [] || c.calls == [OpenHandler]
    ensures var c := After(cfg, es); c.state == Open || c.state == Closing ==> c.calls == [OpenHandler]
  {
    hide Flowing, CloseIsLast, After, CanSee;
    AfterInv(cfg, es);
  }

  //
  // An attempt to upgrade
  //

  /** Only a plain HTTP request ends without the fail handler. */
  predicate OnlyHttp(c: Conn) {
    && (c.state == Connecting ==> c.ec != HttpConnectionEnded)
    && (c.ec == HttpConnectionEnded ==> c.isHttp)
    && (c.calls == [TerminationHandler] ==> c.isHttp)
  }

  /** What most steps leave alone. */
  predicate Tame(c: Conn, d: Conn) {
    && d.isHttp == c.isHttp && d.calls == c.calls
    && (d.ec == c.ec || d.ec == OtherError)
    && (d.state == Connecting ==> c.state == Connecting)
  }

  lemma TerminateTame(c: Conn, ec: Cause)
    requires ec == NoError || ec == OtherError
    ensures Tame(c, Terminate(c, ec))
  {
  }

  lemma CloseFrameTame(c: Conn, code: nat, reason: seq<byte>, ack: bool, terminal: bool)
    requires code < 0x10000 && c.remoteCode < 0x10000
    ensures Tame(c, SendCloseFrame(c, code, reason, ack, terminal).0)
  {
  }

  lemma ProcessCloseTame(c: Conn, payload: seq<byte>)
    requires c.remoteCode < 0x10000
    ensures Tame(c, ProcessClose(c, payload))
  {
    Close.ExtractedCodeBound(payload);
    hide Close.ExtractCode, Close.ExtractReason, Terminate, SendCloseFrame;
    var (code, _) := Close.ExtractCode(payload);
    var (reason, _) := Close.ExtractReason(payload);
    var d := c.(remoteCode := code);
    var e := d.(remoteReason := reason);
    TerminateTame(d, OtherError);
    TerminateTame(e, OtherError);
    TerminateTame(e.(wasClean := true), NoError);
    CloseFrameTame(d, Close.PROTOCOL_ERROR, INVALID_CODE_TEXT, true, c.cfg.server);
    CloseFrameTame(e, Close.PROTOCOL_ERROR, INVALID_REASON_TEXT, true, c.cfg.server);
    CloseFrameTame(e, Close.BLANK, [], true, c.cfg.server);
  }

  lemma FrameTame(c: Conn, e: Event)
    requires c.remoteCode < 0x10000 && Inv(c) && Enabled(c, e)
    requires e.ControlFrame? || e.ProtocolError? || e.CloseCalled?
    ensures Tame(c, Step(c, e))
  {
    hide Inv, Terminate, SendCloseFrame, Push, ProcessClose;
    if e.ControlFrame? {
      ProcessCloseTame(c, e.payload);
    } else {
      var tr := if |e.reason| > CLOSE_REASON_SIZE then e.reason[..CLOSE_REASON_SIZE] else e.reason;
      CloseFrameTame(c, e.code, tr, false, Close.Terminal(e.code));
      TerminateTame(c, OtherError);
      TerminateTame(CloseCall(c, e.code, e.reason).0, OtherError);
    }
  }

  lemma WriteDoneTame(c: Conn, failed: bool)
    requires c.pipe.writes > 0 && c.pipe.current != []
    ensures Tame(c, HandleWriteFrame(c, failed))
  {
  }

  lemma OtherTame(c: Conn, e: Event)
    requires Inv(c) && Enabled(c, e)
    requires e.StartCall? || e.TransportReady? || e.SendCalled? || e.PingCalled? || e.PongCalled? ||
      e.WriteDispatched? ||
      e.WriteDone? || e.ReadFailed? || e.TimerExpired?
    ensures Tame(c, Step(c, e))
  {
    TerminateTame(c, OtherError);
    TerminateTame(c, NoError);
    if e.WriteDone? {
      WriteFrameTerms(c);
      WriteDoneTame(c, e.failed);
      hide Inv, HandleWriteFrame;
    } else {
      hide Inv, Terminate, Push, WriteFrame;
    }
  }

  lemma TameOnlyHttp(c: Conn, d: Conn)
    requires OnlyHttp(c) && Tame(c, d)
    ensures OnlyHttp(d)
  {
  }

  lemma ReadOnlyHttp(c: Conn, error: Option<ReadError>, read: HandshakeRead)
    requires OnlyHttp(c) && (c.state == Connecting ==> c.calls == [])
    ensures OnlyHttp(HandleReadHandshake(c, error, read))
  {
  }

  lemma WrittenOnlyHttp(c: Conn, error: Option<ReadError>, switching: bool, cause: Cause)
    requires OnlyHttp(c) && (c.state == Connecting ==> c.calls == []) && cause != HttpConnectionEnded
    ensures OnlyHttp(HandleWriteHttpResponse(c, error, switching, cause))
  {
    if CheckHandshake(c, error, ProcessHttpRequest) == Proceed {
      assert (c.calls + [OpenHandler])[|c.calls|] == OpenHandler;
    } else {
      TerminateTame(c, OtherError);
      TameOnlyHttp(c, Terminate(c, OtherError));
      hide Terminate;
    }
  }

  lemma ShutdownOnlyHttp(c: Conn)
    requires OnlyHttp(c) && c.shutdowns != [] && (c.calls == [] || c.calls == [OpenHandler])
    requires c.state == Closed && (c.calls == [] <==> c.shutdowns[0] == FailedStatus)
    ensures OnlyHttp(HandleTerminate(c))
  {
  }

  lemma HandshakeOnlyHttp(c: Conn, e: Event)
    requires Inv(c) && Enabled(c, e) && OnlyHttp(c)
    requires e.HandshakeRead? || e.HandshakeWritten? || e.ShutdownDone?
    ensures OnlyHttp(Step(c, e))
  {
    LifeFacts(c);
    hide Inv, OnlyHttp, HandleReadHandshake, HandleWriteHttpResponse, HandleTerminate;
    match e
    case HandshakeRead(error, read) => ReadOnlyHttp(c, error, read);
    case HandshakeWritten(error, switching, cause) => WrittenOnlyHttp(c, error, switching, cause);
    case ShutdownDone => ShutdownOnlyHttp(c);
  }

  lemma LifeFacts(c: Conn)
    requires Inv(c)
    ensures c.state == Connecting ==> c.calls == []
    ensures c.shutdowns != [] ==> c.state == Closed && (c.calls == [] || c.calls == [OpenHandler])
    ensures c.shutdowns != [] ==> (c.calls == [] <==> c.shutdowns[0] == FailedStatus)
  {
  }

  lemma {:induction false} RunOnlyHttp(c: Conn, es: seq<Event>)
    requires Inv(c) && Possible(c, es) && OnlyHttp(c)
    ensures OnlyHttp(Run(c, es))
    decreases es
  {
    if es != [] {
      var e := es[0];
      StepInv(c, e);
      assert c.remoteCode < 0x10000;
      hide Inv, Step;
      if e.HandshakeRead? || e.HandshakeWritten? || e.ShutdownDone? {
        HandshakeOnlyHttp(c, e);
      } else if e.ControlFrame? || e.ProtocolError? || e.CloseCalled? {
        FrameTame(c, e);
        TameOnlyHttp(c, Step(c, e));
      } else {
        OtherTame(c, e);
        TameOnlyHttp(c, Step(c, e));
      }
      RunOnlyHttp(Step(c, e), es[1..]);
    }
  }

  /**
   Every attempt to upgrade that has ended was answered by exactly one of the open and fail handlers, and the close
   handler was called exactly once if it was the open handler.
   */
  lemma UpgradeAnswered(cfg: Config, es: seq<Event>)
    requires CanSee(cfg, es)
    ensures var c := After(cfg, es);
      c.state == Closed && c.shutdowns == [] && !c.isHttp ==>
        c.calls == [OpenHandler, CloseHandler, TerminationHandler] || c.calls == [FailHandler, TerminationHandler]
  {
    hide Inv, Run, Possible;
    InitialInv(cfg);
    HandlersCalled(cfg, es);
    RunOnlyHttp(Initial(cfg), es);
  }

  //
  // A plain HTTP request
  //

  /** Events that record an error although the connection, answered as plain HTTP, is already closed. */
  predicate Blames(e: Event) {
    match e
    case StartCall => true
    case TransportReady(_) => true
    case TimerExpired => true
    case HandshakeRead(error, _) => error.Some? && error.value != Eof
    case HandshakeWritten(error, _, _) => error.Some? && error.value != Eof
    case ReadFailed(error) => error == Other
    case WriteDone(failed) => failed
    case _ => false
  }

  /** What an error leaves of a connection that is already closed. */
  lemma ClosedTerminate(c: Conn, ec: Cause)
    requires c.state == Closed
    ensures Terminate(c, ec) == if ec == NoError then c else c.(ec := ec)
  {
  }

  lemma ClosedWriteDone(c: Conn, failed: bool)
    requires Inv(c) && c.pipe.writes > 0 && c.state == Closed
    ensures HandleWriteFrame(c, failed) ==
      c.(pipe := HandleWriteFrame(c, failed).pipe, ec := if failed then OtherError else c.ec)
  {
  }

  predicate SameButBlamed(c: Conn, d: Conn, blamed: bool) {
    && d.shutdowns == c.shutdowns && d.internal == c.internal && d.calls == c.calls
    && d.ec == if blamed then OtherError else c.ec
  }

  lemma ClosedHttpCalls(c: Conn, e: Event)
    requires Inv(c) && Enabled(c, e) && c.state == Closed
    requires e.SendCalled? || e.PingCalled? || e.PongCalled? || e.CloseCalled? || e.WriteDispatched?
    ensures SameButBlamed(c, Step(c, e), false)
  {
  }

  lemma ClosedHttpStep(c: Conn, e: Event)
    requires Inv(c) && Enabled(c, e) && e != ShutdownDone
    requires c.internal == ProcessHttpRequest && c.state == Closed
    ensures SameButBlamed(c, Step(c, e), Blames(e))
  {
    if e.WriteDone? {
      ClosedWriteDone(c, e.failed);
      hide Inv, HandleWriteFrame;
    } else if e.SendCalled? || e.PingCalled? || e.PongCalled? || e.CloseCalled? || e.WriteDispatched? {
      ClosedHttpCalls(c, e);
      hide Inv, Step, SameButBlamed;
    } else {
      ClosedTerminate(c, OtherError);
      ClosedTerminate(c, NoError);
      hide Inv, Terminate;
    }
  }

  lemma {:induction false} HttpRun(c: Conn, es: seq<Event>)
    requires Inv(c) && Possible(c, es) && ShutdownDone !in es
    requires c.internal == ProcessHttpRequest && c.shutdowns == [FailedStatus]
    ensures SameButBlamed(c, Run(c, es), exists e :: e in es && Blames(e))
    decreases es
  {
    assert c.state == Closed;
    hide Inv, Step, Blames;
    if es != [] {
      StepInv(c, es[0]);
      ClosedHttpStep(c, es[0]);
      HttpRun(Step(c, es[0]), es[1..]);
      AnyBlames(es);
    }
  }

  lemma ShutdownCalls(c: Conn)
    requires c.shutdowns == [FailedStatus] && c.calls == []
    ensures HandleTerminate(c).calls ==
      if c.ec == HttpConnectionEnded then [TerminationHandler] else [FailHandler, TerminationHandler]
  {
  }

  /**
   connection.hpp says the fail handler is not called for a connection that did not ask to be upgraded. That holds
   exactly when no event records an error between the closing of the connection and the end of the shutdown.
   */
  lemma HttpOutcome(c: Conn, es: seq<Event>)
    requires Inv(c) && Possible(c, es) && ShutdownDone !in es
    requires c.internal == ProcessHttpRequest && c.shutdowns == [FailedStatus]
    ensures Run(c, es).shutdowns == [FailedStatus]
    ensures HandleTerminate(Run(c, es)).calls ==
      if c.ec == HttpConnectionEnded && !exists e :: e in es && Blames(e) then [TerminationHandler]
      else [FailHandler, TerminationHandler]
  {
    assert c.calls == [] by { hide Flowing, CloseIsLast; }
    hide Inv, Run, Possible, Blames;
    HttpRun(c, es);
    ShutdownCalls(Run(c, es));
  }

  lemma AnyBlames(es: seq<Event>)
    requires es != []
    ensures (exists e :: e in es && Blames(e)) <==> Blames(es[0]) || exists e :: e in es[1..] && Blames(e)
  {
  }

  lemma {:induction false} RunSnoc(c: Conn, es: seq<Event>, e: Event)
    requires Inv(c) && Possible(c, es) && Enabled(Run(c, es), e)
    ensures Possible(c, es + [e]) && (RunInv(c, es); Run(c, es + [e]) == Step(Run(c, es), e))
    decreases es
  {
    hide Inv, Step, Enabled;
    if es == [] {
      assert [] + [e] == [e];
      StepInv(c, e);
    } else {
      StepInv(c, es[0]);
      assert (es + [e])[1..] == es[1..] + [e];
      RunSnoc(Step(c, es[0]), es[1..], e);
    }
  }

  lemma RunNothing(c: Conn)
    requires Inv(c)
    ensures Possible(c, []) && Run(c, []) == c
  {
  }

  /**
   The fail handler can be called although the request was plain HTTP and was answered as such: the handshake timer
   expires before the shutdown is done. The handler of the written response cancels that timer, but a timer that ran out
   before it was cancelled has its handler queued already and is not called back: the transport runs it afterwards, as
   an expiry and not as an aborted wait.
   */
  lemma HttpMayFail(cfg: Config) returns (es: seq<Event>)
    ensures CanSee(cfg, es)
    ensures var c := After(cfg, es); c.isHttp && c.calls == [FailHandler, TerminationHandler]
  {
    InitialInv(cfg);
    hide Inv, Run, Possible;
    var c := Initial(cfg);
    RunNothing(c);
    es := [];
    RunSnoc(c, es, StartCall);
    es := es + [StartCall];
    RunSnoc(c, es, TransportReady(false));
    es := es + [TransportReady(false)];
    RunSnoc(c, es, HandshakeRead(None, Complete(true)));
    es := es + [HandshakeRead(None, Complete(true))];
    RunSnoc(c, es, HandshakeWritten(None, false, NoError));
    es := es + [HandshakeWritten(None, false, NoError)];
    RunSnoc(c, es, TimerExpired);
    es := es + [TimerExpired];
    RunSnoc(c, es, ShutdownDone);
    es := es + [ShutdownDone];
  }
}
