/**
 When a connection changes its state, and the closing handshake between two of them (sections 7.1.1 to 7.1.4 of RFC
 6455).
 */
module ConnectionStates {
  import opened Bytes
  import opened Wrappers
  import opened Frame
  import Close
  import Utf8
  import opened ConnectionSpec
  import opened ConnectionRun
  import opened ConnectionFrames

  /** The response with status 101 has been written, and the handshake was waiting for that. */
  predicate Opens(c: Conn, e: Event) {
    && e.HandshakeWritten? && e.writeError.None? && e.switching
    && c.state == Connecting && c.internal == ProcessHttpRequest
  }

  /** A close frame goes out while open. */
  ghost predicate StartsClosing(c: Conn, e: Event)
    requires Enabled(c, e)
  {
    c.state == Open && Asked(c, e) != [] && Asked(c, e)[0].kind == CloseFrame
  }

  /** What ends a connection that has not ended yet. */
  ghost predicate Ends(c: Conn, e: Event)
    requires Enabled(c, e)
  {
    match e
    case StartCall => c.internal != UserInit
    case TransportReady(failed) => failed || c.internal != TransportInit
    case HandshakeRead(error, _) => error.Some? || c.state != Connecting || c.internal != ReadHttpRequest
    case HandshakeWritten(error, _, _) => error.Some? || !Opens(c, e)
    case WriteDone(failed) => failed || (c.pipe.current != [] && c.pipe.current[|c.pipe.current| - 1].terminal)
    case ControlFrame(op, p, _) =>
      op == 8 && if BadCode(p) || BadReason(p) then c.cfg.dropOnProtocolError
                 else c.state == Closing && !c.wasClean && c.cfg.server
    case ReadFailed(_) => true
    case ProtocolError(_, _) => Asked(c, e) == []
    case TimerExpired => true
    case _ => false
  }

  /** What a connection becomes. */
  ghost function NextState(c: Conn, e: Event): SessionState
    requires Enabled(c, e)
  {
    if c.state == Closed then Closed
    else if Opens(c, e) then Open
    else if Ends(c, e) then Closed
    else if StartsClosing(c, e) then Closing
    else c.state
  }

  lemma TerminateCloses(c: Conn, ec: Cause)
    ensures Terminate(c, ec).state == Closed
  {
  }

  lemma OpeningState(c: Conn, e: Event)
    requires Inv(c) && Enabled(c, e)
    requires e.StartCall? || e.TransportReady? || e.HandshakeRead? || e.HandshakeWritten?
    ensures Step(c, e).state == NextState(c, e)
  {
    hide Inv;
  }

  lemma CallState(c: Conn, e: Event)
    requires Inv(c) && Enabled(c, e)
    requires e.SendCalled? || e.PingCalled? || e.PongCalled? || e.WriteDispatched? || e.ShutdownDone?
    ensures Step(c, e).state == NextState(c, e)
  {
    hide Inv, WriteFrame, Push;
  }

  lemma CloseCallState(c: Conn, code: nat, reason: seq<byte>)
    requires code < 0x10000 && c.remoteCode < 0x10000
    ensures CloseCall(c, code, reason).0.state == if CloseAsked(c, code, reason) != [] then Closing else c.state
  {
    CloseCallQueues(c, code, reason);
    var tr := if |reason| > 123 then reason[..123] else reason;
    if c.state == Open {
      CloseFrameQueues(c, code, tr, false, Close.Terminal(code));
    }
    hide SendCloseFrame, CloseAsked, Queues;
  }

  lemma CloseAskedKind(c: Conn, code: nat, reason: seq<byte>)
    requires code < 0x10000
    ensures c.state != Open ==> CloseAsked(c, code, reason) == []
    ensures CloseAsked(c, code, reason) != [] ==> CloseAsked(c, code, reason)[0].kind == CloseFrame
  {
  }

  lemma ProtocolErrorState(c: Conn, code: nat, reason: seq<byte>)
    requires code < 0x10000 && c.remoteCode < 0x10000
    ensures HandleProtocolError(c, code, reason).state ==
      if !c.cfg.dropOnProtocolError && CloseAsked(c, code, reason) != [] then Closing else Closed
  {
    hide CloseCall, CloseAsked, Terminate, Queues;
    CloseCallState(c, code, reason);
    CloseCallQueues(c, code, reason);
    TerminateCloses(c, OtherError);
    TerminateCloses(CloseCall(c, code, reason).0, OtherError);
  }

  lemma ClosingCalls(c: Conn, e: Event)
    requires Inv(c) && Enabled(c, e) && (e.CloseCalled? || e.ProtocolError?)
    ensures Step(c, e).state == NextState(c, e)
  {
    hide Inv, CloseCall, CloseAsked, HandleProtocolError, Queues;
    BoundFacts(c);
    CloseAskedKind(c, e.code, e.reason);
    if e.CloseCalled? {
      CloseCallState(c, e.code, e.reason);
    } else {
      ProtocolStep(c, e);
      ProtocolErrorState(c, e.code, e.reason);
    }
  }

  lemma ReceiveState(c: Conn, p: seq<byte>)
    requires c.remoteCode < 0x10000 && (c.state == Open || c.state == Closing)
    ensures ProcessClose(c, p).state ==
      if BadCode(p) || BadReason(p) then if c.cfg.dropOnProtocolError then Closed else Closing
      else if c.state == Open then if |p| <= 125 then Closing else Open
      else if !c.wasClean && c.cfg.server then Closed else Closing
  {
    PayloadRead(p);
    Close.ExtractedCodeBound(p);
    RefusalTexts();
    var d := c.(remoteCode := Close.ExtractCode(p).0);
    var e := d.(remoteReason := Close.ExtractReason(p).0);
    RefuseState(d, INVALID_CODE_TEXT);
    RefuseState(e, INVALID_REASON_TEXT);
    hide BadCode, BadReason, Close.ExtractCode, Close.ExtractReason, Ascii, RefuseClose, AcceptClose;
    if !BadCode(p) && !BadReason(p) {
      AcceptEffect(e, p);
    }
  }

  lemma RefuseState(c: Conn, text: seq<byte>)
    requires c.remoteCode < 0x10000 && |text| <= 123
    ensures RefuseClose(c, text).state == if c.cfg.dropOnProtocolError then Closed else Closing
  {
    TerminateCloses(c, OtherError);
    CloseFrameQueues(c, 1002, text, true, c.cfg.server);
    hide SendCloseFrame, Terminate;
  }

  lemma AnswerKind(c: Conn, p: seq<byte>)
    ensures c.state == Open ==>
      (CloseAnswer(c, p) != [] <==>
        if BadCode(p) || BadReason(p) then !c.cfg.dropOnProtocolError else |p| <= 125)
    ensures CloseAnswer(c, p) != [] ==> CloseAnswer(c, p)[0].kind == CloseFrame
  {
    hide BadCode, BadReason, Ascii;
  }

  lemma ControlFrameState(c: Conn, op: nat, p: seq<byte>, reply: bool)
    requires c.remoteCode < 0x10000 && c.state != Connecting
    ensures ProcessControlFrame(c, op, p, reply).state ==
      if op == 8 && c.state != Closed then ProcessClose(c, p).state else c.state
  {
    hide ProcessClose, Push;
  }

  lemma ControlState(c: Conn, e: Event)
    requires Inv(c) && Enabled(c, e) && e.ControlFrame?
    ensures Step(c, e).state == NextState(c, e)
  {
    hide Inv, ProcessClose, ProcessControlFrame, CloseAnswer, BadCode, BadReason;
    BoundFacts(c);
    FramesAfterOpening(c);
    AnswerKind(c, e.payload);
    ControlFrameState(c, e.op, e.payload, e.reply);
    if e.op == 8 && c.state != Closed {
      ReceiveState(c, e.payload);
    }
    if e.op != 8 {
      PongKind(c, e);
    }
  }

  lemma PongKind(c: Conn, e: Event)
    requires Enabled(c, e) && e.ControlFrame? && e.op != 8
    ensures !StartsClosing(c, e)
  {
  }

  lemma EndingState(c: Conn, e: Event)
    requires Inv(c) && Enabled(c, e) && (e.WriteDone? || e.ReadFailed? || e.TimerExpired?)
    ensures Step(c, e).state == NextState(c, e)
  {
    TerminateCloses(c, OtherError);
    TerminateCloses(c, NoError);
    if e.WriteDone? {
      WriteFrameTerms(c);
      hide Inv;
      var d := c.(pipe := c.pipe.(current := [], writes := c.pipe.writes - 1));
      TerminateCloses(d, OtherError);
      TerminateCloses(d, NoError);
      hide Terminate;
    } else {
      hide Inv, Terminate;
    }
  }

  /** Every step changes the state exactly as this table says. */
  lemma StepState(c: Conn, e: Event)
    requires Inv(c) && Enabled(c, e)
    ensures Step(c, e).state == NextState(c, e)
  {
    hide Inv, Step, Enabled, NextState;
    if e.StartCall? || e.TransportReady? || e.HandshakeRead? || e.HandshakeWritten? {
      OpeningState(c, e);
    } else if e.SendCalled? || e.PingCalled? || e.PongCalled? || e.WriteDispatched? || e.ShutdownDone? {
      CallState(c, e);
    } else if e.CloseCalled? || e.ProtocolError? {
      ClosingCalls(c, e);
    } else if e.ControlFrame? {
      ControlState(c, e);
    } else {
      EndingState(c, e);
    }
  }

  /** How far the opening handshake has come. */
  function NextInternal(c: Conn, e: Event): InternalState {
    if e.StartCall? && c.internal == UserInit then TransportInit
    else if e.TransportReady? && !e.failed && c.internal == TransportInit then ReadHttpRequest
    else if e.HandshakeRead? && e.readError.None? && !e.read.NeedMore? && c.state == Connecting
      && c.internal == ReadHttpRequest then ProcessHttpRequest
    else if Opens(c, e) then ProcessConnection
    else c.internal
  }

  lemma CloseFrameInternal(c: Conn, code: nat, reason: seq<byte>, ack: bool, terminal: bool)
    requires code < 0x10000 && c.remoteCode < 0x10000
    ensures SendCloseFrame(c, code, reason, ack, terminal).0.internal == c.internal
  {
  }

  lemma ProcessCloseInternal(c: Conn, p: seq<byte>)
    requires c.remoteCode < 0x10000
    ensures ProcessClose(c, p).internal == c.internal
  {
    Close.ExtractedCodeBound(p);
    hide Close.ExtractCode, Close.ExtractReason, Terminate, SendCloseFrame;
    var (code, _) := Close.ExtractCode(p);
    var (reason, _) := Close.ExtractReason(p);
    var d := c.(remoteCode := code);
    var e := d.(remoteReason := reason);
    TerminateInternal(d);
    TerminateInternal(e);
    TerminateInternal(e.(wasClean := true));
    CloseFrameInternal(d, Close.PROTOCOL_ERROR, INVALID_CODE_TEXT, true, c.cfg.server);
    CloseFrameInternal(e, Close.PROTOCOL_ERROR, INVALID_REASON_TEXT, true, c.cfg.server);
    CloseFrameInternal(e, Close.BLANK, [], true, c.cfg.server);
  }

  lemma TerminateInternal(c: Conn)
    ensures forall ec :: Terminate(c, ec).internal == c.internal
  {
  }

  lemma CloseCallInternal(c: Conn, code: nat, reason: seq<byte>)
    requires code < 0x10000 && c.remoteCode < 0x10000
    ensures CloseCall(c, code, reason).0.internal == c.internal
    ensures HandleProtocolError(c, code, reason).internal == c.internal
  {
    var tr := if |reason| > CLOSE_REASON_SIZE then reason[..CLOSE_REASON_SIZE] else reason;
    CloseFrameInternal(c, code, tr, false, Close.Terminal(code));
    TerminateInternal(c);
    TerminateInternal(CloseCall(c, code, reason).0);
    hide SendCloseFrame, Terminate;
  }

  lemma OpeningInternal(c: Conn, e: Event)
    requires Inv(c) && Enabled(c, e)
    requires e.StartCall? || e.TransportReady? || e.HandshakeRead? || e.HandshakeWritten?
    ensures Step(c, e).internal == NextInternal(c, e)
  {
    TerminateInternal(c);
    hide Inv, Terminate;
  }

  lemma ClosingInternal(c: Conn, e: Event)
    requires Inv(c) && Enabled(c, e) && (e.CloseCalled? || e.ProtocolError?)
    ensures Step(c, e).internal == c.internal
  {
    hide Inv, CloseCall, HandleProtocolError, Step, Enabled;
    BoundFacts(c);
    if e.CloseCalled? {
      CodeBound(c, e);
      CloseStep(c, e.code, e.reason);
    } else {
      ProtocolStep(c, e);
    }
    CloseCallInternal(c, e.code, e.reason);
  }

  lemma CodeBound(c: Conn, e: Event)
    requires Enabled(c, e) && e.CloseCalled?
    ensures e.code < 0x10000
  {
  }

  lemma ControlInternal(c: Conn, op: nat, p: seq<byte>, reply: bool)
    requires c.remoteCode < 0x10000
    ensures ProcessControlFrame(c, op, p, reply).internal == c.internal
  {
    ProcessCloseInternal(c, p);
    hide ProcessClose;
  }

  lemma FrameInternal(c: Conn, e: Event)
    requires Inv(c) && Enabled(c, e) && e.ControlFrame?
    ensures Step(c, e).internal == c.internal
  {
    hide Inv, ProcessControlFrame;
    BoundFacts(c);
    ControlInternal(c, e.op, e.payload, e.reply);
  }

  lemma WriteDoneInternal(c: Conn, failed: bool)
    requires c.pipe.writes > 0 && c.pipe.current != []
    ensures HandleWriteFrame(c, failed).internal == c.internal
  {
  }

  lemma SendingInternal(c: Conn, e: Event)
    requires Inv(c) && Enabled(c, e)
    requires e.SendCalled? || e.PingCalled? || e.PongCalled? || e.WriteDispatched?
    ensures Step(c, e).internal == c.internal
  {
    hide Inv, WriteFrame, Push;
  }

  lemma EndingInternal(c: Conn, e: Event)
    requires Inv(c) && Enabled(c, e)
    requires e.ReadFailed? || e.TimerExpired? || e.ShutdownDone?
    ensures Step(c, e).internal == c.internal
  {
    hide Inv, Terminate;
    TerminateInternal(c);
  }

  lemma WrittenInternal(c: Conn, e: Event)
    requires Inv(c) && Enabled(c, e) && e.WriteDone?
    ensures Step(c, e).internal == c.internal
  {
    WriteFrameTerms(c);
    hide Inv, HandleWriteFrame;
    WriteDoneInternal(c, e.failed);
  }

  /** The opening handshake advances exactly so: started, transport ready, request read, response 101 written. */
  lemma StepInternal(c: Conn, e: Event)
    requires Inv(c) && Enabled(c, e)
    ensures Step(c, e).internal == NextInternal(c, e)
  {
    hide Inv, Step, Enabled;
    if e.StartCall? || e.TransportReady? || e.HandshakeRead? || e.HandshakeWritten? {
      OpeningInternal(c, e);
    } else if e.CloseCalled? || e.ProtocolError? {
      ClosingInternal(c, e);
    } else if e.ControlFrame? {
      FrameInternal(c, e);
    } else if e.WriteDone? {
      WrittenInternal(c, e);
    } else if e.ReadFailed? || e.TimerExpired? || e.ShutdownDone? {
      EndingInternal(c, e);
    } else {
      SendingInternal(c, e);
    }
  }

  //
  // The closing handshake
  //

  /** A good close frame, received. */
  lemma ReceiveGood(c: Conn, p: seq<byte>)
    requires c.remoteCode < 0x10000 && |p| <= 125 && !BadCode(p) && !BadReason(p)
    requires c.state == Open || c.state == Closing
    ensures var d := ProcessClose(c, p);
      && d.ec == c.ec && d.wasClean && d.cfg == c.cfg
      && d.remoteCode == Close.ExtractCode(p).0 && d.remoteReason == Close.ExtractReason(p).0
      && (c.state == Open ==> d.state == Closing && Queues(c, d, [OutMsg(CloseFrame, Echo(p), c.cfg.server)]))
      && (c.state == Closing ==> Queues(c, d, []) && d.state == if !c.wasClean && c.cfg.server then Closed else Closing)
  {
    PayloadRead(p);
    Close.ExtractedCodeBound(p);
    var d := c.(remoteCode := Close.ExtractCode(p).0);
    var e := d.(remoteReason := Close.ExtractReason(p).0);
    AcceptEffect(e, p);
    AcceptKeeps(e);
    hide BadCode, BadReason, Close.ExtractCode, Close.ExtractReason, AcceptClose;
  }

  lemma AcceptKeeps(c: Conn)
    requires c.remoteCode < 0x10000
    ensures var d := AcceptClose(c);
      d.cfg == c.cfg && d.remoteCode == c.remoteCode && d.remoteReason == c.remoteReason
  {
  }

  lemma ControlCloses(c: Conn, p: seq<byte>, reply: bool)
    requires Inv(c) && (c.state == Open || c.state == Closing)
    ensures c.remoteCode < 0x10000
    ensures var e := ControlFrame(8, p, reply); Enabled(c, e) && Step(c, e) == ProcessClose(c, p)
  {
    hide ProcessClose;
  }

  /** What a caller's close frame is to the peer. */
  lemma GoodPayload(code: nat, reason: seq<byte>)
    requires ValidCode(code) && |reason| <= 123 && Utf8.WellFormed(reason)
    ensures var p := [code / 256, code % 256] + reason;
      && |p| <= 125 && !BadCode(p) && !BadReason(p) && Echo(p) == p
      && Close.ExtractCode(p).0 == code && Close.ExtractReason(p).0 == reason
  {
    var p := [code / 256, code % 256] + reason;
    PayloadRead(p);
    assert p[2..] == reason;
    hide Close.ExtractCode, Close.ExtractReason, Utf8.WellFormed;
  }

  lemma CloseStep(c: Conn, code: nat, reason: seq<byte>)
    requires Inv(c) && code < 0x10000 && c.remoteCode < 0x10000
    ensures Enabled(c, CloseCalled(code, reason))
    ensures Step(c, CloseCalled(code, reason)) == CloseCall(c, code, reason).0
  {
    hide Inv, CloseCall;
  }

  lemma CallsClose(c: Conn, code: nat, reason: seq<byte>)
    requires Inv(c) && c.state == Open && ValidCode(code) && |reason| <= 123
    ensures var e := CloseCalled(code, reason);
      && Enabled(c, e) && Inv(Step(c, e)) && Step(c, e).state == Closing
      && Queues(c, Step(c, e), [CloseMsg(code, reason, DropsAfter(code))])
      && Step(c, e).cfg == c.cfg && Step(c, e).ec == c.ec && Step(c, e).wasClean == c.wasClean
  {
    hide Inv, CloseCall, Queues, Step, Enabled;
    BoundFacts(c);
    CloseStep(c, code, reason);
    StepInv(c, CloseCalled(code, reason));
    CloseCallQueues(c, code, reason);
    CloseCallState(c, code, reason);
    CloseCallKeeps(c, code, reason);
    assert CloseAsked(c, code, reason) == [CloseMsg(code, reason, DropsAfter(code))];
  }

  lemma CloseCallKeeps(c: Conn, code: nat, reason: seq<byte>)
    requires code < 0x10000 && c.remoteCode < 0x10000
    ensures var d := CloseCall(c, code, reason).0; d.cfg == c.cfg && d.ec == c.ec && d.wasClean == c.wasClean
  {
  }

  /**
   One end of an open connection closes it: the other end, on receiving the close frame, learns code and reason, answers
   with the same and, if it is the server, drops the connection once that is written; the answer completes the handshake
   at the first end, which ends the connection if it is the server and otherwise waits for the server to.
   */
  lemma ClosingHandshake(a: Conn, b: Conn, code: nat, reason: seq<byte>, reply: bool)
    requires Inv(a) && Inv(b) && a.state == Open && b.state == Open && !a.wasClean
    requires ValidCode(code) && |reason| <= 123 && Utf8.WellFormed(reason)
    ensures var p := CloseMsg(code, reason, false).payload;
      var call, frame := CloseCalled(code, reason), ControlFrame(8, p, reply);
      && Enabled(a, call) && Inv(Step(a, call)) && Enabled(b, frame) && Enabled(Step(a, call), frame)
      && var a1, b1 := Step(a, call), Step(b, frame);
      var a2 := Step(a1, frame);
      && a1.state == Closing && Queues(a, a1, [OutMsg(CloseFrame, p, DropsAfter(code))])
      && b1.state == Closing && Queues(b, b1, [OutMsg(CloseFrame, p, b.cfg.server)])
      && b1.wasClean && b1.remoteCode == code && b1.remoteReason == reason && b1.ec == b.ec
      && a2.state == (if a.cfg.server then Closed else Closing) && Queues(a1, a2, [])
      && a2.wasClean && a2.remoteCode == code && a2.remoteReason == reason && a2.ec == a.ec
  {
    var p := CloseMsg(code, reason, false).payload;
    GoodPayload(code, reason);
    CallsClose(a, code, reason);
    hide Inv, Step, Enabled, Queues, Close.ExtractCode, Close.ExtractReason, BadCode, BadReason, Utf8.WellFormed;
    var a1 := Step(a, CloseCalled(code, reason));
    ControlCloses(b, p, reply);
    ReceiveGood(b, p);
    ControlCloses(a1, p, reply);
    ReceiveGood(a1, p);
  }
}
