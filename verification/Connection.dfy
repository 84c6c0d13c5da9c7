/**
 The connection object (connection_impl.hpp), by assignment. Ghost fields record what the transport owes it and what
 passed through it; each method moves the abstract state exactly as the function of the same name.
 */
module Connection {
  import opened Bytes
  import opened Wrappers
  import opened Frame
  import CloseCodes = Close
  import S = ConnectionSpec
  import R = ConnectionRun
  import opened ConnectionSpec

  class Connection {
    const cfg: Config
    var state: SessionState
    var internal: InternalState
    var isHttp: bool
    var ec: Cause
    var sendQueue: seq<OutMsg>
    var sendBufferSize: int
    var currentMsgs: seq<OutMsg>
    var writeFlag: bool
    var wasClean: bool
    var remoteCloseCode: nat
    var remoteCloseReason: seq<byte>
    var shutdowns: seq<TerminateStatus> // the status bound in each shutdown callback the transport holds

    ghost var dispatched: nat
    ghost var writes: nat
    ghost var pushed: seq<OutMsg>
    ghost var written: seq<OutMsg>
    ghost var calls: seq<Handler>

    ghost function Pipe(): Pipe
      reads this
    {
      S.Pipe.Pipe(sendQueue, sendBufferSize, currentMsgs, writeFlag, dispatched, writes, pushed, written)
    }

    ghost function Abs(): Conn
      reads this
    {
      Conn(cfg, state, internal, isHttp, ec, Pipe(), wasClean, remoteCloseCode, remoteCloseReason, shutdowns, calls)
    }

    constructor (cfg: Config)
      ensures this.cfg == cfg && Abs() == Initial(cfg)
    {
      this.cfg := cfg;
      state, internal, isHttp, ec := Connecting, UserInit, false, NoError;
      sendQueue, sendBufferSize, currentMsgs, writeFlag := [], 0, [], false;
      wasClean, remoteCloseCode, remoteCloseReason := false, CloseCodes.ABNORMAL_CLOSE, [];
      dispatched, writes, shutdowns, pushed, written, calls := 0, 0, [], [], [], [];
    }

    //
    // The write queue
    //

    method WritePush(m: OutMsg)
      modifies this
      ensures Abs() == old(Abs()).(pipe := S.WritePush(old(Pipe()), m))
    {
      sendBufferSize := sendBufferSize + |m.payload|;
      sendQueue := sendQueue + [m];
      pushed := pushed + [m];
    }

    /** The tail of every method that queues a frame. */
    method PushAndDispatch(m: OutMsg)
      modifies this
      ensures Abs() == Enqueue(old(Abs()), m)
    {
      WritePush(m);
      var needsWriting := !writeFlag && |sendQueue| != 0;
      if needsWriting {
        dispatched := dispatched + 1;
      }
    }

    method WritePop() returns (m: Option<OutMsg>)
      modifies this`sendQueue, this`sendBufferSize
      ensures old(sendQueue) == [] ==> m.None? && sendQueue == [] && sendBufferSize == old(sendBufferSize)
      ensures old(sendQueue) != [] ==>
        m.Some? && old(sendQueue) == [m.value] + sendQueue && sendBufferSize == old(sendBufferSize) - |m.value.payload|
    {
      if |sendQueue| == 0 { return None; }
      m := Some(sendQueue[0]);
      sendBufferSize := sendBufferSize - |sendQueue[0].payload|;
      sendQueue := sendQueue[1..];
    }

    /** Moving the first frame of a batch leaves the rest of it to move. */
    static lemma BatchHead(m: OutMsg, rest: seq<OutMsg>, moved: seq<OutMsg>, todo: seq<OutMsg>, left: seq<OutMsg>)
      requires todo == Batch([m] + rest) && [m] + rest == todo + left
      ensures var t := if m.terminal then [] else Batch(rest);
        moved + [m] + t == moved + todo && rest == t + left && TotalSize(todo) == |m.payload| + TotalSize(t)
    {
      var t := if m.terminal then [] else Batch(rest);
      assert ([m] + rest)[1..] == rest;
      assert todo == [m] + t;
      assert todo[1..] == t;
      assert rest == (todo + left)[1..];
    }

    static lemma BatchNothing()
      ensures Batch([]) == [] && TotalSize([]) == 0
    {
    }

    /** Moves frames from the queue to the write buffer until the queue is empty or a terminal frame has been moved. */
    method PopBatch()
      modifies this`sendQueue, this`sendBufferSize, this`currentMsgs
      ensures Pipe() == TakeBatch(old(Pipe()))
    {
      ghost var all := Batch(sendQueue);
      ghost var todo := all;
      ghost var left := sendQueue[|all|..];
      assert sendQueue == all + left;
      BatchNothing();
      hide Batch, TotalSize;
      var next := WritePop();
      while next.Some?
        invariant currentMsgs + todo == old(currentMsgs) + all
        invariant next.None? ==>
          todo == [] && sendBufferSize == old(sendBufferSize) - TotalSize(all) && sendQueue == left
        invariant next.Some? ==> todo == Batch([next.value] + sendQueue)
        invariant next.Some? ==>
          sendBufferSize + |next.value.payload| - TotalSize(todo) == old(sendBufferSize) - TotalSize(all)
        invariant next.Some? ==> [next.value] + sendQueue == todo + left
        decreases |sendQueue|, next.Some?
      {
        ghost var rest := sendQueue;
        BatchHead(next.value, rest, currentMsgs, todo, left);
        currentMsgs := currentMsgs + [next.value];
        if !next.value.terminal {
          todo := Batch(rest);
          next := WritePop();
        } else {
          todo := [];
          next := None;
        }
      }
    }

    method WriteFrame()
      requires dispatched > 0
      modifies this`dispatched, this`sendQueue, this`sendBufferSize, this`currentMsgs
      modifies this`writeFlag, this`writes, this`written
      ensures Pipe() == S.WriteFrame(old(Pipe()))
    {
      hide TakeBatch, S.StartWrite;
      dispatched := dispatched - 1;
      if writeFlag { return; }
      PopBatch();
      StartWrite();
    }

    /** Hands the frames taken to the transport, if there are any. */
    method StartWrite()
      modifies this`writeFlag, this`writes, this`written
      ensures Pipe() == S.StartWrite(old(Pipe()))
    {
      if |currentMsgs| == 0 { return; }
      writeFlag := true;
      writes, written := writes + 1, written + currentMsgs;
    }

    method HandleWriteFrame(failed: bool)
      requires writes > 0 && currentMsgs != []
      modifies this
      ensures Abs() == S.HandleWriteFrame(old(Abs()), failed)
    {
      hide S.Terminate, S.Release;
      var terminal := currentMsgs[|currentMsgs| - 1].terminal;
      currentMsgs := [];
      writes := writes - 1;
      if failed {
        Terminate(OtherError);
        return;
      }
      if terminal {
        Terminate(NoError);
        return;
      }
      Release();
    }

    /** Gives the write flag up and sees to the frames that are waiting. */
    method Release()
      modifies this`writeFlag, this`dispatched
      ensures Pipe() == S.Release(old(Pipe()))
    {
      writeFlag := false;
      var needsWriting := |sendQueue| != 0;
      if needsWriting {
        dispatched := dispatched + 1;
      }
    }

    //
    // Ending
    //

    method Terminate(cause: Cause)
      modifies this
      ensures Abs() == S.Terminate(old(Abs()), cause)
    {
      if cause != NoError {
        ec := cause;
      }
      var status: TerminateStatus;
      if state == Connecting {
        state := Closed;
        status := FailedStatus;
      } else if state != Closed {
        state := Closed;
        status := ClosedStatus;
      } else {
        return;
      }
      shutdowns := shutdowns + [status];
    }

    method HandleTerminate(status: TerminateStatus)
      requires shutdowns != [] && status == shutdowns[0]
      modifies this
      ensures Abs() == S.HandleTerminate(old(Abs()))
    {
      shutdowns := shutdowns[1..];
      if status == FailedStatus {
        if ec != HttpConnectionEnded {
          calls := calls + [FailHandler];
        }
      } else {
        calls := calls + [CloseHandler];
      }
      calls := calls + [TerminationHandler];
    }

    //
    // Opening
    //

    method Start()
      modifies this
      ensures Abs() == S.Start(old(Abs()))
    {
      if internal != UserInit {
        Terminate(OtherError);
        return;
      }
      internal := TransportInit;
    }

    method HandleTransportInit(failed: bool)
      modifies this
      ensures Abs() == S.HandleTransportInit(old(Abs()), failed)
    {
      var error := failed;
      if internal != TransportInit {
        error := true;
      }
      if error {
        Terminate(OtherError);
        return;
      }
      internal := ReadHttpRequest;
    }

    method CheckHandshake(error: Option<ReadError>, expected: InternalState) returns (check: Check)
      ensures check == S.CheckHandshake(Abs(), error, expected)
    {
      var e := error;
      if e.None? {
        if state == Connecting {
          if internal != expected { e := Some(InvalidState); }
        } else if state == Closed {
          return Ignore;
        } else {
          e := Some(InvalidState);
        }
      }
      if e.Some? {
        if e.value == Eof && state == Closed { return Ignore; }
        return Abort;
      }
      return Proceed;
    }

    method HandleReadHandshake(error: Option<ReadError>, read: HandshakeRead)
      modifies this
      ensures Abs() == S.HandleReadHandshake(old(Abs()), error, read)
    {
      var check := CheckHandshake(error, ReadHttpRequest);
      if check == Ignore { return; }
      if check == Abort {
        Terminate(OtherError);
        return;
      }
      match read
      case NeedMore =>
      case ParseError => internal := ProcessHttpRequest;
      case Complete(http) => internal, isHttp := ProcessHttpRequest, http;
    }

    method HandleWriteHttpResponse(error: Option<ReadError>, switching: bool, cause: Cause)
      modifies this
      ensures Abs() == S.HandleWriteHttpResponse(old(Abs()), error, switching, cause)
    {
      var check := CheckHandshake(error, ProcessHttpRequest);
      if check == Ignore { return; }
      if check == Abort {
        Terminate(OtherError);
        return;
      }
      if !switching {
        Terminate(if isHttp then HttpConnectionEnded else cause);
        return;
      }
      internal := ProcessConnection;
      state := Open;
      calls := calls + [OpenHandler];
    }

    //
    // Sending
    //

    method Send(prepared: bool, payload: seq<byte>, terminal: bool, preparable: bool) returns (ok: bool)
      modifies this
      ensures Abs() == S.Send(old(Abs()), prepared, payload, terminal, preparable)
      ensures ok <==> Abs().pipe.pushed != old(Abs()).pipe.pushed
    {
      if state != Open { return false; }
      if prepared {
        PushAndDispatch(OutMsg(PreparedFrame, payload, terminal));
      } else {
        if !preparable { return false; }
        PushAndDispatch(OutMsg(DataFrame, payload, false));
      }
      assert |pushed| == |old(pushed)| + 1;
      return true;
    }

    method Ping(payload: seq<byte>) returns (ok: bool)
      modifies this
      ensures Abs() == S.Ping(old(Abs()), payload)
      ensures ok <==> Abs().pipe.pushed != old(Abs()).pipe.pushed
    {
      if state != Open { return false; }
      if |payload| > PAYLOAD_SIZE_BASIC { return false; }
      PushAndDispatch(OutMsg(PingFrame, payload, false));
      assert |pushed| == |old(pushed)| + 1;
      return true;
    }

    method Pong(payload: seq<byte>) returns (ok: bool)
      modifies this
      ensures Abs() == S.Pong(old(Abs()), payload)
      ensures ok <==> Abs().pipe.pushed != old(Abs()).pipe.pushed
    {
      if state != Open { return false; }
      if |payload| > PAYLOAD_SIZE_BASIC { return false; }
      PushAndDispatch(OutMsg(PongFrame, payload, false));
      assert |pushed| == |old(pushed)| + 1;
      return true;
    }

    method SendCloseFrame(code: nat, reason: seq<byte>, ack: bool, terminal: bool) returns (ok: bool)
      requires code < 0x10000 && remoteCloseCode < 0x10000
      modifies this
      ensures (Abs(), ok) == S.SendCloseFrame(old(Abs()), code, reason, ack, terminal)
    {
      var localCode, localReason := code, reason;
      if code == CloseCodes.BLANK {
        if !ack {
          localCode, localReason := CloseCodes.NO_STATUS, [];
        } else if remoteCloseCode == CloseCodes.NO_STATUS {
          localCode, localReason := CloseCodes.NORMAL, [];
        } else {
          localCode, localReason := remoteCloseCode, remoteCloseReason;
        }
      }
      var prepared := CloseCodes.ClosePayload(localCode, localReason);
      if prepared.Err? { return false; }
      var m := OutMsg(CloseFrame, prepared.bytes, terminal);
      state := Closing;
      if ack {
        wasClean := true;
      }
      PushAndDispatch(m);
      return true;
    }

    method SendCloseAck(code: nat, reason: seq<byte>) returns (ok: bool)
      requires code < 0x10000 && remoteCloseCode < 0x10000
      modifies this
      ensures Abs() == S.SendCloseAck(old(Abs()), code, reason)
    {
      ok := SendCloseFrame(code, reason, true, cfg.server);
    }

    method Close(code: nat, reason: seq<byte>) returns (ok: bool)
      requires code < 0x10000 && remoteCloseCode < 0x10000
      modifies this
      ensures (Abs(), ok) == CloseCall(old(Abs()), code, reason)
    {
      var tr := if |reason| > CLOSE_REASON_SIZE then reason[..CLOSE_REASON_SIZE] else reason;
      if state != Open { return false; }
      ok := SendCloseFrame(code, tr, false, CloseCodes.Terminal(code));
    }

    //
    // Receiving
    //

    method ProcessControlFrame(op: nat, payload: seq<byte>, reply: bool)
      requires remoteCloseCode < 0x10000
      modifies this
      ensures Abs() == S.ProcessControlFrame(old(Abs()), op, payload, reply)
    {
      if state == Closed { return; }
      if op != CLOSE && state != Open { return; }
      if op == PING {
        if reply {
          var _ := Pong(payload);
        }
      } else if op == CLOSE {
        ProcessClose(payload);
      }
    }

    method RefuseClose(text: seq<byte>)
      requires remoteCloseCode < 0x10000
      modifies this
      ensures Abs() == S.RefuseClose(old(Abs()), text)
    {
      if cfg.dropOnProtocolError {
        Terminate(OtherError);
      } else {
        var _ := SendCloseAck(CloseCodes.PROTOCOL_ERROR, text);
      }
    }

    method ProcessClose(payload: seq<byte>)
      requires remoteCloseCode < 0x10000
      modifies this
      ensures Abs() == S.ProcessClose(old(Abs()), payload)
    {
      CloseCodes.ExtractedCodeBound(payload);
      hide CloseCodes.ExtractCode, CloseCodes.ExtractReason, S.SendCloseAck, S.Terminate;
      var (code, codeError) := CloseCodes.ExtractCode(payload);
      remoteCloseCode := code;
      if codeError.Some? {
        RefuseClose(INVALID_CODE_TEXT);
        return;
      }
      var (reason, reasonError) := CloseCodes.ExtractReason(payload);
      remoteCloseReason := reason;
      if reasonError.Some? {
        RefuseClose(INVALID_REASON_TEXT);
        return;
      }
      if state == Open {
        var _ := SendCloseAck(CloseCodes.BLANK, []);
      } else if state == Closing && !wasClean {
        wasClean := true;
        if cfg.server {
          Terminate(NoError);
        }
      }
    }

    method HandleReadError(error: ReadError)
      modifies this
      ensures Abs() == S.HandleReadError(old(Abs()), error)
    {
      if error == Eof {
        if state == Closed { return; }
        if state == Closing && !cfg.server {
          Terminate(NoError);
          return;
        }
      } else if error == InvalidState {
        if state == Closed { return; }
      } else if error == TlsShortRead {
        if state == Closed {
          Terminate(NoError);
          return;
        }
      }
      Terminate(OtherError);
    }

    method HandleProtocolError(code: nat, text: seq<byte>)
      requires code < 0x10000 && remoteCloseCode < 0x10000
      modifies this
      ensures Abs() == S.HandleProtocolError(old(Abs()), code, text)
    {
      if cfg.dropOnProtocolError {
        Terminate(OtherError);
        return;
      }
      var ok := Close(code, text);
      if !ok {
        Terminate(OtherError);
      }
    }

    //
    // Whole runs
    //

    method HandleOpening(e: R.Event)
      requires e.StartCall? || e.TransportReady? || e.HandshakeRead? || e.HandshakeWritten?
      requires R.Inv(Abs()) && R.Enabled(Abs(), e)
      modifies this
      ensures Abs() == R.Step(old(Abs()), e)
    {
      hide R.Inv, S.Start, S.HandleTransportInit, S.HandleReadHandshake, S.HandleWriteHttpResponse;
      match e
      case StartCall => Start();
      case TransportReady(failed) => HandleTransportInit(failed);
      case HandshakeRead(error, read) => HandleReadHandshake(error, read);
      case HandshakeWritten(error, switching, cause) => HandleWriteHttpResponse(error, switching, cause);
    }

    method HandleDispatched()
      requires dispatched > 0
      modifies this
      ensures Abs() == old(Abs()).(pipe := S.WriteFrame(old(Abs()).pipe))
    {
      hide S.WriteFrame;
      WriteFrame();
    }

    method HandleSending(e: R.Event)
      requires e.SendCalled? || e.PingCalled? || e.PongCalled? || e.CloseCalled?
      requires R.Inv(Abs()) && R.Enabled(Abs(), e)
      modifies this
      ensures Abs() == R.Step(old(Abs()), e)
    {
      assert remoteCloseCode < 0x10000;
      hide R.Inv, S.Send, S.Ping, S.Pong, S.CloseCall;
      match e
      case SendCalled(prepared, payload, terminal, preparable) =>
        var _ := Send(prepared, payload, terminal, preparable);
      case PingCalled(payload) => var _ := Ping(payload);
      case PongCalled(payload) => var _ := Pong(payload);
      case CloseCalled(code, reason) => var _ := Close(code, reason);
    }

    method HandleEnding(e: R.Event)
      requires e.WriteDone? || e.ControlFrame? || e.ReadFailed? || e.ProtocolError? || e.TimerExpired? ||
               e.ShutdownDone?
      requires R.Inv(Abs()) && R.Enabled(Abs(), e)
      modifies this
      ensures Abs() == R.Step(old(Abs()), e)
    {
      assert remoteCloseCode < 0x10000;
      if e.WriteDone? {
        R.WriteFrameTerms(Abs());
      }
      hide R.Inv, S.HandleWriteFrame, S.ProcessControlFrame, S.HandleReadError, S.HandleProtocolError, S.Terminate;
      hide S.HandleTerminate;
      match e
      case WriteDone(failed) => HandleWriteFrame(failed);
      case ControlFrame(op, payload, reply) => ProcessControlFrame(op, payload, reply);
      case ReadFailed(error) => HandleReadError(error);
      case ProtocolError(code, reason) => HandleProtocolError(code, reason);
      case TimerExpired => Terminate(OtherError);
      case ShutdownDone => HandleTerminate(shutdowns[0]);
    }

    static lemma Dispatching(c: Conn)
      requires R.Inv(c) && R.Enabled(c, R.WriteDispatched)
      ensures c.pipe.dispatched > 0 && R.Step(c, R.WriteDispatched) == c.(pipe := S.WriteFrame(c.pipe))
    {
      hide R.Inv, S.WriteFrame;
    }

    /** The call or callback an event stands for. */
    method Handle(e: R.Event)
      requires R.Inv(Abs()) && R.Enabled(Abs(), e)
      modifies this
      ensures Abs() == R.Step(old(Abs()), e)
    {
      hide R.Inv, R.Enabled, R.Step;
      if e.StartCall? || e.TransportReady? || e.HandshakeRead? || e.HandshakeWritten? {
        HandleOpening(e);
      } else if e.SendCalled? || e.PingCalled? || e.PongCalled? || e.CloseCalled? {
        HandleSending(e);
      } else if e.WriteDispatched? {
        Dispatching(Abs());
        HandleDispatched();
      } else {
        HandleEnding(e);
      }
    }

    /** Any run: every call finds what it needs, and the object ends where the state machine does. */
    method Perform(es: seq<R.Event>)
      requires R.Inv(Abs()) && R.Possible(Abs(), es)
      modifies this
      ensures R.Inv(Abs()) && Abs() == R.Run(old(Abs()), es)
    {
      hide R.Inv, R.Step, R.Enabled;
      assert es[0..] == es;
      for i := 0 to |es|
        invariant R.Inv(Abs()) && R.Possible(Abs(), es[i..])
        invariant R.Run(Abs(), es[i..]) == R.Run(old(Abs()), es)
      {
        assert es[i..][0] == es[i] && es[i..][1..] == es[i + 1..];
        R.StepInv(Abs(), es[i]);
        Handle(es[i]);
      }
    }
  }

  /**
   The whole life of a connection object: over every run nothing queued is lost, repeated or reordered, the buffer
   size is that of the frames waiting, one write is outstanding at most and none is forgotten, and the handlers are
   called in order.
   */
  method Live(cfg: Config, es: seq<R.Event>) returns (c: Connection)
    requires R.CanSee(cfg, es)
    ensures fresh(c) && c.Abs() == R.After(cfg, es)
    ensures c.pushed == c.written + c.sendQueue && c.sendBufferSize == TotalSize(c.sendQueue)
    ensures c.writes <= 1 && (c.writes == 1 ==> c.writeFlag)
    ensures c.dispatched == 0 && c.writes == 0 && c.state != Closed ==> c.written == c.pushed && c.sendBufferSize == 0
    ensures c.state == Open || c.state == Closing ==> c.calls == [OpenHandler]
    ensures c.state == Closed && c.shutdowns == [] ==>
      c.calls == [OpenHandler, CloseHandler, TerminationHandler] || c.calls == [FailHandler, TerminationHandler] ||
      (c.calls == [TerminationHandler] && c.isHttp)
  {
    hide R.Inv, R.Run, R.Possible, TotalSize;
    R.InitialInv(cfg);
    c := new Connection(cfg);
    c.Perform(es);
    R.WritesConserved(cfg, es);
    R.NeverStalls(cfg, es);
    R.HandlersCalled(cfg, es);
    R.UpgradeAnswered(cfg, es);
  }
}
