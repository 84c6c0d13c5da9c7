/**
 What a connection queues: exactly the frames the application and the peer have asked for, written out here from the
 calls and the state in which they come (connection.hpp; sections 5.5 and 7.4 of RFC 6455).
 */
module ConnectionFrames {
  import opened Bytes
  import opened Wrappers
  import opened Frame
  import Close
  import Utf8
  import opened ConnectionSpec
  import opened ConnectionRun

  //
  // Close frames
  //

  /** The codes of section 7.4 that may be sent. */
  predicate ValidCode(code: nat) {
    1000 <= code <= 1003 || 1007 <= code <= 1013 || 3000 <= code <= 4999
  }

  lemma CodesAgree(code: nat)
    ensures ValidCode(code) <==> !Close.Reserved(code) && !Close.Invalid(code)
  {
  }

  /** The codes after which the connection is dropped once the frame is written. */
  predicate DropsAfter(code: nat) {
    code in {1002, 1007, 1008, 1009, 1011}
  }

  function CloseMsg(code: nat, reason: seq<byte>, terminal: bool): OutMsg
    requires code < 0x10000
  {
    OutMsg(CloseFrame, [code / 256, code % 256] + reason, terminal)
  }

  /** The frame a call of `close` asks for: none unless the connection is open and the code may be sent. */
  function CloseAsked(c: Conn, code: nat, reason: seq<byte>): seq<OutMsg>
    requires code < 0x10000
  {
    if c.state != Open then []
    else if code == 0 || (code == 1005 && reason == []) then [OutMsg(CloseFrame, [], false)]
    else if ValidCode(code) then [CloseMsg(code, if |reason| <= 123 then reason else reason[..123], DropsAfter(code))]
    else []
  }

  predicate BadCode(p: seq<byte>) {
    |p| == 1 || (|p| >= 2 && !ValidCode(256 * p[0] as nat + p[1] as nat))
  }

  ghost predicate BadReason(p: seq<byte>) {
    |p| > 2 && !Utf8.WellFormed(p[2..])
  }

  /** The answer to a close frame: the peer's own code and reason, 1000 if it gave none, or 1002 if they are bad. */
  ghost function CloseAnswer(c: Conn, p: seq<byte>): seq<OutMsg> {
    if c.state != Open && c.state != Closing then []
    else if BadCode(p) then
      if c.cfg.dropOnProtocolError then [] else [CloseMsg(1002, Ascii("Invalid close code"), c.cfg.server)]
    else if BadReason(p) then
      if c.cfg.dropOnProtocolError then [] else [CloseMsg(1002, Ascii("Invalid close reason"), c.cfg.server)]
    else if c.state == Closing || |p| > 125 then []
    else if p == [] then [CloseMsg(1000, [], c.cfg.server)]
    else [OutMsg(CloseFrame, p, c.cfg.server)]
  }

  //
  // Every frame
  //

  /** The frame an event asks for, if any. */
  ghost function Asked(c: Conn, e: Event): seq<OutMsg>
    requires Enabled(c, e)
  {
    match e
    case SendCalled(prepared, payload, terminal, ok) =>
      if c.state != Open then []
      else if prepared then [OutMsg(PreparedFrame, payload, terminal)]
      else if ok then [OutMsg(DataFrame, payload, false)]
      else []
    case PingCalled(payload) => if c.state == Open && |payload| <= 125 then [OutMsg(PingFrame, payload, false)] else []
    case PongCalled(payload) => if c.state == Open && |payload| <= 125 then [OutMsg(PongFrame, payload, false)] else []
    case CloseCalled(code, reason) => CloseAsked(c, code, reason)
    case ProtocolError(code, reason) => if c.cfg.dropOnProtocolError then [] else CloseAsked(c, code, reason)
    case ControlFrame(op, payload, reply) =>
      if op == 8 then CloseAnswer(c, payload)
      else if op == 9 && reply && c.state == Open && |payload| <= 125 then [OutMsg(PongFrame, payload, false)]
      else []
    case _ => []
  }

  /** `d` is `c` after a step that queues exactly `ms`. */
  predicate Queues(c: Conn, d: Conn, ms: seq<OutMsg>) {
    d.pipe.pushed == c.pipe.pushed + ms
  }

  lemma EnqueueQueues(c: Conn, m: OutMsg)
    ensures Queues(c, Enqueue(c, m), [m]) && Queues(c, c, [])
  {
    assert c.pipe.pushed + [] == c.pipe.pushed;
  }

  lemma TerminateQueues(c: Conn, d: Conn, ms: seq<OutMsg>, ec: Cause)
    requires Queues(c, d, ms)
    ensures Queues(c, Terminate(d, ec), ms)
  {
    TerminateQuiet(d, ec);
    hide Terminate;
  }

  /** The payload of a close frame: two octets of code and the reason, or nothing. */
  lemma PayloadBuilt(code: nat, reason: seq<byte>)
    requires code < 0x10000
    ensures Close.ClosePayload(code, reason).Ok? <==>
      |reason| <= 123 && (ValidCode(code) || (code == 1005 && reason == []))
    ensures Close.ClosePayload(code, reason).Ok? ==>
      Close.ClosePayload(code, reason).bytes == if code == 1005 then [] else [code / 256, code % 256] + reason
  {
    CodesAgree(code);
    assert Close.Invalid(1005) && !Close.Reserved(1005);
    hide Close.Invalid, Close.Reserved, ValidCode;
  }

  function LocalPayload(code: nat, reason: seq<byte>): seq<byte>
    requires code < 0x10000
  {
    if code == 1005 then [] else [code / 256, code % 256] + reason
  }

  /** What `send_close_frame` queues, given the code and reason it settles on. */
  lemma CloseFrameQueues(c: Conn, code: nat, reason: seq<byte>, ack: bool, terminal: bool)
    requires code < 0x10000 && c.remoteCode < 0x10000
    ensures var (local, why) := LocalClose(c, code, reason, ack);
      var (d, ok) := SendCloseFrame(c, code, reason, ack, terminal);
      && (ok <==> |why| <= 123 && (ValidCode(local) || (local == 1005 && why == [])))
      && Queues(c, d, if ok then [OutMsg(CloseFrame, LocalPayload(local, why), terminal)] else [])
      && d.state == (if ok then Closing else c.state)
      && d.ec == c.ec && (ok && ack ==> d.wasClean) && d.remoteCode == c.remoteCode && d.remoteReason == c.remoteReason
  {
    var (local, why) := LocalClose(c, code, reason, ack);
    PayloadBuilt(local, why);
    hide ValidCode, Close.ClosePayload, LocalClose, Queues;
    var m := OutMsg(CloseFrame, LocalPayload(local, why), terminal);
    PushedSame(c, c.(state := Closing, wasClean := c.wasClean || ack), m);
    EnqueueQueues(c, m);
  }

  lemma PushedSame(c: Conn, d: Conn, m: OutMsg)
    requires d.pipe == c.pipe
    ensures Queues(c, Enqueue(d, m), [m]) && Queues(c, d, [])
  {
    EnqueueQueues(d, m);
  }

  lemma CloseCallQueues(c: Conn, code: nat, reason: seq<byte>)
    requires code < 0x10000 && c.remoteCode < 0x10000
    ensures var (d, ok) := CloseCall(c, code, reason);
      Queues(c, d, CloseAsked(c, code, reason)) && (ok <==> CloseAsked(c, code, reason) != [])
  {
    var tr := if |reason| > 123 then reason[..123] else reason;
    if c.state == Open {
      CloseFrameQueues(c, code, tr, false, Close.Terminal(code));
      hide SendCloseFrame, Queues;
    }
    assert c.pipe.pushed + [] == c.pipe.pushed;
  }

  lemma RefuseQueues(c: Conn, text: seq<byte>)
    requires c.remoteCode < 0x10000 && |text| <= 123
    ensures Queues(c, RefuseClose(c, text),
                   if c.cfg.dropOnProtocolError then [] else [CloseMsg(1002, text, c.cfg.server)])
  {
    TerminateQuiet(c, OtherError);
    CloseFrameQueues(c, 1002, text, true, c.cfg.server);
    assert c.pipe.pushed + [] == c.pipe.pushed;
    hide SendCloseFrame, Terminate;
  }

  lemma RefusalTexts()
    ensures INVALID_CODE_TEXT == Ascii("Invalid close code") && INVALID_REASON_TEXT == Ascii("Invalid close reason")
  {
  }

  /** What is read of a close payload. */
  lemma PayloadRead(p: seq<byte>)
    ensures Close.ExtractCode(p).1.Some? <==> BadCode(p)
    ensures Close.ExtractReason(p).1.Some? <==> BadReason(p)
    ensures Close.ExtractCode(p).0 ==
      if |p| == 0 then 1005 else if |p| == 1 then 1002 else 256 * p[0] as nat + p[1] as nat
    ensures Close.ExtractReason(p).0 == if |p| > 2 then p[2..] else []
  {
    if |p| >= 2 {
      CodesAgree(256 * p[0] as nat + p[1] as nat);
    }
    hide ValidCode, Close.Invalid, Close.Reserved, Utf8.WellFormed, Utf8.Run;
    Utf8.RunEmpty(Utf8.FRESH);
    Utf8.AcceptsExactlyWellFormed(Close.ExtractReason(p).0);
  }

  /** The payload acknowledging a good one. */
  function Echo(p: seq<byte>): seq<byte> {
    if p == [] then [3, 232] else p
  }

  lemma EchoBuilt(p: seq<byte>)
    requires !BadCode(p)
    ensures LocalPayload(1000, []) == [3, 232]
    ensures |p| >= 2 ==> var code := 256 * p[0] as nat + p[1] as nat;
      code != 1005 && ValidCode(code) && LocalPayload(code, p[2..]) == p
  {
    if |p| >= 2 {
      assert p == [p[0], p[1]] + p[2..];
    }
  }

  /** A good close frame: acknowledged while open; the end of the closing handshake while closing. */
  lemma AcceptEffect(c: Conn, p: seq<byte>)
    requires !BadCode(p) && !BadReason(p)
    requires c.remoteCode == Close.ExtractCode(p).0 && c.remoteReason == Close.ExtractReason(p).0
    ensures c.remoteCode < 0x10000
    ensures c.state == Open ==>
      var d := AcceptClose(c);
      if |p| <= 125 then
        Queues(c, d, [OutMsg(CloseFrame, Echo(p), c.cfg.server)]) && d.state == Closing && d.ec == c.ec && d.wasClean
      else Queues(c, d, []) && d.state == Open
    ensures c.state == Closing ==>
      var d := AcceptClose(c);
      Queues(c, d, []) && d.ec == c.ec && d.wasClean && d.state == if !c.wasClean && c.cfg.server then Closed
        else Closing
    ensures c.state == Connecting || c.state == Closed ==> AcceptClose(c) == c
  {
    PayloadRead(p);
    EchoBuilt(p);
    Close.ExtractedCodeBound(p);
    hide BadCode, BadReason, ValidCode, LocalPayload, Close.ExtractCode, Close.ExtractReason;
    if c.state == Open {
      assert ValidCode(1000) by { CodesAgree(1000); }
      assert c.remoteCode != 0 || |p| >= 2;
      CloseFrameQueues(c, 0, [], true, c.cfg.server);
      hide SendCloseFrame;
    }
    assert c.pipe.pushed + [] == c.pipe.pushed;
  }

  lemma ReceiveQueues(c: Conn, p: seq<byte>)
    requires c.remoteCode < 0x10000 && (c.state == Open || c.state == Closing)
    ensures Queues(c, ProcessClose(c, p), CloseAnswer(c, p))
  {
    PayloadRead(p);
    Close.ExtractedCodeBound(p);
    RefusalTexts();
    var d := c.(remoteCode := Close.ExtractCode(p).0);
    var e := d.(remoteReason := Close.ExtractReason(p).0);
    hide BadCode, BadReason, Close.ExtractCode, Close.ExtractReason, Ascii, RefuseClose, AcceptClose;
    if BadCode(p) {
      RefuseQueues(d, INVALID_CODE_TEXT);
    } else if BadReason(p) {
      RefuseQueues(e, INVALID_REASON_TEXT);
    } else {
      AcceptEffect(e, p);
      assert [3, 232] + [] == [3, 232];
    }
  }

  //
  // Each step
  //

  lemma ControlQueues(c: Conn, e: Event)
    requires Inv(c) && Enabled(c, e) && e.ControlFrame?
    ensures Queues(c, Step(c, e), Asked(c, e))
  {
    assert c.remoteCode < 0x10000;
    FramesAfterOpening(c);
    EnqueueQueues(c, OutMsg(PongFrame, e.payload, false));
    hide Inv, ProcessClose, CloseAnswer, Enqueue, Queues;
    if e.op == 8 {
      if c.state == Closed {
        NoAnswer(c, e.payload);
      } else {
        ReceiveQueues(c, e.payload);
      }
    }
  }

  lemma NoAnswer(c: Conn, p: seq<byte>)
    requires c.state == Closed
    ensures CloseAnswer(c, p) == []
  {
  }

  lemma ProtocolErrorQueues(c: Conn, code: nat, reason: seq<byte>)
    requires code < 0x10000 && c.remoteCode < 0x10000
    ensures Queues(c, HandleProtocolError(c, code, reason),
                   if c.cfg.dropOnProtocolError then [] else CloseAsked(c, code, reason))
  {
    hide CloseCall, CloseAsked, Terminate, Queues;
    EnqueueQueues(c, OutMsg(PongFrame, [], false));
    TerminateQueues(c, c, [], OtherError);
    CloseCallQueues(c, code, reason);
    TerminateQueues(c, CloseCall(c, code, reason).0, CloseAsked(c, code, reason), OtherError);
  }

  lemma CallQueues(c: Conn, e: Event)
    requires Inv(c) && Enabled(c, e)
    requires e.SendCalled? || e.PingCalled? || e.PongCalled? || e.CloseCalled?
    ensures Queues(c, Step(c, e), Asked(c, e))
  {
    assert c.remoteCode < 0x10000;
    hide Inv, Enqueue, Queues, CloseCall, CloseAsked;
    match e
    case SendCalled(prepared, payload, terminal, _) =>
      EnqueueQueues(c, OutMsg(PreparedFrame, payload, terminal));
      EnqueueQueues(c, OutMsg(DataFrame, payload, false));
    case PingCalled(payload) => EnqueueQueues(c, OutMsg(PingFrame, payload, false));
    case PongCalled(payload) => EnqueueQueues(c, OutMsg(PongFrame, payload, false));
    case CloseCalled(code, reason) => CloseCallQueues(c, code, reason);
  }

  /** The opening handshake queues nothing. */
  lemma OpeningQueues(c: Conn, e: Event)
    requires Inv(c) && Enabled(c, e)
    requires e.StartCall? || e.TransportReady? || e.HandshakeRead? || e.HandshakeWritten?
    ensures Queues(c, Step(c, e), [])
  {
    hide Inv, Terminate;
    TerminateQuiet(c, OtherError);
    TerminateQuiet(c, NoError);
    assert c.pipe.pushed + [] == c.pipe.pushed;
    if e.HandshakeWritten? {
      TerminateQuiet(c, if c.isHttp then HttpConnectionEnded else e.cause);
    }
  }

  lemma OtherQueues(c: Conn, e: Event)
    requires Inv(c) && Enabled(c, e)
    requires !e.SendCalled? && !e.PingCalled? && !e.PongCalled? && !e.CloseCalled?
    requires !e.ControlFrame? && !e.ProtocolError?
    ensures Queues(c, Step(c, e), [])
  {
    assert c.pipe.pushed + [] == c.pipe.pushed;
    if e.WriteDone? {
      hide Inv, HandleWriteFrame;
      WriteDoneQuiet(c, e.failed);
    } else if e.WriteDispatched? {
      hide Inv, Terminate;
    } else if e.StartCall? || e.TransportReady? || e.HandshakeRead? || e.HandshakeWritten? {
      hide Inv, Step, Enabled, Queues;
      OpeningQueues(c, e);
    } else {
      hide Inv, Terminate;
      TerminateQuiet(c, OtherError);
      TerminateQuiet(c, NoError);
    }
  }

  lemma BoundFacts(c: Conn)
    requires Inv(c)
    ensures c.remoteCode < 0x10000
  {
  }

  lemma ProtocolStep(c: Conn, e: Event)
    requires Inv(c) && Enabled(c, e) && e.ProtocolError? && c.remoteCode < 0x10000
    ensures e.code < 0x10000 && Step(c, e) == HandleProtocolError(c, e.code, e.reason)
    ensures Asked(c, e) == if c.cfg.dropOnProtocolError then [] else CloseAsked(c, e.code, e.reason)
  {
    hide Inv, HandleProtocolError, CloseAsked;
  }

  /** Every step queues exactly the frame asked for. */
  lemma StepQueues(c: Conn, e: Event)
    requires Inv(c) && Enabled(c, e)
    ensures Queues(c, Step(c, e), Asked(c, e))
  {
    hide Inv, Step, Enabled, Queues, CloseAsked, CloseAnswer;
    if e.SendCalled? || e.PingCalled? || e.PongCalled? || e.CloseCalled? {
      CallQueues(c, e);
    } else if e.ControlFrame? {
      ControlQueues(c, e);
    } else if e.ProtocolError? {
      BoundFacts(c);
      ProtocolStep(c, e);
      ProtocolErrorQueues(c, e.code, e.reason);
    } else {
      OtherQueues(c, e);
    }
  }

  //
  // Over whole runs
  //

  /** The frames of these kinds. */
  function Only(kinds: set<Kind>, ms: seq<OutMsg>): seq<OutMsg> {
    if ms == [] then [] else (if ms[0].kind in kinds then [ms[0]] else []) + Only(kinds, ms[1..])
  }

  lemma {:induction false} OnlyConcat(kinds: set<Kind>, a: seq<OutMsg>, b: seq<OutMsg>)
    ensures Only(kinds, a + b) == Only(kinds, a) + Only(kinds, b)
  {
    if a == [] {
      assert a + b == b;
    } else {
      assert (a + b)[1..] == a[1..] + b;
      OnlyConcat(kinds, a[1..], b);
    }
  }

  /** The frames asked for in a run, in order. */
  ghost function AllAsked(c: Conn, es: seq<Event>): seq<OutMsg>
    requires Inv(c) && Possible(c, es)
    decreases es
  {
    if es == [] then [] else (StepInv(c, es[0]); Asked(c, es[0]) + AllAsked(Step(c, es[0]), es[1..]))
  }

  lemma {:induction false} RunQueues(c: Conn, es: seq<Event>)
    requires Inv(c) && Possible(c, es)
    ensures Queues(c, Run(c, es), AllAsked(c, es))
    decreases es
  {
    hide Inv, Step, Enabled, Asked;
    if es == [] {
      assert c.pipe.pushed + [] == c.pipe.pushed;
    } else {
      StepInv(c, es[0]);
      StepQueues(c, es[0]);
      var d := Step(c, es[0]);
      RunQueues(d, es[1..]);
      Regroup(c.pipe.pushed, Asked(c, es[0]), AllAsked(d, es[1..]));
    }
  }

  lemma Regroup<T>(a: seq<T>, b: seq<T>, c: seq<T>)
    ensures a + b + c == a + (b + c)
  {
  }

  /** The frames asked for in the life of a connection. */
  ghost function AskedOf(cfg: Config, es: seq<Event>): seq<OutMsg>
    requires CanSee(cfg, es)
  {
    InitialInv(cfg);
    AllAsked(Initial(cfg), es)
  }

  /** Over every run, the frames queued are exactly those asked for, in the order they were. */
  lemma PushedIsAsked(cfg: Config, es: seq<Event>)
    requires CanSee(cfg, es)
    ensures After(cfg, es).pipe.pushed == AskedOf(cfg, es)
  {
    InitialInv(cfg);
    hide Inv, Run, Possible, AllAsked;
    RunQueues(Initial(cfg), es);
    assert [] + AllAsked(Initial(cfg), es) == AllAsked(Initial(cfg), es);
  }

  //
  // Kind by kind
  //

  /** The messages accepted for sending: those sent while open that are prepared or can be. */
  function SendOf(c: Conn, e: Event): seq<OutMsg> {
    if e.SendCalled? && c.state == Open && (e.prepared || e.ok) then
      [OutMsg(if e.prepared then PreparedFrame else DataFrame, e.payload, e.prepared && e.terminal)]
    else []
  }

  function PingOf(c: Conn, e: Event): seq<OutMsg> {
    if e.PingCalled? && c.state == Open && |e.payload| <= 125 then [OutMsg(PingFrame, e.payload, false)] else []
  }

  /** Pongs called for, and the pings answered. */
  function PongOf(c: Conn, e: Event): seq<OutMsg> {
    if (e.PongCalled? || (e.ControlFrame? && e.op == 9 && e.reply)) && c.state == Open && |e.payload| <= 125 then
      [OutMsg(PongFrame, e.payload, false)]
    else []
  }

  lemma KindsOf(c: Conn, e: Event)
    requires Enabled(c, e)
    ensures Only({DataFrame, PreparedFrame}, Asked(c, e)) == SendOf(c, e)
    ensures Only({PingFrame}, Asked(c, e)) == PingOf(c, e)
    ensures Only({PongFrame}, Asked(c, e)) == PongOf(c, e)
  {
    ClosesOnly(c, e);
    hide CloseAsked, CloseAnswer;
    var ms := Asked(c, e);
    assert ms == [] || ms[1..] == [];
  }

  lemma ClosesOnly(c: Conn, e: Event)
    requires Enabled(c, e)
    ensures |Asked(c, e)| <= 1
    ensures e.CloseCalled? || e.ProtocolError? || (e.ControlFrame? && e.op == 8) ==>
      forall m :: m in Asked(c, e) ==> m.kind == CloseFrame
  {
    hide Utf8.WellFormed, ValidCode, Ascii;
  }

  ghost function Sends(c: Conn, es: seq<Event>): seq<OutMsg>
    requires Inv(c) && Possible(c, es)
    decreases es
  {
    if es == [] then [] else (StepInv(c, es[0]); SendOf(c, es[0]) + Sends(Step(c, es[0]), es[1..]))
  }

  ghost function Pings(c: Conn, es: seq<Event>): seq<OutMsg>
    requires Inv(c) && Possible(c, es)
    decreases es
  {
    if es == [] then [] else (StepInv(c, es[0]); PingOf(c, es[0]) + Pings(Step(c, es[0]), es[1..]))
  }

  ghost function Pongs(c: Conn, es: seq<Event>): seq<OutMsg>
    requires Inv(c) && Possible(c, es)
    decreases es
  {
    if es == [] then [] else (StepInv(c, es[0]); PongOf(c, es[0]) + Pongs(Step(c, es[0]), es[1..]))
  }

  lemma {:induction false} RunKinds(c: Conn, es: seq<Event>)
    requires Inv(c) && Possible(c, es)
    ensures Only({DataFrame, PreparedFrame}, AllAsked(c, es)) == Sends(c, es)
    ensures Only({PingFrame}, AllAsked(c, es)) == Pings(c, es)
    ensures Only({PongFrame}, AllAsked(c, es)) == Pongs(c, es)
    decreases es
  {
    hide Inv, Step, Enabled, Asked, SendOf, PingOf, PongOf;
    if es != [] {
      hide Only;
      StepInv(c, es[0]);
      KindsOf(c, es[0]);
      var d := Step(c, es[0]);
      var now, later := Asked(c, es[0]), AllAsked(d, es[1..]);
      RunKinds(d, es[1..]);
      OnlyConcat({DataFrame, PreparedFrame}, now, later);
      OnlyConcat({PingFrame}, now, later);
      OnlyConcat({PongFrame}, now, later);
    }
  }

  /**
   Over every run, the data frames queued are the messages accepted while open, in order; the pings are those called
   for, and the pongs those called for and the answers to pings.
   */
  lemma MessagesQueued(cfg: Config, es: seq<Event>)
    requires CanSee(cfg, es)
    ensures Inv(Initial(cfg)) && Possible(Initial(cfg), es)
    ensures var pushed := After(cfg, es).pipe.pushed;
      && Only({DataFrame, PreparedFrame}, pushed) == Sends(Initial(cfg), es)
      && Only({PingFrame}, pushed) == Pings(Initial(cfg), es)
      && Only({PongFrame}, pushed) == Pongs(Initial(cfg), es)
  {
    InitialInv(cfg);
    assert Possible(Initial(cfg), es);
    PushedIsAsked(cfg, es);
    assert AskedOf(cfg, es) == AllAsked(Initial(cfg), es);
    hide Inv, Possible, AllAsked, Sends, Pings, Pongs, Only, After;
    RunKinds(Initial(cfg), es);
  }

  /** What a close frame says, as its receiver reads it. */
  predicate Says(m: OutMsg, code: nat, reason: seq<byte>) {
    m.kind == CloseFrame && Close.ExtractCode(m.payload) == (code, None) && Close.ExtractReason(m.payload).0 == reason
  }

  lemma AskedSays(c: Conn, code: nat, reason: seq<byte>)
    requires code < 0x10000
    ensures forall m :: m in CloseAsked(c, code, reason) ==>
      if code == 0 || code == 1005 then Says(m, 1005, [])
      else Says(m, code, if |reason| <= 123 then reason else reason[..123])
  {
    MsgSays(code, if |reason| <= 123 then reason else reason[..123]);
    hide Close.ExtractCode, Close.ExtractReason, ValidCode, Utf8.WellFormed;
    CodesAgree(1005);
  }

  lemma AnswerSays(c: Conn, p: seq<byte>)
    ensures forall m :: m in CloseAnswer(c, p) ==>
      if BadCode(p) then Says(m, 1002, Ascii("Invalid close code"))
      else if BadReason(p) then Says(m, 1002, Ascii("Invalid close reason"))
      else if p == [] then Says(m, 1000, [])
      else Says(m, 256 * p[0] as nat + p[1] as nat, p[2..])
  {
    MsgSays(1002, Ascii("Invalid close code"));
    MsgSays(1002, Ascii("Invalid close reason"));
    MsgSays(1000, []);
    PayloadRead(p);
    hide Close.ExtractCode, Close.ExtractReason, ValidCode, Utf8.WellFormed, Ascii;
    CodesAgree(1000);
    CodesAgree(1002);
  }

  /**
   A close frame called for says the code and the reason, cut to 123 bytes, that the caller gave, or nothing; one that
   answers a good close frame says what the peer said, and 1000 if it said nothing; one that answers a bad one says
   1002.
   */
  lemma CloseSays(c: Conn, code: nat, reason: seq<byte>, p: seq<byte>)
    requires code < 0x10000
    ensures forall m :: m in CloseAsked(c, code, reason) ==>
      if code == 0 || code == 1005 then Says(m, 1005, [])
      else Says(m, code, if |reason| <= 123 then reason else reason[..123])
    ensures forall m :: m in CloseAnswer(c, p) ==>
      if BadCode(p) then Says(m, 1002, Ascii("Invalid close code"))
      else if BadReason(p) then Says(m, 1002, Ascii("Invalid close reason"))
      else if p == [] then Says(m, 1000, [])
      else Says(m, 256 * p[0] as nat + p[1] as nat, p[2..])
  {
    hide CloseAsked, CloseAnswer, Says, BadCode, BadReason, Ascii;
    AskedSays(c, code, reason);
    AnswerSays(c, p);
  }

  lemma MsgSays(code: nat, reason: seq<byte>)
    requires code < 0x10000
    ensures ValidCode(code) ==> forall t :: Says(CloseMsg(code, reason, t), code, reason)
  {
    var p := [code / 256, code % 256] + reason;
    PayloadRead(p);
    assert p[2..] == reason;
    hide Close.ExtractCode, Close.ExtractReason, ValidCode, Utf8.WellFormed;
  }
}
