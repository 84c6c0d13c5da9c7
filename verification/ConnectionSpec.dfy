/**
 The life of a connection and its write queue (connection_impl.hpp), as a state machine. Every public call, every
 transport completion and every timer is one step; the transport is free to complete in any order, but calls each
 completion handler once. Class `Connection` does the same by assignment and is proved against these functions.
 */
module ConnectionSpec {
  import opened Bytes
  import opened Wrappers
  import opened Frame
  import Close

  datatype SessionState = Connecting | Open | Closing | Closed

  /** The states a server passes through. */
  datatype InternalState = UserInit | TransportInit | ReadHttpRequest | ProcessHttpRequest | ProcessConnection

  /** Where a queued frame comes from. */
  datatype Kind = DataFrame | PreparedFrame | PingFrame | PongFrame | CloseFrame

  datatype OutMsg = OutMsg(kind: Kind, payload: seq<byte>, terminal: bool)

  datatype TerminateStatus = FailedStatus | ClosedStatus

  datatype Handler = OpenHandler | FailHandler | CloseHandler | TerminationHandler

  /** The error code passed to `terminate`. */
  datatype Cause = NoError | HttpConnectionEnded | OtherError

  datatype ReadError = Eof | TlsShortRead | InvalidState | Other

  datatype Config = Config(server: bool, dropOnProtocolError: bool)

  /** The write queue, and what passed through it. */
  datatype Pipe = Pipe(
    queue: seq<OutMsg>,                // m_send_queue
    bufferSize: int,                   // m_send_buffer_size
    current: seq<OutMsg>,              // m_current_msgs
    writeFlag: bool,
    dispatched: nat,                   // write_frame calls dispatched and not yet run
    writes: nat,                       // transport writes outstanding
    pushed: seq<OutMsg>,               // every frame ever queued
    written: seq<OutMsg>)              // every frame ever handed to the transport

  datatype Conn = Conn(
    cfg: Config,
    state: SessionState,
    internal: InternalState,
    isHttp: bool,
    ec: Cause,                         // m_ec
    pipe: Pipe,
    wasClean: bool,
    remoteCode: nat,
    remoteReason: seq<byte>,
    shutdowns: seq<TerminateStatus>,   // shutdown callbacks outstanding
    calls: seq<Handler>)               // the handlers called

  const EMPTY_PIPE := Pipe([], 0, [], false, 0, 0, [], [])

  function Initial(cfg: Config): Conn {
    Conn(cfg, Connecting, UserInit, false, NoError, EMPTY_PIPE, false, Close.ABNORMAL_CLOSE, [], [], [])
  }

  //
  // The write queue
  //

  function WritePush(p: Pipe, m: OutMsg): Pipe {
    p.(queue := p.queue + [m], bufferSize := p.bufferSize + |m.payload|, pushed := p.pushed + [m])
  }

  /** Queues a frame and, unless a write is under way, dispatches `write_frame`. */
  function Push(p: Pipe, m: OutMsg): Pipe {
    var q := WritePush(p, m);
    if q.writeFlag then q else q.(dispatched := q.dispatched + 1)
  }

  function Enqueue(c: Conn, m: OutMsg): Conn {
    c.(pipe := Push(c.pipe, m))
  }

  /** The frames one transport write takes: up to and including the first terminal one. */
  function Batch(queue: seq<OutMsg>): (b: seq<OutMsg>)
    ensures b <= queue
  {
    if queue == [] then [] else if queue[0].terminal then [queue[0]] else [queue[0]] + Batch(queue[1..])
  }

  function TotalSize(q: seq<OutMsg>): nat {
    if q == [] then 0 else |q[0].payload| + TotalSize(q[1..])
  }

  function TakeBatch(p: Pipe): Pipe {
    var b := Batch(p.queue);
    p.(queue := p.queue[|b|..], bufferSize := p.bufferSize - TotalSize(b), current := p.current + b)
  }

  /** Hands the frames taken to the transport, if there are any. */
  function StartWrite(p: Pipe): Pipe {
    if p.current == [] then p else p.(writeFlag := true, writes := p.writes + 1, written := p.written + p.current)
  }

  function WriteFrame(p: Pipe): Pipe
    requires p.dispatched > 0
  {
    var q := p.(dispatched := p.dispatched - 1);
    if q.writeFlag then q else StartWrite(TakeBatch(q))
  }

  /** Gives the write flag up, and dispatches `write_frame` if frames are waiting. */
  function Release(p: Pipe): Pipe {
    p.(writeFlag := false, dispatched := if p.queue == [] then p.dispatched else p.dispatched + 1)
  }

  function HandleWriteFrame(c: Conn, failed: bool): Conn
    requires c.pipe.writes > 0 && c.pipe.current != []
  {
    var terminal := c.pipe.current[|c.pipe.current| - 1].terminal;
    var d := c.(pipe := c.pipe.(current := [], writes := c.pipe.writes - 1));
    if failed then Terminate(d, OtherError)
    else if terminal then Terminate(d, NoError)
    else d.(pipe := Release(d.pipe))
  }

  //
  // Ending
  //

  function Terminate(c: Conn, ec: Cause): Conn {
    var d := if ec == NoError then c else c.(ec := ec);
    match d.state
    case Connecting => d.(state := Closed, shutdowns := d.shutdowns + [FailedStatus])
    case Closed => d
    case _ => d.(state := Closed, shutdowns := d.shutdowns + [ClosedStatus])
  }

  function HandleTerminate(c: Conn): Conn
    requires c.shutdowns != []
  {
    var called := match c.shutdowns[0]
      case FailedStatus => if c.ec == HttpConnectionEnded then [] else [FailHandler]
      case ClosedStatus => [CloseHandler];
    c.(shutdowns := c.shutdowns[1..], calls := c.calls + called + [TerminationHandler])
  }

  //
  // Opening
  //

  function Start(c: Conn): Conn {
    if c.internal != UserInit then Terminate(c, OtherError) else c.(internal := TransportInit)
  }

  function HandleTransportInit(c: Conn, failed: bool): Conn {
    if failed || c.internal != TransportInit then Terminate(c, OtherError) else c.(internal := ReadHttpRequest)
  }

  /** What a read of the opening handshake amounts to. */
  datatype HandshakeRead = NeedMore | ParseError | Complete(http: bool)

  /** The checks with which every handshake completion handler starts. */
  datatype Check = Proceed | Ignore | Abort

  function CheckHandshake(c: Conn, error: Option<ReadError>, expected: InternalState): Check {
    if error.None? then
      if c.state == Connecting then if c.internal == expected then Proceed else Abort
      else if c.state == Closed then Ignore
      else Abort
    else if error.value == Eof && c.state == Closed then Ignore
    else Abort
  }

  function HandleReadHandshake(c: Conn, error: Option<ReadError>, read: HandshakeRead): Conn {
    match CheckHandshake(c, error, ReadHttpRequest)
    case Ignore => c
    case Abort => Terminate(c, OtherError)
    case Proceed =>
      match read
      case NeedMore => c
      case ParseError => c.(internal := ProcessHttpRequest)
      case Complete(http) => c.(internal := ProcessHttpRequest, isHttp := http)
  }

  /** `switching`: the response written has status 101; `ec`: the error recorded with it. */
  function HandleWriteHttpResponse(c: Conn, error: Option<ReadError>, switching: bool, ec: Cause): Conn {
    match CheckHandshake(c, error, ProcessHttpRequest)
    case Ignore => c
    case Abort => Terminate(c, OtherError)
    case Proceed =>
      if !switching then Terminate(c, if c.isHttp then HttpConnectionEnded else ec)
      else c.(internal := ProcessConnection, state := Open, calls := c.calls + [OpenHandler])
  }

  //
  // Sending
  //

  /**
   Sending a message that is already prepared queues it as it is; `ok` is whether an unprepared one could be prepared.
   */
  function Send(c: Conn, prepared: bool, payload: seq<byte>, terminal: bool, ok: bool): Conn {
    if c.state != Open then c
    else if prepared then Enqueue(c, OutMsg(PreparedFrame, payload, terminal))
    else if !ok then c
    else Enqueue(c, OutMsg(DataFrame, payload, false))
  }

  function Ping(c: Conn, payload: seq<byte>): Conn {
    if c.state != Open || |payload| > PAYLOAD_SIZE_BASIC then c else Enqueue(c, OutMsg(PingFrame, payload, false))
  }

  function Pong(c: Conn, payload: seq<byte>): Conn {
    if c.state != Open || |payload| > PAYLOAD_SIZE_BASIC then c else Enqueue(c, OutMsg(PongFrame, payload, false))
  }

  /** The code and reason a close frame goes out with. */
  function LocalClose(c: Conn, code: nat, reason: seq<byte>, ack: bool): (nat, seq<byte>) {
    if code != Close.BLANK then (code, reason)
    else if !ack then (Close.NO_STATUS, [])
    else if c.remoteCode == Close.NO_STATUS then (Close.NORMAL, [])
    else (c.remoteCode, c.remoteReason)
  }

  /** The new state, and whether the frame could be prepared. */
  function SendCloseFrame(c: Conn, code: nat, reason: seq<byte>, ack: bool, terminal: bool): (Conn, bool)
    requires code < 0x10000 && c.remoteCode < 0x10000
  {
    var (local, why) := LocalClose(c, code, reason, ack);
    match Close.ClosePayload(local, why)
    case Err(_) => (c, false)
    case Ok(payload) =>
      (Enqueue(c.(state := Closing, wasClean := c.wasClean || ack), OutMsg(CloseFrame, payload, terminal)), true)
  }

  function SendCloseAck(c: Conn, code: nat, reason: seq<byte>): Conn
    requires code < 0x10000 && c.remoteCode < 0x10000
  {
    SendCloseFrame(c, code, reason, true, c.cfg.server).0
  }

  const CLOSE_REASON_SIZE := 123

  function CloseCall(c: Conn, code: nat, reason: seq<byte>): (Conn, bool)
    requires code < 0x10000 && c.remoteCode < 0x10000
  {
    var tr := if |reason| > CLOSE_REASON_SIZE then reason[..CLOSE_REASON_SIZE] else reason;
    if c.state != Open then (c, false) else SendCloseFrame(c, code, tr, false, Close.Terminal(code))
  }

  //
  // Receiving
  //

  /** "Invalid close code" */
  const INVALID_CODE_TEXT: seq<byte> :=
    [73, 110, 118, 97, 108, 105, 100, 32, 99, 108, 111, 115, 101, 32, 99, 111, 100, 101]

  /** "Invalid close reason" */
  const INVALID_REASON_TEXT: seq<byte> :=
    [73, 110, 118, 97, 108, 105, 100, 32, 99, 108, 111, 115, 101, 32, 114, 101, 97, 115, 111, 110]

  /** `reply` is the ping handler's answer. */
  function ProcessControlFrame(c: Conn, op: nat, payload: seq<byte>, reply: bool): Conn
    requires c.remoteCode < 0x10000
  {
    if c.state == Closed then c
    else if op != CLOSE && c.state != Open then c
    else if op == PING then if reply then Pong(c, payload) else c
    else if op == CLOSE then ProcessClose(c, payload)
    else c
  }

  function ProcessClose(c: Conn, payload: seq<byte>): Conn
    requires c.remoteCode < 0x10000
  {
    var (code, codeError) := Close.ExtractCode(payload);
    var d := c.(remoteCode := code);
    if codeError.Some? then RefuseClose(d, INVALID_CODE_TEXT)
    else
      var (reason, reasonError) := Close.ExtractReason(payload);
      var e := d.(remoteReason := reason);
      if reasonError.Some? then RefuseClose(e, INVALID_REASON_TEXT) else AcceptClose(e)
  }

  function RefuseClose(c: Conn, text: seq<byte>): Conn
    requires c.remoteCode < 0x10000
  {
    if c.cfg.dropOnProtocolError then Terminate(c, OtherError) else SendCloseAck(c, Close.PROTOCOL_ERROR, text)
  }

  function AcceptClose(c: Conn): Conn
    requires c.remoteCode < 0x10000
  {
    if c.state == Open then SendCloseAck(c, Close.BLANK, [])
    else if c.state == Closing && !c.wasClean then
      var d := c.(wasClean := true);
      if c.cfg.server then Terminate(d, NoError) else d
    else c
  }

  /** The error half of `handle_read_frame`. */
  function HandleReadError(c: Conn, error: ReadError): Conn {
    if c.state == Closed && error != Other then c
    else if error == Eof && c.state == Closing && !c.cfg.server then Terminate(c, NoError)
    else Terminate(c, OtherError)
  }

  /** The processor reported an error; `code` is the close code it maps to. */
  function HandleProtocolError(c: Conn, code: nat, text: seq<byte>): Conn
    requires code < 0x10000 && c.remoteCode < 0x10000
  {
    if c.cfg.dropOnProtocolError then Terminate(c, OtherError)
    else
      var (d, ok) := CloseCall(c, code, text);
      if ok then d else Terminate(d, OtherError)
  }
}
