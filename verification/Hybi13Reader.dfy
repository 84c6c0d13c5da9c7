/**
 The RFC 6455 frame reader (hybi13.hpp), one byte at a time. Class `Hybi13` reads whole buffers and is proved
 against this specification; the properties of the reader are proved here and in the files built on it.
 */
module Hybi13Reader {
  import opened Bytes
  import opened Wrappers
  import opened Frame
  import Masking
  import Utf8

  datatype Error =
    | ControlTooBig | InvalidRsvBit | InvalidOpcode | FragmentedControl | InvalidContinuation
    | MaskingRequired | MaskingForbidden | NonMinimalEncoding | MessageTooBig | InvalidUtf8

  datatype Message = Message(opcode: nat, payload: seq<byte>)

  /** `msg_metadata`; the prepared key is represented by the masking key it repeats. */
  datatype Metadata = Metadata(msg: Option<Message>, key: Masking.Key, utf8: Utf8.Decoder)

  datatype Config = Config(server: bool, maxSize: nat)

  /** Which field of the frame is being read, and what is known of it. */
  datatype Phase =
    | Basic(got: seq<byte>)
    | Extended(h: BasicHeader, got: seq<byte>)
    | Payload(h: BasicHeader, left: nat)
    | Done(h: BasicHeader)

  datatype Reader = Reader(cfg: Config, phase: Phase, data: Metadata, control: Metadata)

  datatype Outcome = Live(r: Reader) | Failed(error: Error)

  const NO_MESSAGE := Metadata(None, [0, 0, 0, 0], Utf8.FRESH)

  function Fresh(cfg: Config): Reader {
    Reader(cfg, Basic([]), NO_MESSAGE, NO_MESSAGE)
  }

  //
  // Header validation
  //

  function ValidateBasic(cfg: Config, h: BasicHeader, newMsg: bool): Option<Error> {
    var op := GetOpcode(h);
    if IsControl(op) && GetBasicSize(h) > PAYLOAD_SIZE_BASIC then Some(ControlTooBig)
    else if GetRsv1(h) then Some(InvalidRsvBit)
    else if GetRsv2(h) || GetRsv3(h) then Some(InvalidRsvBit)
    else if Reserved(op) then Some(InvalidOpcode)
    else if IsControl(op) && !GetFin(h) then Some(FragmentedControl)
    else if newMsg && op == CONTINUATION then Some(InvalidContinuation)
    else if !newMsg && !IsControl(op) && op != CONTINUATION then Some(InvalidContinuation)
    else if cfg.server && !GetMasked(h) then Some(MaskingRequired)
    else if !cfg.server && GetMasked(h) then Some(MaskingForbidden)
    else None
  }

  function ValidateExtended(h: BasicHeader, e: seq<byte>): Option<Error>
    requires |e| == ExtendedLen(h)
  {
    var size := GetPayloadSize(h, e);
    if GetBasicSize(h) == PAYLOAD_SIZE_CODE_16BIT && size <= PAYLOAD_SIZE_BASIC then Some(NonMinimalEncoding)
    else if GetBasicSize(h) == PAYLOAD_SIZE_CODE_64BIT && size <= PAYLOAD_SIZE_EXTENDED then Some(NonMinimalEncoding)
    else None
  }

  //
  // Invariant
  //

  /** The message the frame with header `h` belongs to. */
  function Current(r: Reader, h: BasicHeader): Metadata {
    if IsControl(GetOpcode(h)) then r.control else r.data
  }

  function SetCurrent(r: Reader, h: BasicHeader, m: Metadata): Reader {
    if IsControl(GetOpcode(h)) then r.(control := m) else r.(data := m)
  }

  /** `h` passed validation; once its payload is being read, an opcode other than 0 means it opened the message. */
  predicate Accepted(cfg: Config, h: BasicHeader) {
    ValidateBasic(cfg, h, GetOpcode(h) != CONTINUATION && !IsControl(GetOpcode(h))) == None
  }

  lemma AcceptedOnce(cfg: Config, h: BasicHeader, newMsg: bool)
    requires ValidateBasic(cfg, h, newMsg) == None
    ensures Accepted(cfg, h)
    ensures IsControl(GetOpcode(h)) ==> GetFin(h) && GetBasicSize(h) <= PAYLOAD_SIZE_BASIC
    ensures !IsControl(GetOpcode(h)) ==> GetOpcode(h) <= BINARY && (newMsg <==> GetOpcode(h) != CONTINUATION)
  {}

  /** The state of the open data message. */
  predicate DataOk(m: Metadata) {
    match m.msg
    case None => true
    case Some(msg) =>
      && (msg.opcode == TEXT || msg.opcode == BINARY)
      && (msg.opcode == TEXT ==> m.utf8 == Utf8.Run(Utf8.FRESH, msg.payload) && m.utf8.state != Utf8.REJECT)
      && m.utf8.state <= 8
  }

  /** What the frame in progress says about the message it belongs to. */
  predicate FrameOk(r: Reader, h: BasicHeader, left: nat) {
    && Accepted(r.cfg, h)
    && (if IsControl(GetOpcode(h))
        then r.control.msg.Some? && r.control.msg.value.opcode == GetOpcode(h)
             && |r.control.msg.value.payload| + left <= PAYLOAD_SIZE_BASIC
        else r.control.msg.None? && r.data.msg.Some?
             && (GetOpcode(h) != CONTINUATION ==> r.data.msg.value.opcode == GetOpcode(h)))
  }

  lemma FrameFacts(r: Reader, h: BasicHeader, left: nat)
    requires DataOk(r.data) && FrameOk(r, h, left)
    ensures Current(r, h).msg.Some?
    ensures !IsControl(GetOpcode(h)) ==> r.data.utf8.state <= 8
  {}

  predicate Valid(r: Reader) {
    && DataOk(r.data)
    && match r.phase
       case Basic(got) => |got| < 2 && r.control.msg.None?
       case Extended(h, got) =>
         |got| < ExtendedLen(h) && r.control.msg.None? && ValidateBasic(r.cfg, h, r.data.msg.None?) == None
       case Payload(h, left) => left > 0 && FrameOk(r, h, left)
       case Done(h) => GetFin(h) && FrameOk(r, h, 0) && (GetOpcode(h) == TEXT ==> r.data.utf8.state == Utf8.ACCEPT)
  }

  //
  // One byte
  //

  /** Ends the frame if no payload is left. */
  function AfterPayload(r: Reader, h: BasicHeader, left: nat): (o: Outcome)
    requires DataOk(r.data) && FrameOk(r, h, left)
    ensures o.Live? ==> Valid(o.r) && o.r.data == r.data && o.r.cfg == r.cfg
  {
    if left > 0 then Live(r.(phase := Payload(h, left)))
    else if GetFin(h) then
      if GetOpcode(h) == TEXT && Current(r, h).utf8.state != Utf8.ACCEPT then Failed(InvalidUtf8)
      else Live(r.(phase := Done(h)))
    else Live(r.(phase := Basic([])))
  }

  /** `size_t` addition. */
  function AddSize(a: nat, b: nat): nat {
    (a + b) % 0x1_0000_0000_0000_0000
  }

  /** Sets up the message a frame of `size` octets belongs to. */
  function Begin(r: Reader, h: BasicHeader, size: nat, key: Masking.Key): (o: Outcome)
    requires DataOk(r.data) && r.control.msg.None? && ValidateBasic(r.cfg, h, r.data.msg.None?) == None
    requires IsControl(GetOpcode(h)) ==> size <= PAYLOAD_SIZE_BASIC
    ensures o.Live? ==> Valid(o.r) && o.r.cfg == r.cfg
  {
    var started := Metadata(Some(Message(GetOpcode(h), [])), key, Utf8.FRESH);
    if IsControl(GetOpcode(h)) then AfterPayload(r.(control := started), h, size)
    else if r.data.msg.None? then
      if size > r.cfg.maxSize then Failed(MessageTooBig) else AfterPayload(r.(data := started), h, size)
    else if AddSize(|r.data.msg.value.payload|, size) > r.cfg.maxSize then Failed(MessageTooBig)
    else AfterPayload(r.(data := r.data.(key := key)), h, size)
  }

  /** A control frame's size is in its basic header. */
  lemma ControlSize(cfg: Config, h: BasicHeader, newMsg: bool, e: seq<byte>)
    requires |e| == ExtendedLen(h) && ValidateBasic(cfg, h, newMsg) == None
    ensures IsControl(GetOpcode(h)) ==> GetPayloadSize(h, e) <= PAYLOAD_SIZE_BASIC
  {}

  function AfterExtended(r: Reader, h: BasicHeader, got: seq<byte>): (o: Outcome)
    requires DataOk(r.data) && r.control.msg.None? && ValidateBasic(r.cfg, h, r.data.msg.None?) == None
    requires |got| <= ExtendedLen(h)
    ensures o.Live? ==> Valid(o.r) && o.r.cfg == r.cfg
  {
    if |got| < ExtendedLen(h) then Live(r.(phase := Extended(h, got)))
    else match ValidateExtended(h, got)
      case Some(e) => Failed(e)
      case None => Begin(r, h, GetPayloadSize(h, got), GetMaskingKey(h, got))
  }

  function AfterBasic(r: Reader, got: seq<byte>): (o: Outcome)
    requires DataOk(r.data) && r.control.msg.None? && |got| <= 2
    ensures o.Live? ==> Valid(o.r) && o.r.cfg == r.cfg
  {
    if |got| < 2 then Live(r.(phase := Basic(got)))
    else
      var h := BasicHeader(got[0], got[1]);
      match ValidateBasic(r.cfg, h, r.data.msg.None?)
      case Some(e) => Failed(e)
      case None => AfterExtended(r, h, [])
  }

  /** Unmasks, stores and validates payload bytes. */
  function Absorb(m: Metadata, masked: bool, bytes: seq<byte>): Metadata
    requires m.msg.Some?
  {
    var plain := if masked then Masking.Mask(bytes, m.key) else bytes;
    var msg := m.msg.value.(payload := m.msg.value.payload + plain);
    Metadata(Some(msg), if masked then Masking.Rotate(m.key, |bytes|) else m.key,
             if msg.opcode == TEXT then Utf8.Run(m.utf8, plain) else m.utf8)
  }

  predicate BadText(m: Metadata) {
    m.msg.Some? && m.msg.value.opcode == TEXT && m.utf8.state == Utf8.REJECT
  }

  /** The reader between frames, whatever it was reading. */
  function Idle(r: Reader): Reader {
    r.(phase := Basic([]))
  }

  /** `bytes` of the payload, all at once. */
  function TakePayload(r: Reader, h: BasicHeader, left: nat, bytes: seq<byte>): (o: Outcome)
    requires Valid(r) && r.phase == Payload(h, left) && |bytes| <= left
    ensures o.Live? ==> Valid(o.r) && o.r.cfg == r.cfg
  {
    var m := Absorb(Current(r, h), GetMasked(h), bytes);
    AbsorbOk(r, h, left, bytes);
    if BadText(m) then Failed(InvalidUtf8) else AfterPayload(SetCurrent(Idle(r), h, m), h, left - |bytes|)
  }

  lemma AbsorbOk(r: Reader, h: BasicHeader, left: nat, bytes: seq<byte>)
    requires Valid(r) && r.phase == Payload(h, left) && |bytes| <= left
    ensures var m := Absorb(Current(r, h), GetMasked(h), bytes);
      !BadText(m) ==> var s := SetCurrent(Idle(r), h, m); DataOk(s.data) && FrameOk(s, h, left - |bytes|)
  {
    var m := Current(r, h);
    var plain := if GetMasked(h) then Masking.Mask(bytes, m.key) else bytes;
    Utf8.RunConcat(Utf8.FRESH, m.msg.value.payload, plain);
    if m.utf8.state <= 8 {
      Utf8.RunStates(m.utf8, plain);
    }
  }

  function Step(r: Reader, b: byte): (o: Outcome)
    requires Valid(r)
    ensures o.Live? ==> Valid(o.r) && o.r.cfg == r.cfg
  {
    match r.phase
    case Basic(got) => AfterBasic(Idle(r), got + [b])
    case Extended(h, got) => AfterExtended(Idle(r), h, got + [b])
    case Payload(h, left) => TakePayload(r, h, left, [b])
    case Done(_) => Live(r)
  }

  //
  // Many bytes: up to the end of a message
  //

  /** What became of the reader, and how many bytes it took. */
  datatype Consumed = Consumed(o: Outcome, n: nat)

  function Consume(r: Reader, bytes: seq<byte>): (c: Consumed)
    requires Valid(r)
    ensures c.n <= |bytes| && (c.o.Live? ==> Valid(c.o.r) && c.o.r.cfg == r.cfg)
    ensures c.o.Live? ==> c.o.r.phase.Done? || c.n == |bytes|
    decreases |bytes|, 0
  {
    if bytes == [] || r.phase.Done? then Consumed(Live(r), 0) else Then(Step(r, bytes[0]), 1, bytes[1..])
  }

  /** Carries on from `o`, after `n` bytes, with `rest`. */
  function Then(o: Outcome, n: nat, rest: seq<byte>): (c: Consumed)
    requires o.Live? ==> Valid(o.r)
    ensures c.n <= n + |rest| && (c.o.Live? ==> Valid(c.o.r) && o.Live? && c.o.r.cfg == o.r.cfg)
    ensures c.o.Live? ==> c.o.r.phase.Done? || c.n == n + |rest|
    decreases |rest|, 1
  {
    if o.Failed? then Consumed(o, n)
    else
      var c := Consume(o.r, rest);
      c.(n := n + c.n)
  }

  /** Equal results; how far into a read an error is noticed does not matter. */
  predicate Same(c: Consumed, d: Consumed) {
    c.o == d.o && (c.o.Live? ==> c.n == d.n)
  }

  /** Both basic header bytes may be copied at once. */
  lemma BulkBasic(r: Reader, got: seq<byte>, bytes: seq<byte>, rest: seq<byte>)
    requires Valid(r) && r.phase == Basic(got) && bytes != [] && |got| + |bytes| <= 2
    ensures Same(Consume(r, bytes + rest), Then(AfterBasic(Idle(r), got + bytes), |bytes|, rest))
  {
    var x := bytes[0];
    assert (bytes + rest)[1..] == bytes[1..] + rest;
    if |bytes| == 1 {
      assert bytes == [x];
    } else {
      var y := bytes[1];
      var r1 := Step(r, x).r;
      assert [x] + [y] == got + bytes;
      assert Step(r1, y) == AfterBasic(Idle(r), got + bytes);
      assert bytes[1..] + rest == [y] + rest && ([y] + rest)[1..] == rest;
      hide Step, AfterBasic, Valid;
      assert Consume(r1, [y] + rest) == Then(Step(r1, y), 1, rest);
    }
  }

  /** An extended header byte that is not the last. */
  lemma ExtendedByte(r: Reader, h: BasicHeader, got: seq<byte>, x: byte)
    requires Valid(r) && r.phase == Extended(h, got) && |got| + 1 < ExtendedLen(h)
    ensures var r1 := r.(phase := Extended(h, got + [x]));
      Step(r, x) == Live(r1) && Valid(r1) && Idle(r1) == Idle(r)
  {
    hide DataOk, ValidateBasic, ExtendedLen;
  }

  lemma ConsumeByte(r: Reader, x: byte, more: seq<byte>)
    requires Valid(r) && !r.phase.Done?
    ensures Consume(r, [x] + more) == Then(Step(r, x), 1, more)
  {
    hide Step, Valid;
    assert ([x] + more)[1..] == more;
  }

  /** Extended header bytes may be copied several at a time. */
  lemma {:induction false} BulkExtended(r: Reader, h: BasicHeader, got: seq<byte>, bytes: seq<byte>, rest: seq<byte>)
    requires Valid(r) && r.phase == Extended(h, got) && bytes != [] && |got| + |bytes| <= ExtendedLen(h)
    ensures Same(Consume(r, bytes + rest), Then(AfterExtended(Idle(r), h, got + bytes), |bytes|, rest))
    decreases bytes
  {
    var x, more := bytes[0], bytes[1..];
    assert bytes + rest == [x] + (more + rest);
    ConsumeByte(r, x, more + rest);
    if more == [] {
      assert bytes == [x] && more + rest == rest;
      assert Step(r, x) == AfterExtended(Idle(r), h, got + [x]);
    } else {
      hide Step, AfterExtended, Valid, ExtendedLen;
      ExtendedByte(r, h, got, x);
      var r1 := r.(phase := Extended(h, got + [x]));
      BulkExtended(r1, h, got + [x], more, rest);
      assert got + [x] + more == got + bytes;
    }
  }

  lemma AbsorbConcat(m: Metadata, masked: bool, a: seq<byte>, b: seq<byte>)
    requires m.msg.Some?
    ensures Absorb(Absorb(m, masked, a), masked, b) == Absorb(m, masked, a + b)
    ensures BadText(Absorb(m, masked, a)) ==> BadText(Absorb(m, masked, a + b))
  {
    hide Masking.Mask, Masking.Rotate, Utf8.Run;
    Masking.MaskConcat(a, b, m.key);
    Masking.RotateRotate(m.key, |a|, |b|);
    var x := if masked then Masking.Mask(a, m.key) else a;
    var y := if masked then Masking.Mask(b, Masking.Rotate(m.key, |a|)) else b;
    Utf8.RunConcat(m.utf8, x, y);
    assert m.msg.value.payload + x + y == m.msg.value.payload + (x + y);
    if Utf8.Run(m.utf8, x).state == Utf8.REJECT {
      Utf8.RejectAbsorbs(Utf8.Run(m.utf8, x), y);
    }
  }

  lemma TakeTwice(r: Reader, h: BasicHeader, left: nat, a: seq<byte>, b: seq<byte>)
    requires Valid(r) && r.phase == Payload(h, left) && b != [] && |a| + |b| <= left
    ensures var o := TakePayload(r, h, left, a);
      match o
      case Failed(_) => TakePayload(r, h, left, a + b) == o
      case Live(r1) => r1.phase == Payload(h, left - |a|)
                       && TakePayload(r1, h, left - |a|, b) == TakePayload(r, h, left, a + b)
  {
    AbsorbConcat(Current(r, h), GetMasked(h), a, b);
    hide Absorb, Valid;
  }

  /** Payload bytes may be unmasked, stored and validated several at a time. */
  lemma {:induction false} BulkPayload(r: Reader, h: BasicHeader, left: nat, bytes: seq<byte>, rest: seq<byte>)
    requires Valid(r) && r.phase == Payload(h, left) && 0 < |bytes| <= left
    ensures Same(Consume(r, bytes + rest), Then(TakePayload(r, h, left, bytes), |bytes|, rest))
    decreases bytes
  {
    hide Valid, TakePayload;
    var x, more := bytes[0], bytes[1..];
    assert (bytes + rest)[1..] == more + rest;
    assert bytes == [x] + more;
    if more == [] {
      assert bytes == [x];
    } else {
      TakeTwice(r, h, left, [x], more);
      var o := Step(r, x);
      if o.Live? {
        BulkPayload(o.r, h, left - 1, more, rest);
      }
    }
  }

  //
  // Many bytes: delivering messages
  //

  /** A reader, the messages fetched from it so far, and the error that stopped it. */
  datatype Session = Session(r: Reader, out: seq<Message>, error: Option<Error>)

  predicate SessionOk(s: Session) {
    Valid(s.r) && !s.r.phase.Done?
  }

  /** `get_message` */
  function Fetch(r: Reader): (Message, Reader)
    requires Valid(r) && r.phase.Done?
  {
    var m := Current(r, r.phase.h);
    (m.msg.value, SetCurrent(Idle(r), r.phase.h, m.(msg := None)))
  }

  function Deliver(s: Session, r: Reader): (t: Session)
    requires Valid(r)
    ensures SessionOk(t) && t.r.cfg == r.cfg
  {
    if r.phase.Done? then Session(Fetch(r).1, s.out + [Fetch(r).0], None) else Session(r, s.out, None)
  }

  function FeedByte(s: Session, b: byte): (t: Session)
    requires SessionOk(s)
    ensures SessionOk(t) && t.r.cfg == s.r.cfg
  {
    if s.error.Some? then s
    else match Step(s.r, b)
      case Failed(e) => s.(error := Some(e))
      case Live(r) => Deliver(s, r)
  }

  function Feed(s: Session, bytes: seq<byte>): (t: Session)
    requires SessionOk(s)
    ensures SessionOk(t) && t.r.cfg == s.r.cfg
    decreases bytes
  {
    if bytes == [] then s else Feed(FeedByte(s, bytes[0]), bytes[1..])
  }

  lemma FeedNothing(s: Session)
    requires SessionOk(s)
    ensures Feed(s, []) == s
  {}

  lemma {:induction false} FeedConcat(s: Session, a: seq<byte>, b: seq<byte>)
    requires SessionOk(s)
    ensures Feed(s, a + b) == Feed(Feed(s, a), b)
    decreases a
  {
    if a == [] {
      assert a + b == b;
    } else {
      assert (a + b)[1..] == a[1..] + b;
      FeedConcat(FeedByte(s, a[0]), a[1..], b);
    }
  }

  function FeedChunks(s: Session, chunks: seq<seq<byte>>): (t: Session)
    requires SessionOk(s)
    ensures SessionOk(t)
    decreases chunks
  {
    if chunks == [] then s else FeedChunks(Feed(s, chunks[0]), chunks[1..])
  }

  /** What is delivered depends only on the byte stream, not on how the reads cut it. */
  lemma {:induction false} ChunkIndependence(s: Session, chunks: seq<seq<byte>>)
    requires SessionOk(s)
    ensures FeedChunks(s, chunks) == Feed(s, Flatten(chunks))
    decreases chunks
  {
    if chunks != [] {
      FeedConcat(s, chunks[0], Flatten(chunks[1..]));
      ChunkIndependence(Feed(s, chunks[0]), chunks[1..]);
    }
  }

  lemma {:induction false} FeedStopped(s: Session, bytes: seq<byte>)
    requires SessionOk(s) && s.error.Some?
    ensures Feed(s, bytes) == s
    decreases bytes
  {
    if bytes != [] {
      FeedStopped(s, bytes[1..]);
    }
  }

  /** One `consume` call followed by fetching the message, if one is ready. */
  lemma {:induction false} FeedConsumes(s: Session, bytes: seq<byte>)
    requires SessionOk(s) && s.error.None?
    ensures var c := Consume(s.r, bytes);
      match c.o
      case Failed(e) => Feed(s, bytes).error == Some(e) && Feed(s, bytes).out == s.out
      case Live(r) => Feed(s, bytes) == Feed(Deliver(s, r), bytes[c.n..])
    decreases bytes
  {
    hide Step, Valid, Fetch;
    if bytes != [] {
      match Step(s.r, bytes[0])
      case Failed(e) =>
        FeedStopped(FeedByte(s, bytes[0]), bytes[1..]);
      case Live(r) =>
        var c := Consume(r, bytes[1..]);
        assert Consume(s.r, bytes) == Consumed(c.o, 1 + c.n);
        if r.phase.Done? {
          assert bytes[1..] == bytes[1 + c.n..];
        } else {
          FeedConsumes(s.(r := r), bytes[1..]);
          if c.o.Live? {
            assert bytes[1..][c.n..] == bytes[1 + c.n..];
          }
        }
    }
  }

  /** Messages already delivered do not influence what follows. */
  lemma {:induction false} FeedPrefix(r: Reader, out: seq<Message>, bytes: seq<byte>)
    requires Valid(r) && !r.phase.Done?
    ensures var t := Feed(Session(r, [], None), bytes); Feed(Session(r, out, None), bytes) == t.(out := out + t.out)
    decreases bytes
  {
    hide Step, Valid, Fetch;
    if bytes != [] {
      var s, rest := FeedByte(Session(r, [], None), bytes[0]), bytes[1..];
      var u := FeedByte(Session(r, out, None), bytes[0]);
      assert u == s.(out := out + s.out);
      if s.error.Some? {
        FeedStopped(s, rest);
        FeedStopped(u, rest);
      } else {
        FeedPrefix(s.r, s.out, rest);
        FeedPrefix(s.r, u.out, rest);
        var t := Feed(Session(s.r, [], None), rest);
        assert out + s.out + t.out == out + (s.out + t.out);
      }
    }
  }
}
