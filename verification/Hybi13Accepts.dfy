/**
 The converse of the round trip: a byte stream the RFC 6455 reader takes without error is a sequence of legal frames and
 the beginning of one more, and the reader holds exactly what these amount to.
 */
module Hybi13Accepts {
  import opened Bytes
  import opened Wrappers
  import opened Frame
  import opened Hybi13Reader
  import opened Hybi13RoundTrip
  import opened Hybi13Safety
  import Masking
  import Utf8

  const NOTHING := Assembly(None, [])

  //
  // A frame being read
  //

  /** The frame with header `h` of which `bytes` have arrived; its payload is what has arrived of it. */
  function FrameIn(h: BasicHeader, bytes: seq<byte>): OutFrame
    requires |bytes| >= BASIC_HEADER_LENGTH + ExtendedLen(h)
  {
    var e, raw := ExtendedIn(h, bytes), PayloadIn(h, bytes);
    OutFrame(GetOpcode(h), GetFin(h), if GetMasked(h) then Masking.Mask(raw, GetMaskingKey(h, e)) else raw,
             if GetMasked(h) then Some(GetMaskingKey(h, e)) else None)
  }

  function ExtendedIn(h: BasicHeader, bytes: seq<byte>): (e: seq<byte>)
    requires |bytes| >= BASIC_HEADER_LENGTH + ExtendedLen(h)
    ensures |e| == ExtendedLen(h)
  {
    bytes[BASIC_HEADER_LENGTH..BASIC_HEADER_LENGTH + ExtendedLen(h)]
  }

  function PayloadIn(h: BasicHeader, bytes: seq<byte>): seq<byte>
    requires |bytes| >= BASIC_HEADER_LENGTH + ExtendedLen(h)
  {
    bytes[BASIC_HEADER_LENGTH + ExtendedLen(h)..]
  }

  /** `bytes` are a header `h` that may follow `a` and some payload after it, `left` bytes of which are to come. */
  predicate FrameBegun(cfg: Config, a: Assembly, h: BasicHeader, left: nat, bytes: seq<byte>) {
    && |bytes| >= BASIC_HEADER_LENGTH + ExtendedLen(h) && bytes[..BASIC_HEADER_LENGTH] == [h.b0, h.b1]
    && ValidateBasic(cfg, h, a.partial.None?) == None && ValidateExtended(h, ExtendedIn(h, bytes)) == None
    && GetPayloadSize(h, ExtendedIn(h, bytes)) == |PayloadIn(h, bytes)| + left
    && (!IsControl(GetOpcode(h)) ==> |Extend(a, FrameIn(h, bytes)).payload| + left <= cfg.maxSize)
  }

  /**
   The message buffers while that frame is being read: a data message is held exactly if one is unfinished or this is
   one, and a control message exactly if this is one. The key has been rotated past the payload that has arrived.
   */
  predicate Holds(data: Metadata, control: Metadata, a: Assembly, h: BasicHeader, bytes: seq<byte>)
    requires |bytes| >= BASIC_HEADER_LENGTH + ExtendedLen(h)
  {
    var f := FrameIn(h, bytes);
    && (f.key.Some? ==>
          (if IsControl(f.op) then control else data).key == Masking.Rotate(f.key.value, |PayloadIn(h, bytes)|))
    && if IsControl(f.op) then control.msg == Some(Message(f.op, f.payload)) && data.msg == a.partial
       else control.msg == None && data.msg == Some(Extend(a, f))
  }

  /** The reader has assembled `a` and then taken `bytes` of the next frame. */
  predicate Explains(r: Reader, a: Assembly, bytes: seq<byte>) {
    match r.phase
    case Basic(got) => bytes == got && r.data.msg == a.partial
    case Extended(h, got) => bytes == [h.b0, h.b1] + got && r.data.msg == a.partial
    case Payload(h, left) =>
      FrameBegun(r.cfg, a, h, left, bytes) && Holds(r.data, r.control, a, h, bytes)
    case Done(h) =>
      FrameBegun(r.cfg, a, h, 0, bytes) && Holds(r.data, r.control, a, h, bytes)
  }

  //
  // One byte
  //

  /** What a header that passed validation says of its frame. */
  lemma LegalHeader(cfg: Config, a: Assembly, h: BasicHeader, bytes: seq<byte>)
    requires FrameBegun(cfg, a, h, 0, bytes)
    ensures var f := FrameIn(h, bytes);
      && f.op < 16 && |f.payload| < SIZE_LIMIT && h == MakeBasic(f.op, |f.payload|, f.fin, f.key.Some?)
      && ExtendedIn(h, bytes) == MakeExtended(|f.payload|, f.key)
      && f.key.Some? == cfg.server
      && (IsControl(f.op) ==> f.op <= PONG && f.fin && |f.payload| <= PAYLOAD_SIZE_BASIC)
      && (!IsControl(f.op) ==> f.op <= BINARY && (f.op == CONTINUATION <==> a.partial.Some?))
  {
    var e := ExtendedIn(h, bytes);
    assert Minimal(h, GetPayloadSize(h, e));
    ControlSize(cfg, h, a.partial.None?, e);
    hide GetPayloadSize, MakeBasic, MakeExtended, Masking.Mask;
    HeaderIsBuilt(h, e);
  }

  /** The bytes of a frame read to its end are that frame on the wire. */
  lemma WireOf(cfg: Config, a: Assembly, h: BasicHeader, bytes: seq<byte>)
    requires FrameBegun(cfg, a, h, 0, bytes) && Sendable(FrameIn(h, bytes))
    ensures Wire(FrameIn(h, bytes)) == bytes
  {
    LegalHeader(cfg, a, h, bytes);
    var f, raw := FrameIn(h, bytes), PayloadIn(h, bytes);
    if f.key.Some? {
      Masking.MaskInvolution(raw, f.key.value, 0);
    }
    assert WirePayload(f) == raw;
    hide MakeBasic, MakeExtended, FrameIn, ValidateBasic, ValidateExtended, GetPayloadSize;
    assert bytes == bytes[..BASIC_HEADER_LENGTH] + ExtendedIn(h, bytes) + raw;
  }

  /** A frame read to its end is legal. */
  lemma LegalFrame(r: Reader, a: Assembly, h: BasicHeader, bytes: seq<byte>)
    requires FrameBegun(r.cfg, a, h, 0, bytes) && Holds(r.data, r.control, a, h, bytes) && DataOk(r.data)
    requires r.cfg.maxSize < 0x8000_0000_0000_0000
    requires GetOpcode(h) == TEXT && GetFin(h) ==> r.data.utf8.state == Utf8.ACCEPT
    ensures Legal(r.cfg, a, FrameIn(h, bytes))
  {
    LegalHeader(r.cfg, a, h, bytes);
    hide MakeBasic, MakeExtended, ValidateBasic, ValidateExtended, GetPayloadSize, Masking.Mask, Utf8.Run;
  }

  /** The message buffers once a header has been accepted. */
  function Started(r: Reader, h: BasicHeader, key: Masking.Key): Reader {
    if !IsControl(GetOpcode(h)) && r.data.msg.Some? then r.(data := r.data.(key := key))
    else SetCurrent(r, h, Metadata(Some(Message(GetOpcode(h), [])), key, Utf8.FRESH))
  }

  lemma Begins(r: Reader, a: Assembly, h: BasicHeader, e: seq<byte>)
    requires DataOk(r.data) && r.phase == Basic([]) && r.control.msg.None? && r.data.msg == a.partial && Bounded(r)
    requires |e| == ExtendedLen(h) && ValidateBasic(r.cfg, h, a.partial.None?) == None && ValidateExtended(h, e) == None
    requires Fits(r, h, GetPayloadSize(h, e))
    requires IsControl(GetOpcode(h)) ==> GetPayloadSize(h, e) <= PAYLOAD_SIZE_BASIC
    ensures var size, key, bytes := GetPayloadSize(h, e), GetMaskingKey(h, e), [h.b0, h.b1] + e;
      var s := Started(r, h, key);
      Begin(r, h, size, key).Live? ==>
        && DataOk(s.data) && FrameOk(s, h, size) && Begin(r, h, size, key) == AfterPayload(s, h, size)
        && FrameBegun(r.cfg, a, h, size, bytes) && Holds(s.data, s.control, a, h, bytes)
  {
    AcceptedOnce(r.cfg, h, r.data.msg.None?);
    var bytes := [h.b0, h.b1] + e;
    assert ExtendedIn(h, bytes) == e && PayloadIn(h, bytes) == [];
    var key := GetMaskingKey(h, e);
    assert Masking.Rotate(key, 0) == key;
    if a.partial.Some? {
      assert a.partial.value.payload + [] == a.partial.value.payload;
    }
    hide ValidateBasic, ValidateExtended, GetPayloadSize, GetMaskingKey, AfterPayload, ExtendedIn, PayloadIn;
  }

  /** One more byte of payload, unmasked. */
  lemma PayloadGrows(h: BasicHeader, bytes: seq<byte>, b: byte)
    requires |bytes| >= BASIC_HEADER_LENGTH + ExtendedLen(h)
    ensures ExtendedIn(h, bytes + [b]) == ExtendedIn(h, bytes) && PayloadIn(h, bytes + [b]) == PayloadIn(h, bytes) + [b]
    ensures var f, n := FrameIn(h, bytes), |PayloadIn(h, bytes)|;
      FrameIn(h, bytes + [b]) == f.(payload := f.payload +
        if f.key.Some? then Masking.Mask([b], Masking.Rotate(f.key.value, n)) else [b])
  {
    var raw := PayloadIn(h, bytes);
    assert ExtendedIn(h, bytes + [b]) == ExtendedIn(h, bytes) && PayloadIn(h, bytes + [b]) == raw + [b];
    hide ExtendedIn, PayloadIn;
    if GetMasked(h) {
      Masking.MaskConcat(raw, [b], GetMaskingKey(h, ExtendedIn(h, bytes)));
    }
  }

  /** Where the reader is after some bytes: in the frame begun, or at the boundary after it. */
  predicate Follows(r: Reader, a: Assembly, bytes: seq<byte>) {
    if r.phase == Basic([]) then
      && |bytes| >= BASIC_HEADER_LENGTH
      && var h := BasicHeader(bytes[0], bytes[1]);
      && |bytes| >= BASIC_HEADER_LENGTH + ExtendedLen(h)
      && Completes(r.cfg, a, FrameIn(h, bytes), bytes) && r.data.msg == Accept(a, FrameIn(h, bytes)).partial
      && Accept(a, FrameIn(h, bytes)).out == a.out
    else Explains(r, a, bytes)
  }

  /** `bytes` are the frame `f`, and it may follow `a`. */
  predicate Completes(cfg: Config, a: Assembly, f: OutFrame, bytes: seq<byte>) {
    Legal(cfg, a, f) && Wire(f) == bytes
  }

  lemma Ends(r: Reader, a: Assembly, h: BasicHeader, left: nat, bytes: seq<byte>)
    requires DataOk(r.data) && FrameOk(r, h, left) && r.cfg.maxSize < 0x8000_0000_0000_0000
    requires FrameBegun(r.cfg, a, h, left, bytes) && Holds(r.data, r.control, a, h, bytes)
    ensures var o := AfterPayload(r, h, left); o.Live? ==> Follows(o.r, a, bytes)
  {
    assert [bytes[0], bytes[1]] == bytes[..2];
    if left == 0 && !GetFin(h) {
      LegalFrame(r, a, h, bytes);
      WireOf(r.cfg, a, h, bytes);
    }
    hide DataOk, FrameIn, Wire, ValidateBasic, ValidateExtended, FrameBegun;
  }

  lemma FrameGrows(cfg: Config, a: Assembly, h: BasicHeader, left: nat, bytes: seq<byte>, b: byte)
    requires FrameBegun(cfg, a, h, left, bytes) && left > 0
    ensures FrameBegun(cfg, a, h, left - 1, bytes + [b])
  {
    PayloadGrows(h, bytes, b);
    hide ValidateBasic, ValidateExtended, GetPayloadSize, Masking.Mask, Masking.Rotate, ExtendedIn, PayloadIn, FrameIn;
    assert (bytes + [b])[..2] == bytes[..2];
  }

  lemma ExtendMore(a: Assembly, f: OutFrame, more: seq<byte>)
    ensures var g := f.(payload := f.payload + more);
      Extend(a, g) == Extend(a, f).(payload := Extend(a, f).payload + more)
  {
    if a.partial.Some? {
      assert a.partial.value.payload + f.payload + more == a.partial.value.payload + (f.payload + more);
    }
  }

  lemma HoldsGrows(data: Metadata, control: Metadata, a: Assembly, h: BasicHeader, bytes: seq<byte>, b: byte)
    requires |bytes| >= BASIC_HEADER_LENGTH + ExtendedLen(h) && Holds(data, control, a, h, bytes)
    ensures var m := Absorb(if IsControl(GetOpcode(h)) then control else data, GetMasked(h), [b]);
      if IsControl(GetOpcode(h)) then Holds(data, m, a, h, bytes + [b]) else Holds(m, control, a, h, bytes + [b])
  {
    PayloadGrows(h, bytes, b);
    var f, n := FrameIn(h, bytes), |PayloadIn(h, bytes)|;
    assert f.key.Some? <==> GetMasked(h);
    hide Masking.Mask, Masking.Rotate, Utf8.Run, ExtendedIn, PayloadIn, ExtendedLen, Extend;
    if f.key.Some? {
      Masking.RotateRotate(f.key.value, n, 1);
      ExtendMore(a, f, Masking.Mask([b], Masking.Rotate(f.key.value, n)));
    } else {
      ExtendMore(a, f, [b]);
    }
  }

  lemma TakesPayload(r: Reader, a: Assembly, h: BasicHeader, left: nat, bytes: seq<byte>, b: byte)
    requires Valid(r) && r.phase == Payload(h, left)
    requires FrameBegun(r.cfg, a, h, left, bytes) && Holds(r.data, r.control, a, h, bytes)
    requires r.cfg.maxSize < 0x8000_0000_0000_0000
    ensures var o := TakePayload(r, h, left, [b]); o.Live? ==> Follows(o.r, a, bytes + [b])
  {
    AbsorbOk(r, h, left, [b]);
    FrameGrows(r.cfg, a, h, left, bytes, b);
    HoldsGrows(r.data, r.control, a, h, bytes, b);
    var m := Absorb(Current(r, h), GetMasked(h), [b]);
    hide Absorb, DataOk, FrameBegun, Holds, BadText, FrameOk, Follows, AfterPayload;
    if !BadText(m) {
      Ends(SetCurrent(Idle(r), h, m), a, h, left - 1, bytes + [b]);
    }
  }

  lemma TakesExtended(r: Reader, a: Assembly, h: BasicHeader, got: seq<byte>)
    requires DataOk(r.data) && r.phase == Basic([]) && r.control.msg.None? && r.data.msg == a.partial && Bounded(r)
    requires |got| <= ExtendedLen(h) && ValidateBasic(r.cfg, h, a.partial.None?) == None
    requires |got| == ExtendedLen(h) ==> Fits(r, h, GetPayloadSize(h, got))
    requires r.cfg.maxSize < 0x8000_0000_0000_0000
    ensures var o := AfterExtended(r, h, got); o.Live? ==> Follows(o.r, a, [h.b0, h.b1] + got)
  {
    hide DataOk, FrameOk, ValidateExtended, GetPayloadSize, Begin, Fits, FrameBegun, Holds, Completes, AfterPayload;
    if |got| == ExtendedLen(h) && ValidateExtended(h, got) == None {
      ControlSize(r.cfg, h, a.partial.None?, got);
      hide ValidateBasic, Follows;
      Begins(r, a, h, got);
      var size, key := GetPayloadSize(h, got), GetMaskingKey(h, got);
      if Begin(r, h, size, key).Live? {
        Ends(Started(r, h, key), a, h, size, [h.b0, h.b1] + got);
      }
    }
  }

  /** One byte takes the reader on in the frame it is reading, or to the end of it. */
  lemma StepFollows(r: Reader, a: Assembly, bytes: seq<byte>, b: byte)
    requires Valid(r) && !r.phase.Done? && Explains(r, a, bytes) && Bounded(r) && NoWrap(r, b)
    requires r.cfg.maxSize < 0x8000_0000_0000_0000
    ensures Step(r, b).Live? ==> Follows(Step(r, b).r, a, bytes + [b])
  {
    hide ValidateBasic, DataOk, AfterExtended, Follows, TakePayload;
    match r.phase
    case Basic(got) =>
      if |got| == 1 {
        var h := BasicHeader(got[0], b);
        assert got + [b] == [h.b0, h.b1] && [h.b0, h.b1] + [] == [h.b0, h.b1];
        if ValidateBasic(r.cfg, h, r.data.msg.None?) == None {
          TakesExtended(Idle(r), a, h, []);
        }
      } else {
        assert got == [] && bytes + [b] == [b];
        FirstByte(r, a, b);
      }
    case Extended(h, got) =>
      assert [h.b0, h.b1] + got + [b] == [h.b0, h.b1] + (got + [b]);
      TakesExtended(Idle(r), a, h, got + [b]);
    case Payload(h, left) => TakesPayload(r, a, h, left, bytes, b);
  }

  lemma FirstByte(r: Reader, a: Assembly, b: byte)
    requires Valid(r) && r.phase == Basic([]) && r.data.msg == a.partial
    ensures Step(r, b).Live? && Follows(Step(r, b).r, a, [b])
  {
    assert [] + [b] == [b];
  }

  /** A complete message leaves the reader at the boundary after its last frame. */
  lemma Delivers(s: Session, r: Reader, a: Assembly, h: BasicHeader, bytes: seq<byte>)
    requires Valid(r) && r.phase == Done(h) && Explains(r, a, bytes) && s.out == a.out
    requires r.cfg.maxSize < 0x8000_0000_0000_0000
    ensures |bytes| >= BASIC_HEADER_LENGTH + ExtendedLen(h)
    ensures var f, t := FrameIn(h, bytes), Deliver(s, r);
      Completes(r.cfg, a, f, bytes) && t.out == Accept(a, f).out && Explains(t.r, Accept(a, f), [])
  {
    hide ValidateBasic, ValidateExtended, DataOk, FrameIn, Wire, Utf8.Run, GetPayloadSize;
    LegalFrame(r, a, h, bytes);
    WireOf(r.cfg, a, h, bytes);
    LegalHeader(r.cfg, a, h, bytes);
    hide FrameBegun, Legal;
  }

  //
  // Many bytes
  //

  /** The session has taken the frames `fs` and then `bytes` of the next. */
  predicate Explained(s: Session, fs: seq<OutFrame>, bytes: seq<byte>) {
    var a := AcceptAll(NOTHING, fs);
    LegalAll(s.r.cfg, NOTHING, fs) && s.out == a.out && Explains(s.r, a, bytes)
  }

  /** One more legal frame. */
  lemma {:induction false} OneMore(cfg: Config, a: Assembly, fs: seq<OutFrame>, f: OutFrame)
    requires LegalAll(cfg, a, fs) && Legal(cfg, AcceptAll(a, fs), f)
    ensures LegalAll(cfg, a, fs + [f]) && AcceptAll(a, fs + [f]) == Accept(AcceptAll(a, fs), f)
    ensures forall i :: 0 <= i < |fs| ==> Sendable(fs[i])
    ensures forall i :: 0 <= i <= |fs| ==> Sendable((fs + [f])[i])
    ensures WireAll(fs + [f]) == WireAll(fs) + Wire(f)
    decreases fs
  {
    hide Legal, Accept, Wire, Sendable;
    LegalSendable(cfg, a, fs);
    assert Sendable(f) by { LegalSends(cfg, AcceptAll(a, fs), f); }
    if fs == [] {
      assert [] + [f] == [f] && [f][1..] == [];
      assert WireAll([f]) == Wire(f) + WireAll([]);
    } else {
      OneMore(cfg, Accept(a, fs[0]), fs[1..], f);
      assert (fs + [f])[1..] == fs[1..] + [f];
    }
  }

  lemma LegalSends(cfg: Config, a: Assembly, f: OutFrame)
    requires Legal(cfg, a, f)
    ensures Sendable(f)
  {
  }

  /** `bytes` are the frames `fs` on the wire and `more`. */
  predicate Splits(bytes: seq<byte>, fs: seq<OutFrame>, more: seq<byte>) {
    (forall i :: 0 <= i < |fs| ==> Sendable(fs[i])) && bytes == WireAll(fs) + more
  }

  lemma FramesGrow(cfg: Config, whole: seq<byte>, fs: seq<OutFrame>, f: OutFrame, bytes: seq<byte>)
    requires LegalAll(cfg, NOTHING, fs) && Completes(cfg, AcceptAll(NOTHING, fs), f, bytes)
    requires Splits(whole, fs, bytes)
    ensures Splits(whole, fs + [f], [])
    ensures LegalAll(cfg, NOTHING, fs + [f])
    ensures AcceptAll(NOTHING, fs + [f]) == Accept(AcceptAll(NOTHING, fs), f)
  {
    hide LegalAll, AcceptAll, Accept, Legal, Wire, WireAll, Sendable;
    OneMore(cfg, NOTHING, fs, f);
    assert whole + [] == whole;
  }

  lemma StepExplained(s: Session, whole: seq<byte>, fs: seq<OutFrame>, bytes: seq<byte>, b: byte)
    returns (gs: seq<OutFrame>, more: seq<byte>)
    requires SessionOk(s) && s.error.None? && Bounded(s.r) && NoWrap(s.r, b)
    requires s.r.cfg.maxSize < 0x8000_0000_0000_0000
    requires Explained(s, fs, bytes) && Splits(whole, fs, bytes)
    ensures FeedByte(s, b).error.None? ==> Explained(FeedByte(s, b), gs, more) && Splits(whole + [b], gs, more)
  {
    var a, now := AcceptAll(NOTHING, fs), bytes + [b];
    gs, more := fs, now;
    assert WireAll(fs) + now == WireAll(fs) + bytes + [b];
    assert Splits(whole + [b], fs, now);
    StepFollows(s.r, a, bytes, b);
    hide Step, Valid, Fetch, LegalAll, AcceptAll, WireAll, Accept, FrameIn, Completes, Splits;
    var o := Step(s.r, b);
    if o.Live? && (o.r.phase == Basic([]) || o.r.phase.Done?) {
      if o.r.phase.Done? {
        Delivers(s, o.r, a, o.r.phase.h, now);
      }
      var f := FrameIn(if o.r.phase.Done? then o.r.phase.h else BasicHeader(now[0], now[1]), now);
      FramesGrow(s.r.cfg, whole + [b], fs, f, now);
      gs, more := fs + [f], [];
    }
  }

  lemma {:induction false} FeedExplained(s: Session, whole: seq<byte>, fs: seq<OutFrame>, bytes: seq<byte>,
                                         rest: seq<byte>)
    returns (gs: seq<OutFrame>, more: seq<byte>)
    requires SessionOk(s) && Bounded(s.r) && NoWraps(s, rest)
    requires s.r.cfg.maxSize < 0x8000_0000_0000_0000 && forall m :: m in s.out ==> Short(m, s.r.cfg.maxSize)
    requires s.error.None? ==> Explained(s, fs, bytes) && Splits(whole, fs, bytes)
    ensures Feed(s, rest).error.None? ==> Explained(Feed(s, rest), gs, more) && Splits(whole + rest, gs, more)
    decreases rest
  {
    gs, more := fs, bytes;
    hide FeedByte, SessionOk, Explained, Bounded, NoWrap, Short, Splits;
    if s.error.Some? {
      FeedStopped(s, rest);
    } else if rest == [] {
      assert whole + [] == whole;
    } else {
      var b := rest[0];
      ByteBounded(s, b);
      gs, more := StepExplained(s, whole, fs, bytes, b);
      gs, more := FeedExplained(FeedByte(s, b), whole + [b], gs, more, rest[1..]);
      assert whole + [b] + rest[1..] == whole + rest;
    }
  }

  /** A data message is held: one is unfinished, or the payload of its next frame is being read. */
  predicate Unfinished(fs: seq<OutFrame>, p: Phase) {
    AcceptAll(NOTHING, fs).partial.Some? || (p.Payload? && !IsControl(GetOpcode(p.h)))
  }

  function Begun(cfg: Config, bytes: seq<byte>): Session {
    Feed(Session(Fresh(cfg), [], None), bytes)
  }

  /**
   Nothing but legal frames is taken: as long as there is no error, the bytes so far are a legal sequence of frames
   and the beginning of another; the messages delivered are those of the sequence, and the data message is held
   exactly while one is unfinished.
   */
  lemma AcceptsOnlyLegal(cfg: Config, bytes: seq<byte>) returns (fs: seq<OutFrame>, more: seq<byte>)
    requires cfg.maxSize < 0x8000_0000_0000_0000 && NoWraps(Session(Fresh(cfg), [], None), bytes)
    ensures var s, a := Begun(cfg, bytes), AcceptAll(NOTHING, fs);
      s.error.None? ==>
        && LegalAll(cfg, NOTHING, fs) && Splits(bytes, fs, more)
        && s.out == a.out && Explains(s.r, a, more)
        && (s.r.data.msg.Some? <==> Unfinished(fs, s.r.phase))
        && (s.r.phase == Basic([]) <==> more == [])
  {
    fs, more := FeedExplained(Session(Fresh(cfg), [], None), [], [], [], bytes);
    assert [] + bytes == bytes;
    hide Feed, NoWraps, AcceptAll, LegalAll, WireAll;
  }

  /** A stream is taken whole, up to a frame boundary, exactly if it is a legal sequence of frames. */
  lemma TakenIffLegal(cfg: Config, bytes: seq<byte>)
    requires cfg.maxSize < 0x8000_0000_0000_0000 && NoWraps(Session(Fresh(cfg), [], None), bytes)
    ensures var s := Begun(cfg, bytes);
      s.error.None? && s.r.phase == Basic([]) <==> exists fs :: LegalAll(cfg, NOTHING, fs) && Splits(bytes, fs, [])
  {
    var s := Begun(cfg, bytes);
    hide Feed, NoWraps, LegalAll, WireAll;
    if s.error.None? && s.r.phase == Basic([]) {
      var fs, more := AcceptsOnlyLegal(cfg, bytes);
      assert LegalAll(cfg, NOTHING, fs) && Splits(bytes, fs, []);
    }
    forall fs | LegalAll(cfg, NOTHING, fs) && Splits(bytes, fs, [])
      ensures s.error.None? && s.r.phase == Basic([])
    {
      assert WireAll(fs) + [] == WireAll(fs);
      RoundTrip(Session(Fresh(cfg), [], None), cfg, NOTHING, fs);
    }
  }
}
