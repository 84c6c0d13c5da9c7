/**
 What holds of the RFC 6455 reader in every reachable state, and of every message it delivers.
 */
module Hybi13Safety {
  import opened Bytes
  import opened Wrappers
  import opened Frame
  import opened Hybi13Reader
  import opened Hybi13RoundTrip
  import Masking
  import Utf8

  //
  // Control frames
  //

  /** A control frame is being read. */
  predicate InControl(p: Phase) {
    match p
    case Basic(_) => false
    case Extended(h, _) => IsControl(GetOpcode(h))
    case Payload(h, _) => IsControl(GetOpcode(h))
    case Done(h) => IsControl(GetOpcode(h))
  }

  /**
   An interleaved control frame leaves the open data message, its key and its validator alone, up to and including
   delivery.
   */
  lemma ControlKeepsData(s: Session, b: byte)
    requires SessionOk(s) && s.error.None?
    ensures match Step(s.r, b)
      case Failed(_) => FeedByte(s, b).r == s.r
      case Live(r) => InControl(r.phase) ==> FeedByte(s, b).r.data == s.r.data
  {
    hide Absorb, DataOk, FrameOk, ValidateExtended, ValidateBasic;
  }

  /** Control frames are unfragmented and short. */
  lemma ControlIsSmall(r: Reader)
    requires Valid(r) && InControl(r.phase)
    ensures GetFin(r.phase.h) && GetBasicSize(r.phase.h) <= PAYLOAD_SIZE_BASIC
  {
  }

  //
  // Delivered messages
  //

  /** A message as it may be delivered; text is at least the beginning of well-formed UTF-8. */
  ghost predicate Deliverable(m: Message) {
    && m.opcode in {TEXT, BINARY, CLOSE, PING, PONG}
    && (IsControl(m.opcode) ==> |m.payload| <= PAYLOAD_SIZE_BASIC)
    && (m.opcode == TEXT ==> exists t: seq<byte> :: Utf8.WellFormed(m.payload + t))
  }

  lemma FetchDeliverable(r: Reader)
    requires Valid(r) && r.phase.Done?
    ensures Deliverable(Fetch(r).0)
    ensures GetOpcode(r.phase.h) == TEXT ==> Fetch(r).0.opcode == TEXT && Utf8.WellFormed(Fetch(r).0.payload)
    ensures Fetch(r).0.opcode == TEXT ==> (Utf8.WellFormed(Fetch(r).0.payload) <==> r.data.utf8.state == Utf8.ACCEPT)
    ensures IsControl(GetOpcode(r.phase.h)) ==> Fetch(r).0.opcode == GetOpcode(r.phase.h)
  {
    hide Utf8.Run, Utf8.WellFormed;
    var m := Fetch(r).0;
    if m.opcode == TEXT {
      Utf8.NotRejectedIsPrefix(m.payload);
      Utf8.AcceptsExactlyWellFormed(m.payload);
    }
  }

  /** Over every run, every delivered message is deliverable. */
  lemma {:induction false} AllDeliverable(s: Session, bytes: seq<byte>)
    requires SessionOk(s) && forall m :: m in s.out ==> Deliverable(m)
    ensures forall m :: m in Feed(s, bytes).out ==> Deliverable(m)
    decreases bytes
  {
    hide Deliverable, Step, Valid, Fetch;
    if bytes != [] {
      var t := FeedByte(s, bytes[0]);
      if s.error.None? {
        var o := Step(s.r, bytes[0]);
        if o.Live? && o.r.phase.Done? {
          FetchDeliverable(o.r);
        }
      }
      AllDeliverable(t, bytes[1..]);
    }
  }

  /** The frames of a text message whose only character is cut short. */
  function CutShort(key: Option<Masking.Key>): seq<OutFrame> {
    [OutFrame(TEXT, false, [0xC3], key), OutFrame(CONTINUATION, true, [], key)]
  }

  /**
   The completeness check looks at the opcode of the last frame, so a text message in fragments is delivered although
   its last character is cut short; by `FetchDeliverable` it is well formed exactly when the validator is between
   characters.
   */
  lemma FragmentedTextMayBeIncomplete(cfg: Config, key: Masking.Key)
    requires cfg.maxSize > 0
    ensures var fs := CutShort(MaskedKey(cfg.server, key));
      LegalAll(cfg, Assembly(None, []), fs) && forall i :: 0 <= i < |fs| ==> Sendable(fs[i])
    ensures var s := Feed(Session(Fresh(cfg), [], None), WireAll(CutShort(MaskedKey(cfg.server, key))));
      s.error.None? && s.out == [Message(TEXT, [0xC3])] && !Utf8.WellFormed([0xC3])
  {
    var fs, a := CutShort(MaskedKey(cfg.server, key)), Assembly(None, []);
    var b := Accept(a, fs[0]);
    Utf8.AcceptsExactlyWellFormed([0xC3]);
    assert Utf8.Run(Utf8.FRESH, [0xC3]).state == 2;
    assert Legal(cfg, a, fs[0]);
    assert Extend(b, fs[1]).payload == [0xC3];
    assert Legal(cfg, b, fs[1]) && fs[1..] == [fs[1]] && fs[1..][1..] == [];
    assert LegalAll(cfg, Accept(b, fs[1]), []);
    assert LegalAll(cfg, b, fs[1..]);
    RoundTrip(Session(Fresh(cfg), [], None), cfg, a, fs);
    assert AcceptAll(b, fs[1..]) == Accept(b, fs[1]);
  }

  //
  // The size limit
  //

  /** Payload of the data message stored so far. */
  function Stored(r: Reader): nat {
    if r.data.msg.Some? then |r.data.msg.value.payload| else 0
  }

  /** Payload stored so far plus payload to come. */
  function Claimed(r: Reader): nat {
    Stored(r) + if r.phase.Payload? && !IsControl(GetOpcode(r.phase.h)) then r.phase.left else 0
  }

  predicate Bounded(r: Reader) {
    Claimed(r) <= r.cfg.maxSize
  }

  /** The stored payload and the payload announced by `h` add up without wrapping. */
  predicate Fits(r: Reader, h: BasicHeader, size: nat) {
    IsControl(GetOpcode(h)) || Stored(r) + size < SIZE_LIMIT
  }

  /** If `b` completes a header, the length it announces can be added to what is stored. */
  predicate NoWrap(r: Reader, b: byte) {
    match r.phase
    case Basic(got) =>
      |got| == 1 ==> var h := BasicHeader(got[0], b); ExtendedLen(h) == 0 ==> Fits(r, h, GetBasicSize(h))
    case Extended(h, got) => |got| + 1 == ExtendedLen(h) ==> Fits(r, h, GetPayloadSize(h, got + [b]))
    case _ => true
  }

  predicate NoWraps(s: Session, bytes: seq<byte>)
    requires SessionOk(s)
    decreases bytes
  {
    bytes == [] || (NoWrap(s.r, bytes[0]) && NoWraps(FeedByte(s, bytes[0]), bytes[1..]))
  }

  /** If `b` completes a header, the length it announces has its top bit clear (section 5.2 of RFC 6455). */
  predicate LegalLength(r: Reader, b: byte) {
    match r.phase
    case Extended(h, got) =>
      |got| + 1 == ExtendedLen(h) ==> GetPayloadSize(h, got + [b]) < 0x8000_0000_0000_0000
    case _ => true
  }

  predicate LegalLengths(s: Session, bytes: seq<byte>)
    requires SessionOk(s)
    decreases bytes
  {
    bytes == [] || (LegalLength(s.r, bytes[0]) && LegalLengths(FeedByte(s, bytes[0]), bytes[1..]))
  }

  lemma AnnouncedSize(h: BasicHeader, e: seq<byte>)
    requires |e| >= GetMaskingKeyOffset(h)
    ensures GetPayloadSize(h, e) < SIZE_LIMIT
  {
    hide BigEndian, Pow256;
    OctetLimits();
    ToBigEndianOf(e[..GetMaskingKeyOffset(h)]);
  }

  /** Accepting a frame keeps the bound exactly when the sum the code compares with the limit did not wrap. */
  lemma BeginBounded(r: Reader, h: BasicHeader, size: nat, key: Masking.Key)
    requires DataOk(r.data) && r.control.msg.None? && ValidateBasic(r.cfg, h, r.data.msg.None?) == None
    requires IsControl(GetOpcode(h)) ==> size <= PAYLOAD_SIZE_BASIC
    requires r.phase == Basic([]) && Bounded(r) && r.cfg.maxSize < SIZE_LIMIT && size < SIZE_LIMIT
    ensures var o := Begin(r, h, size, key); o.Live? ==> (Bounded(o.r) <==> Fits(r, h, size))
  {
  }

  lemma ExtendedBounded(r: Reader, h: BasicHeader, got: seq<byte>)
    requires DataOk(r.data) && r.control.msg.None? && ValidateBasic(r.cfg, h, r.data.msg.None?) == None
    requires |got| <= ExtendedLen(h) && r.phase == Basic([]) && Bounded(r) && r.cfg.maxSize < SIZE_LIMIT
    ensures var o := AfterExtended(r, h, got);
      o.Live? ==> (Bounded(o.r) <==> (|got| == ExtendedLen(h) ==> Fits(r, h, GetPayloadSize(h, got))))
  {
    hide DataOk, Begin, ValidateExtended, BigEndian;
    if |got| == ExtendedLen(h) {
      AnnouncedSize(h, got);
      ControlSize(r.cfg, h, r.data.msg.None?, got);
      hide ValidateBasic;
      BeginBounded(r, h, GetPayloadSize(h, got), GetMaskingKey(h, got));
    }
  }

  /** A byte that is taken keeps the bound exactly when it announces nothing that wraps. */
  lemma StepBounded(r: Reader, b: byte)
    requires Valid(r) && Bounded(r) && r.cfg.maxSize < SIZE_LIMIT
    ensures Step(r, b).Live? ==> (Bounded(Step(r, b).r) <==> NoWrap(r, b))
  {
    match r.phase
    case Basic(got) =>
      if |got| == 1 {
        var h := BasicHeader(got[0], b);
        assert got + [b] == [got[0], b];
        hide ValidateBasic, AfterExtended;
        if ValidateBasic(r.cfg, h, r.data.msg.None?) == None {
          ExtendedBounded(Idle(r), h, []);
        }
      }
    case Extended(h, got) =>
      hide ValidateBasic, AfterExtended;
      ExtendedBounded(Idle(r), h, got + [b]);
    case Payload(h, left) =>
      AbsorbOk(r, h, left, [b]);
      hide DataOk, FrameOk;
    case Done(_) =>
  }

  /** A data message within the limit, or a control message within its own. */
  predicate Short(m: Message, maxSize: nat) {
    |m.payload| <= if IsControl(m.opcode) then PAYLOAD_SIZE_BASIC else maxSize
  }

  lemma FetchBounded(r: Reader)
    requires Valid(r) && r.phase.Done? && Bounded(r)
    ensures Bounded(Fetch(r).1)
    ensures Short(Fetch(r).0, r.cfg.maxSize)
  {
  }

  lemma ByteBounded(s: Session, b: byte)
    requires SessionOk(s) && Bounded(s.r) && NoWrap(s.r, b) && s.r.cfg.maxSize < SIZE_LIMIT
    requires forall m :: m in s.out ==> Short(m, s.r.cfg.maxSize)
    ensures Bounded(FeedByte(s, b).r)
    ensures forall m :: m in FeedByte(s, b).out ==> Short(m, s.r.cfg.maxSize)
  {
    hide Step, NoWrap, Valid, Fetch, Claimed;
    if s.error.None? {
      StepBounded(s.r, b);
      var o := Step(s.r, b);
      if o.Live? && o.r.phase.Done? {
        FetchBounded(o.r);
      }
    }
  }

  /**
   Over every run in which no announced length wraps, stored plus announced payload stays within the limit, and so does
   every delivered data message.
   */
  lemma {:induction false} AlwaysBounded(s: Session, bytes: seq<byte>)
    requires SessionOk(s) && Bounded(s.r) && NoWraps(s, bytes) && s.r.cfg.maxSize < SIZE_LIMIT
    requires forall m :: m in s.out ==> Short(m, s.r.cfg.maxSize)
    ensures Bounded(Feed(s, bytes).r)
    ensures forall m :: m in Feed(s, bytes).out ==> Short(m, s.r.cfg.maxSize)
    decreases bytes
  {
    hide FeedByte, NoWrap, SessionOk, Claimed, Short;
    if bytes != [] {
      ByteBounded(s, bytes[0]);
      AlwaysBounded(FeedByte(s, bytes[0]), bytes[1..]);
    }
  }

  /** Lengths the standard allows never wrap, up to the largest limit a message could reach. */
  lemma {:induction false} LegalLengthsFit(s: Session, bytes: seq<byte>)
    requires SessionOk(s) && Bounded(s.r) && LegalLengths(s, bytes) && s.r.cfg.maxSize < 0x8000_0000_0000_0000
    requires forall m :: m in s.out ==> Short(m, s.r.cfg.maxSize)
    ensures NoWraps(s, bytes)
    decreases bytes
  {
    hide FeedByte, SessionOk, Short;
    if bytes != [] {
      assert NoWrap(s.r, bytes[0]);
      hide NoWrap, LegalLength, Claimed;
      ByteBounded(s, bytes[0]);
      LegalLengthsFit(FeedByte(s, bytes[0]), bytes[1..]);
    }
  }

  /** A fragment of one byte. */
  function FirstByte(cfg: Config, key: Masking.Key): OutFrame {
    OutFrame(BINARY, false, [0], MaskedKey(cfg.server, key))
  }

  lemma FirstByteRead(cfg: Config, key: Masking.Key)
    requires 0 < cfg.maxSize
    ensures var t := Feed(Session(Fresh(cfg), [], None), Wire(FirstByte(cfg, key)));
      && t.error.None? && t.r.phase == Basic([]) && t.r.cfg == cfg && t.r.data.msg == Some(Message(BINARY, [0]))
  {
    var a := Assembly(None, []);
    assert Legal(cfg, a, FirstByte(cfg, key));
    hide Wire;
    ReadsFrame(Session(Fresh(cfg), [], None), cfg, a, FirstByte(cfg, key));
  }

  /** That fragment, and the header of a continuation that announces 2^64 - 1 bytes more. */
  function Wrapping(cfg: Config, key: Masking.Key): seq<byte> {
    Wire(FirstByte(cfg, key))
    + [0x00, if cfg.server then 0xFF else 0x7F]
    + ([0xFF, 0xFF, 0xFF, 0xFF, 0xFF, 0xFF, 0xFF, 0xFF] + if cfg.server then key else [])
  }

  /** When a length wraps the bound can fail: the sum comes to 0 and the frame is accepted. */
  lemma LengthMayWrap(cfg: Config, key: Masking.Key)
    requires 0 < cfg.maxSize < SIZE_LIMIT
    ensures var s := Feed(Session(Fresh(cfg), [], None), Wrapping(cfg, key)); s.error.None? && !Bounded(s.r)
  {
    var s, first := Session(Fresh(cfg), [], None), Wire(FirstByte(cfg, key));
    FirstByteRead(cfg, key);
    var e := [0xFF, 0xFF, 0xFF, 0xFF, 0xFF, 0xFF, 0xFF, 0xFF] + if cfg.server then key else [];
    assert Wrapping(cfg, key) == first + ([0x00, if cfg.server then 0xFF else 0x7F] + e);
    hide Feed, Valid, Wire, FirstByte, Bounded, Wrapping;
    FeedConcat(s, first, [0x00, if cfg.server then 0xFF else 0x7F] + e);
    HugeFed(Feed(s, first), BasicHeader(0x00, if cfg.server then 0xFF else 0x7F), e);
  }

  lemma HugeFed(t: Session, h: BasicHeader, e: seq<byte>)
    requires SessionOk(t) && t.error.None?
    requires t.r.phase == Basic([]) && t.r.data.msg == Some(Message(BINARY, [0])) && t.r.cfg.maxSize < SIZE_LIMIT
    requires h == BasicHeader(0x00, if t.r.cfg.server then 0xFF else 0x7F) && |e| == if t.r.cfg.server then 12 else 8
    requires e[..8] == [0xFF, 0xFF, 0xFF, 0xFF, 0xFF, 0xFF, 0xFF, 0xFF]
    ensures var s := Feed(t, [h.b0, h.b1] + e); s.error.None? && !Bounded(s.r)
  {
    hide Feed, Hybi13Reader.Consume, AfterExtended, ValidateBasic, Bounded, Fetch;
    HugeHeader(t.r, h, e);
    FeedConsumes(t, [h.b0, h.b1] + e);
    assert ([h.b0, h.b1] + e)[2 + |e|..] == [];
    var o := AfterExtended(t.r, h, e);
    assert Deliver(t, o.r) == Session(o.r, t.out, None);
    FeedNothing(Deliver(t, o.r));
  }

  /** Such a header is read to its end, and its payload is waited for. */
  lemma HugeHeader(r: Reader, h: BasicHeader, e: seq<byte>)
    requires Valid(r) && r.phase == Basic([]) && r.data.msg == Some(Message(BINARY, [0])) && r.cfg.maxSize < SIZE_LIMIT
    requires h == BasicHeader(0x00, if r.cfg.server then 0xFF else 0x7F) && |e| == if r.cfg.server then 12 else 8
    requires e[..8] == [0xFF, 0xFF, 0xFF, 0xFF, 0xFF, 0xFF, 0xFF, 0xFF]
    ensures ValidateBasic(r.cfg, h, false) == None && |e| == ExtendedLen(h)
    ensures var o := AfterExtended(r, h, e);
      && o.Live? && !Bounded(o.r) && o.r.phase.Payload?
      && Hybi13Reader.Consume(r, [h.b0, h.b1] + e) == Consumed(o, 2 + |e|)
  {
    AllOnes(e[..8]);
    assert AddSize(1, 0xFFFF_FFFF_FFFF_FFFF) == 0;
    assert ValidateExtended(h, e) == None;
    assert GetPayloadSize(h, e) == 0xFFFF_FFFF_FFFF_FFFF;
    hide BigEndian, GetPayloadSize, GetMaskingKey;
    var o := AfterExtended(r, h, e);
    assert o.Live? && !Bounded(o.r) && o.r.phase.Payload?;
    assert Idle(r) == r && [] + [h.b0, h.b1] == [h.b0, h.b1];
    var r1 := r.(phase := Extended(h, []));
    assert AfterBasic(r, [h.b0, h.b1]) == Live(r1);
    hide ValidateBasic, Begin, AfterBasic;
    BulkBasic(r, [], [h.b0, h.b1], e);
    assert [] + e == e && e + [] == e && Idle(r1) == r;
    BulkExtended(r1, h, [], e, []);
    ConsumeNothing(o.r);
  }

  lemma AllOnes(e: seq<byte>)
    requires e == [0xFF, 0xFF, 0xFF, 0xFF, 0xFF, 0xFF, 0xFF, 0xFF]
    ensures BigEndian(e) == 0xFFFF_FFFF_FFFF_FFFF
  {
    assert ToBigEndian(0xFFFF_FFFF_FFFF_FFFF, 8) == e;
    OctetLimits();
    BigEndianRoundTrip(0xFFFF_FFFF_FFFF_FFFF, 8);
  }
}
