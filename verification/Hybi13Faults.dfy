/**
 Which error the RFC 6455 reader reports: the first fault the bytes have, in the order of the checks. Faults are stated
 on the octets of the frame, the messages before it and well-formed UTF-8.
 */
module Hybi13Faults {
  import opened Bytes
  import opened Wrappers
  import opened Frame
  import opened Hybi13Reader
  import opened Hybi13RoundTrip
  import opened Hybi13Safety
  import opened Hybi13Accepts
  import Close
  import Masking
  import Utf8

  //
  // The octets of a frame: section 5.2 of RFC 6455
  //

  function Op(now: seq<byte>): nat
    requires |now| >= 2
  {
    now[0] % 16
  }

  function SizeCode(now: seq<byte>): nat
    requires |now| >= 2
  {
    now[1] % 128
  }

  function SizeOctets(now: seq<byte>): nat
    requires |now| >= 2
  {
    if SizeCode(now) == 126 then 2 else if SizeCode(now) == 127 then 8 else 0
  }

  /** Where the payload starts. */
  function HeaderEnd(now: seq<byte>): nat
    requires |now| >= 2
  {
    2 + SizeOctets(now) + if now[1] >= 128 then 4 else 0
  }

  /** The payload length announced. */
  function Announced(now: seq<byte>): nat
    requires |now| >= 2 && |now| >= HeaderEnd(now)
  {
    if SizeCode(now) <= 125 then SizeCode(now)
    else if SizeCode(now) == 126 then now[2] as nat * 0x100 + now[3] as nat
    else
      now[2] as nat * 0x100_0000_0000_0000 + now[3] as nat * 0x1_0000_0000_0000 + now[4] as nat * 0x100_0000_0000
      + now[5] as nat * 0x1_0000_0000 + now[6] as nat * 0x100_0000 + now[7] as nat * 0x1_0000
      + now[8] as nat * 0x100 + now[9] as nat
  }

  /** The payload so far, unmasked. */
  function Plain(now: seq<byte>): seq<byte>
    requires |now| >= 2 && |now| >= HeaderEnd(now)
  {
    var n := HeaderEnd(now);
    if now[1] >= 128 then Masking.Mask(now[n..], now[n - 4..n]) else now[n..]
  }

  /** What earlier fragments hold. */
  function Earlier(a: Assembly): seq<byte> {
    if a.partial.Some? then a.partial.value.payload else []
  }

  /** The frame is part of a text message. */
  predicate IsText(a: Assembly, now: seq<byte>)
    requires |now| >= 2
  {
    Op(now) == 1 || (Op(now) == 0 && a.partial.Some? && a.partial.value.opcode == 1)
  }

  ghost predicate Beginning(t: seq<byte>) {
    exists more: seq<byte> :: Utf8.WellFormed(t + more)
  }

  //
  // Faults
  //

  /** The bytes `now` of a frame that follows `a` have this fault. */
  ghost predicate Has(cfg: Config, a: Assembly, now: seq<byte>, e: Error) {
    |now| >= 2 &&
    match e
    case ControlTooBig => Op(now) >= 8 && SizeCode(now) > 125
    case InvalidRsvBit => now[0] / 16 % 8 != 0
    case InvalidOpcode => 3 <= Op(now) <= 7 || Op(now) >= 11
    case FragmentedControl => Op(now) >= 8 && now[0] < 128
    case InvalidContinuation => if a.partial.Some? then 0 < Op(now) < 8 else Op(now) == 0
    case MaskingRequired => cfg.server && now[1] < 128
    case MaskingForbidden => !cfg.server && now[1] >= 128
    case NonMinimalEncoding =>
      && |now| >= HeaderEnd(now)
      && ((SizeCode(now) == 126 && Announced(now) <= 125) || (SizeCode(now) == 127 && Announced(now) <= 65535))
    case MessageTooBig =>
      && |now| >= HeaderEnd(now) && Op(now) < 8
      && (|Earlier(a)| + Announced(now)) % 0x1_0000_0000_0000_0000 > cfg.maxSize
    case InvalidUtf8 =>
      && |now| >= HeaderEnd(now) && IsText(a, now)
      && (!Beginning(Earlier(a) + Plain(now)) || (OneFrame(now) && !Utf8.WellFormed(Plain(now))))
  }

  /** `now` is a whole text message in one frame. */
  predicate OneFrame(now: seq<byte>)
    requires |now| >= 2 && |now| >= HeaderEnd(now)
  {
    Op(now) == 1 && now[0] >= 128 && |now| == HeaderEnd(now) + Announced(now)
  }

  /** The order of the checks. */
  function Rank(e: Error): nat {
    match e
    case ControlTooBig => 0
    case InvalidRsvBit => 1
    case InvalidOpcode => 2
    case FragmentedControl => 3
    case InvalidContinuation => 4
    case MaskingRequired => 5
    case MaskingForbidden => 6
    case NonMinimalEncoding => 7
    case MessageTooBig => 8
    case InvalidUtf8 => 9
  }

  /** None of the first `n` checks finds a fault. */
  ghost predicate Clean(cfg: Config, a: Assembly, now: seq<byte>, n: nat) {
    forall f :: Rank(f) < n ==> !Has(cfg, a, now, f)
  }

  /** `e` is the first fault of `now`, or there is none. */
  ghost predicate Verdict(cfg: Config, a: Assembly, now: seq<byte>, e: Option<Error>) {
    match e
    case None => Clean(cfg, a, now, 10)
    case Some(first) => Has(cfg, a, now, first) && Clean(cfg, a, now, Rank(first))
  }

  //
  // Octets and fields
  //

  lemma RsvBits(b: byte)
    ensures b / 16 % 8 != 0 <==> b / 64 % 2 == 1 || b / 32 % 2 == 1 || b / 16 % 2 == 1
  {
  }

  lemma EightOctets(b: seq<byte>)
    requires |b| == 8
    ensures BigEndian(b) ==
      b[0] as nat * 0x100_0000_0000_0000 + b[1] as nat * 0x1_0000_0000_0000 + b[2] as nat * 0x100_0000_0000
      + b[3] as nat * 0x1_0000_0000 + b[4] as nat * 0x100_0000 + b[5] as nat * 0x1_0000
      + b[6] as nat * 0x100 + b[7] as nat
  {
    assert b[..8] == b;
    assert b[..7] == b[..8][..7] && b[..6] == b[..7][..6] && b[..5] == b[..6][..5] && b[..4] == b[..5][..4];
    assert b[..3] == b[..4][..3] && b[..2] == b[..3][..2] && b[..1] == b[..2][..1] && b[..0] == b[..1][..0];
    assert BigEndian(b[..1]) == b[0] as nat;
    assert BigEndian(b[..2]) == BigEndian(b[..1]) * 256 + b[1] as nat;
    assert BigEndian(b[..3]) == BigEndian(b[..2]) * 256 + b[2] as nat;
    assert BigEndian(b[..4]) == BigEndian(b[..3]) * 256 + b[3] as nat;
    assert BigEndian(b[..5]) == BigEndian(b[..4]) * 256 + b[4] as nat;
    assert BigEndian(b[..6]) == BigEndian(b[..5]) * 256 + b[5] as nat;
    assert BigEndian(b[..7]) == BigEndian(b[..6]) * 256 + b[6] as nat;
    assert BigEndian(b[..8]) == BigEndian(b[..7]) * 256 + b[7] as nat;
  }

  lemma TwoOctets(b: seq<byte>)
    requires |b| == 2
    ensures BigEndian(b) == b[0] as nat * 0x100 + b[1] as nat
  {
    assert b[..1] == [b[0]];
    assert BigEndian([b[0]]) == BigEndian([b[0]][..0]) * 256 + b[0] as nat;
  }

  /** The octets of a header are what the code takes them for. */
  lemma HeaderFields(h: BasicHeader, now: seq<byte>)
    requires |now| >= 2 && now[0] == h.b0 && now[1] == h.b1
    ensures Op(now) == GetOpcode(h) && SizeCode(now) == GetBasicSize(h) && HeaderEnd(now) == 2 + ExtendedLen(h)
    ensures GetMasked(h) <==> now[1] >= 128
    ensures GetFin(h) <==> now[0] >= 128
    ensures now[0] / 16 % 8 != 0 <==> GetRsv1(h) || GetRsv2(h) || GetRsv3(h)
  {
    RsvBits(h.b0);
  }

  lemma SizeAnnounced(h: BasicHeader, now: seq<byte>)
    requires |now| >= 2 + ExtendedLen(h) && now[0] == h.b0 && now[1] == h.b1
    ensures |now| >= HeaderEnd(now) && Announced(now) == GetPayloadSize(h, ExtendedIn(h, now))
  {
    HeaderFields(h, now);
    var e := ExtendedIn(h, now);
    hide BigEndian;
    if SizeCode(now) == 126 {
      TwoOctets(e[..2]);
    } else if SizeCode(now) == 127 {
      EightOctets(e[..8]);
    }
  }

  lemma PlainIs(h: BasicHeader, now: seq<byte>)
    requires |now| >= 2 + ExtendedLen(h) && now[0] == h.b0 && now[1] == h.b1
    ensures |now| >= HeaderEnd(now) && Plain(now) == FrameIn(h, now).payload
  {
    HeaderFields(h, now);
    hide Masking.Mask;
    var n := HeaderEnd(now);
    if GetMasked(h) {
      assert now[n - 4..n] == GetMaskingKey(h, ExtendedIn(h, now));
    }
  }

  //
  // The checks
  //

  lemma BasicVerdict(cfg: Config, a: Assembly, h: BasicHeader, now: seq<byte>)
    requires |now| >= 2 && now[0] == h.b0 && now[1] == h.b1
    ensures match ValidateBasic(cfg, h, a.partial.None?)
      case None => Clean(cfg, a, now, 7)
      case Some(e) => Rank(e) < 7 && Verdict(cfg, a, now, Some(e))
  {
    HeaderFields(h, now);
    hide GetRsv1, GetRsv2, GetRsv3, GetOpcode, GetBasicSize, GetMasked, GetFin;
    hide Op, SizeCode, HeaderEnd, Announced, Plain, IsText, Beginning, OneFrame;
  }

  /** While the header is incomplete no later check is made. */
  lemma IncompleteClean(cfg: Config, a: Assembly, now: seq<byte>)
    requires |now| >= 2 && |now| < HeaderEnd(now) && Clean(cfg, a, now, 7)
    ensures Verdict(cfg, a, now, None)
  {
  }

  lemma TooShort(cfg: Config, a: Assembly, now: seq<byte>)
    requires |now| < 2
    ensures Verdict(cfg, a, now, None)
  {
  }

  lemma ExtendedVerdict(cfg: Config, a: Assembly, h: BasicHeader, now: seq<byte>)
    requires |now| >= 2 + ExtendedLen(h) && now[0] == h.b0 && now[1] == h.b1 && Clean(cfg, a, now, 7)
    ensures match ValidateExtended(h, ExtendedIn(h, now))
      case None => Clean(cfg, a, now, 8)
      case Some(e) => Verdict(cfg, a, now, Some(e))
  {
    HeaderFields(h, now);
    SizeAnnounced(h, now);
    hide GetPayloadSize, GetBasicSize, Op, SizeCode, HeaderEnd, Announced, Plain, IsText, Beginning, OneFrame,
      ExtendedIn;
  }

  lemma BeginningIff(t: seq<byte>)
    ensures Beginning(t) <==> Utf8.Run(Utf8.FRESH, t).state != Utf8.REJECT
    ensures Utf8.WellFormed(t) <==> Utf8.Run(Utf8.FRESH, t).state == Utf8.ACCEPT
  {
    hide Utf8.Run, Utf8.WellFormed;
    Utf8.NotRejectedIsPrefix(t);
    Utf8.AcceptsExactlyWellFormed(t);
  }

  /** At the end of its header a frame holds no payload yet. */
  lemma NothingYet(h: BasicHeader, now: seq<byte>)
    requires |now| == 2 + ExtendedLen(h) && now[0] == h.b0 && now[1] == h.b1
    ensures |now| == HeaderEnd(now) && Plain(now) == []
  {
    HeaderFields(h, now);
  }

  /** What became of the reader, as a verdict. */
  function Report(o: Outcome): Option<Error> {
    if o.Failed? then Some(o.error) else None
  }

  lemma EmptyText()
    ensures Beginning([]) && Utf8.WellFormed([])
  {
    BeginningIff([]);
    Utf8.RunEmpty(Utf8.FRESH);
  }

  /** The text of an unfinished message is the beginning of some text. */
  lemma EarlierText(m: Metadata, a: Assembly, now: seq<byte>)
    requires |now| >= 2 && DataOk(m) && m.msg == a.partial && IsText(a, now)
    requires a.partial.Some? ==> Op(now) == 0
    ensures Beginning(Earlier(a))
  {
    hide Utf8.Run, Utf8.WellFormed;
    EmptyText();
    BeginningIff(Earlier(a));
    hide Beginning;
  }

  /** Before any payload, text is not at fault. */
  lemma TextNotYet(m: Metadata, cfg: Config, a: Assembly, h: BasicHeader, now: seq<byte>)
    requires |now| == 2 + ExtendedLen(h) && now[0] == h.b0 && now[1] == h.b1 && DataOk(m) && m.msg == a.partial
    requires Clean(cfg, a, now, 7)
    ensures !Has(cfg, a, now, InvalidUtf8)
  {
    NothingYet(h, now);
    EmptyText();
    assert !Has(cfg, a, now, InvalidContinuation);
    hide DataOk, Beginning, Utf8.WellFormed;
    if IsText(a, now) {
      EarlierText(m, a, now);
      assert Earlier(a) + [] == Earlier(a);
    }
  }

  /** The size check, on the octets. */
  lemma SizeVerdict(r: Reader, a: Assembly, h: BasicHeader, now: seq<byte>)
    requires |now| >= 2 + ExtendedLen(h) && now[0] == h.b0 && now[1] == h.b1 && r.data.msg == a.partial
    ensures var size := GetPayloadSize(h, ExtendedIn(h, now));
      Has(r.cfg, a, now, MessageTooBig) <==>
        && !IsControl(GetOpcode(h))
        && (if r.data.msg.None? then size else AddSize(|r.data.msg.value.payload|, size)) > r.cfg.maxSize
  {
    HeaderFields(h, now);
    SizeAnnounced(h, now);
    AnnouncedSize(h, ExtendedIn(h, now));
    hide GetPayloadSize, Announced, SizeCode, HeaderEnd, ExtendedIn;
  }

  lemma RankNine(cfg: Config, a: Assembly, now: seq<byte>)
    requires Clean(cfg, a, now, 8)
    ensures Has(cfg, a, now, MessageTooBig) ==> Verdict(cfg, a, now, Some(MessageTooBig))
    ensures !Has(cfg, a, now, MessageTooBig) ==> Clean(cfg, a, now, 9)
  {
    hide Has;
  }

  lemma RankTen(cfg: Config, a: Assembly, now: seq<byte>)
    requires Clean(cfg, a, now, 9)
    ensures Has(cfg, a, now, InvalidUtf8) ==> Verdict(cfg, a, now, Some(InvalidUtf8))
    ensures !Has(cfg, a, now, InvalidUtf8) ==> Verdict(cfg, a, now, None)
  {
    hide Has;
  }

  /** Setting up the message refuses exactly what is too big. */
  lemma BeginReports(r: Reader, h: BasicHeader, size: nat, key: Masking.Key)
    requires DataOk(r.data) && r.control.msg.None? && ValidateBasic(r.cfg, h, r.data.msg.None?) == None
    requires IsControl(GetOpcode(h)) ==> size <= PAYLOAD_SIZE_BASIC
    ensures Report(Begin(r, h, size, key)) ==
      if !IsControl(GetOpcode(h))
        && (if r.data.msg.None? then size else AddSize(|r.data.msg.value.payload|, size)) > r.cfg.maxSize
      then Some(MessageTooBig) else None
  {
    AcceptedOnce(r.cfg, h, r.data.msg.None?);
    hide ValidateBasic;
  }

  /** A header read to its end. */
  lemma HeaderVerdict(r: Reader, a: Assembly, h: BasicHeader, now: seq<byte>)
    requires |now| == 2 + ExtendedLen(h) && now[0] == h.b0 && now[1] == h.b1
    requires DataOk(r.data) && r.control.msg.None? && r.data.msg == a.partial
    requires ValidateBasic(r.cfg, h, r.data.msg.None?) == None
    ensures Verdict(r.cfg, a, now, Report(AfterExtended(r, h, ExtendedIn(h, now))))
  {
    BasicVerdict(r.cfg, a, h, now);
    ExtendedVerdict(r.cfg, a, h, now);
    hide DataOk, ValidateBasic, ValidateExtended, Begin, Has, Verdict, Clean, GetPayloadSize, GetMaskingKey, AddSize;
    var e := ExtendedIn(h, now);
    if ValidateExtended(h, e) == None {
      ControlSize(r.cfg, h, r.data.msg.None?, e);
      BeginReports(r, h, GetPayloadSize(h, e), GetMaskingKey(h, e));
      SizeVerdict(r, a, h, now);
      RankNine(r.cfg, a, now);
      if !Has(r.cfg, a, now, MessageTooBig) {
        TextNotYet(r.data, r.cfg, a, h, now);
        RankTen(r.cfg, a, now);
      }
    }
  }

  //
  // Payload
  //

  lemma BegunOctets(cfg: Config, a: Assembly, h: BasicHeader, left: nat, now: seq<byte>)
    requires FrameBegun(cfg, a, h, left, now)
    ensures |now| >= 2 + ExtendedLen(h) && now[0] == h.b0 && now[1] == h.b1
    ensures ValidateBasic(cfg, h, a.partial.None?) == None && ValidateExtended(h, ExtendedIn(h, now)) == None
  {
    assert now[..2][0] == now[0] && now[..2][1] == now[1];
    hide ValidateBasic, ValidateExtended, GetPayloadSize, Masking.Mask;
  }

  lemma BegunSizes(cfg: Config, a: Assembly, h: BasicHeader, left: nat, now: seq<byte>)
    requires FrameBegun(cfg, a, h, left, now) && |now| >= 2 + ExtendedLen(h) && now[0] == h.b0 && now[1] == h.b1
    ensures |now| >= HeaderEnd(now) && Announced(now) == |Plain(now)| + left
    ensures |now| == HeaderEnd(now) + Announced(now) <==> left == 0
    ensures Op(now) < 8 ==> |Earlier(a)| + Announced(now) <= cfg.maxSize
  {
    HeaderFields(h, now);
    SizeAnnounced(h, now);
    PlainIs(h, now);
    hide ValidateBasic, ValidateExtended, GetPayloadSize, Announced, SizeCode, Plain, Masking.Mask;
  }

  lemma BegunFits(cfg: Config, a: Assembly, h: BasicHeader, left: nat, now: seq<byte>)
    requires FrameBegun(cfg, a, h, left, now) && cfg.maxSize < SIZE_LIMIT
    ensures !Has(cfg, a, now, MessageTooBig)
  {
    hide FrameBegun, ValidateBasic, ValidateExtended, Announced, HeaderEnd, Plain;
    BegunOctets(cfg, a, h, left, now);
    BegunSizes(cfg, a, h, left, now);
  }

  /** A frame begun has no fault of size or header. */
  lemma BegunClean(cfg: Config, a: Assembly, h: BasicHeader, left: nat, now: seq<byte>)
    requires FrameBegun(cfg, a, h, left, now) && cfg.maxSize < SIZE_LIMIT
    ensures Clean(cfg, a, now, 9)
  {
    hide FrameBegun, ValidateBasic, ValidateExtended, Announced, HeaderEnd, Plain, Clean, Verdict, Has;
    BegunOctets(cfg, a, h, left, now);
    BasicVerdict(cfg, a, h, now);
    ExtendedVerdict(cfg, a, h, now);
    BegunFits(cfg, a, h, left, now);
    RankNine(cfg, a, now);
  }

  /** The validator has seen the whole text. */
  lemma TextSeen(m: Metadata, masked: bool, b: byte)
    requires DataOk(m) && m.msg.Some?
    ensures var n := Absorb(m, masked, [b]);
      n.msg.Some? && (n.msg.value.opcode == TEXT ==> n.utf8 == Utf8.Run(Utf8.FRESH, n.msg.value.payload))
  {
    var plain := if masked then Masking.Mask([b], m.key) else [b];
    Utf8.RunConcat(Utf8.FRESH, m.msg.value.payload, plain);
    hide Utf8.Run, Masking.Mask;
  }

  /** The message a data frame adds to. */
  lemma TextIs(cfg: Config, a: Assembly, h: BasicHeader, now: seq<byte>)
    requires |now| >= 2 + ExtendedLen(h) && now[0] == h.b0 && now[1] == h.b1
    requires ValidateBasic(cfg, h, a.partial.None?) == None && !IsControl(GetOpcode(h))
    ensures |now| >= HeaderEnd(now) && Extend(a, FrameIn(h, now)).payload == Earlier(a) + Plain(now)
    ensures Extend(a, FrameIn(h, now)).opcode == TEXT <==> IsText(a, now)
    ensures Op(now) == TEXT ==> Earlier(a) == []
  {
    HeaderFields(h, now);
    PlainIs(h, now);
    AcceptedOnce(cfg, h, a.partial.None?);
    hide ValidateBasic, Plain, HeaderEnd;
    assert [] + Plain(now) == Plain(now);
  }

  /** When the text so far is rejected. */
  lemma RejectedIff(m: Metadata, cfg: Config, a: Assembly, h: BasicHeader, now: seq<byte>)
    requires |now| >= 2 + ExtendedLen(h) && now[0] == h.b0 && now[1] == h.b1
    requires ValidateBasic(cfg, h, a.partial.None?) == None && !IsControl(GetOpcode(h))
    requires m.msg == Some(Extend(a, FrameIn(h, now)))
    requires m.msg.value.opcode == TEXT ==> m.utf8 == Utf8.Run(Utf8.FRESH, m.msg.value.payload)
    ensures |now| >= HeaderEnd(now)
    ensures BadText(m) <==> IsText(a, now) && !Beginning(Earlier(a) + Plain(now))
    ensures Op(now) == TEXT ==> (m.utf8.state == Utf8.ACCEPT <==> Utf8.WellFormed(Plain(now)))
  {
    TextIs(cfg, a, h, now);
    hide ValidateBasic, FrameIn, Extend, Plain, Beginning, Utf8.Run, Utf8.WellFormed;
    BeginningIff(Earlier(a) + Plain(now));
    assert Op(now) == TEXT ==> Earlier(a) + Plain(now) == Plain(now);
  }

  /** The end of a frame's payload, as a report. */
  lemma EndReports(r: Reader, h: BasicHeader, left: nat)
    requires DataOk(r.data) && FrameOk(r, h, left)
    ensures Report(AfterPayload(r, h, left)) ==
      if left == 0 && GetFin(h) && GetOpcode(h) == TEXT && r.data.utf8.state != Utf8.ACCEPT then Some(InvalidUtf8)
        else None
  {
    hide DataOk, FrameOk;
  }

  /** Taking a byte of payload, as a report. */
  lemma TakeReports(r: Reader, h: BasicHeader, left: nat, b: byte)
    requires Valid(r) && r.phase == Payload(h, left)
    ensures Current(r, h).msg.Some?
    ensures var m := Absorb(Current(r, h), GetMasked(h), [b]);
      Report(TakePayload(r, h, left, [b])) ==
        if BadText(m) then Some(InvalidUtf8)
        else if left == 1 && GetFin(h) && GetOpcode(h) == TEXT && m.utf8.state != Utf8.ACCEPT then Some(InvalidUtf8)
        else None
  {
    AbsorbOk(r, h, left, [b]);
    FrameFacts(r, h, left);
    var m := Absorb(Current(r, h), GetMasked(h), [b]);
    hide Absorb, DataOk, FrameOk, BadText, AfterPayload, GetFin, GetMasked;
    if !BadText(m) {
      EndReports(SetCurrent(Idle(r), h, m), h, left - 1);
    }
  }

  lemma ControlText(r: Reader, a: Assembly, h: BasicHeader, now: seq<byte>, b: byte)
    requires |now| >= 2 && now[0] == h.b0 && now[1] == h.b1 && IsControl(GetOpcode(h))
    requires r.control.msg.Some? && r.control.msg.value.opcode == GetOpcode(h)
    ensures !BadText(Absorb(Current(r, h), GetMasked(h), [b])) && !Has(r.cfg, a, now, InvalidUtf8)
  {
    HeaderFields(h, now);
    hide Masking.Mask, Utf8.Run, HeaderEnd;
  }

  lemma PayloadVerdict(r: Reader, a: Assembly, h: BasicHeader, left: nat, bytes: seq<byte>, b: byte)
    requires Valid(r) && r.phase == Payload(h, left) && r.cfg.maxSize < SIZE_LIMIT
    requires FrameBegun(r.cfg, a, h, left, bytes) && Holds(r.data, r.control, a, h, bytes)
    ensures Verdict(r.cfg, a, bytes + [b], Report(TakePayload(r, h, left, [b])))
  {
    var now := bytes + [b];
    FrameGrows(r.cfg, a, h, left, bytes, b);
    HoldsGrows(r.data, r.control, a, h, bytes, b);
    TakeReports(r, h, left, b);
    BegunOctets(r.cfg, a, h, left - 1, now);
    BegunClean(r.cfg, a, h, left - 1, now);
    BegunSizes(r.cfg, a, h, left - 1, now);
    HeaderFields(h, now);
    assert DataOk(r.data)
      && (IsControl(GetOpcode(h)) ==> r.control.msg.Some? && r.control.msg.value.opcode == GetOpcode(h));
    hide Valid, DataOk, FrameOk, FrameBegun, Absorb, BadText, TakePayload, Clean, Verdict, ValidateBasic,
      ValidateExtended;
    hide Announced, HeaderEnd, Plain, Beginning, Utf8.WellFormed, FrameIn, Extend, GetFin, GetMasked, GetOpcode;
    if IsControl(GetOpcode(h)) {
      ControlText(r, a, h, now, b);
      assert Op(now) >= 8;
    } else {
      TextSeen(r.data, GetMasked(h), b);
      RejectedIff(Absorb(r.data, GetMasked(h), [b]), r.cfg, a, h, now);
    }
    RankTen(r.cfg, a, now);
  }

  //
  // Every byte
  //

  /** The verdict on the frame so far is what the step reports. */
  lemma StepVerdict(r: Reader, a: Assembly, bytes: seq<byte>, b: byte)
    requires Valid(r) && !r.phase.Done? && Explains(r, a, bytes) && r.cfg.maxSize < SIZE_LIMIT
    ensures Verdict(r.cfg, a, bytes + [b], Report(Step(r, b)))
  {
    hide DataOk, ValidateBasic, AfterExtended, TakePayload, Verdict, FrameBegun, Holds, ExtendedLen, Has, HeaderEnd;
    var now := bytes + [b];
    match r.phase
    case Basic(got) =>
      if |got| == 0 {
        TooShort(r.cfg, a, now);
      } else {
        var h := BasicHeader(now[0], now[1]);
        assert got + [b] == [h.b0, h.b1] && now == [h.b0, h.b1];
        SecondByte(Idle(r), a, h);
      }
    case Extended(h, got) =>
      assert now == [h.b0, h.b1] + (got + [b]);
      MoreHeader(Idle(r), a, h, got + [b]);
    case Payload(h, left) => PayloadVerdict(r, a, h, left, bytes, b);
  }

  lemma SecondByte(r: Reader, a: Assembly, h: BasicHeader)
    requires DataOk(r.data) && r.phase == Basic([]) && r.control.msg.None? && r.data.msg == a.partial
    ensures Verdict(r.cfg, a, [h.b0, h.b1], Report(AfterBasic(r, [h.b0, h.b1])))
  {
    hide DataOk, ValidateBasic, AfterExtended, Verdict;
    BasicVerdict(r.cfg, a, h, [h.b0, h.b1]);
    if ValidateBasic(r.cfg, h, a.partial.None?) == None {
      assert [h.b0, h.b1] + [] == [h.b0, h.b1];
      MoreHeader(r, a, h, []);
    }
  }

  /** A header that passed its first checks, and some of the octets that extend it. */
  lemma MoreHeader(r: Reader, a: Assembly, h: BasicHeader, got: seq<byte>)
    requires DataOk(r.data) && r.control.msg.None? && r.data.msg == a.partial
    requires ValidateBasic(r.cfg, h, a.partial.None?) == None && |got| <= ExtendedLen(h)
    ensures Verdict(r.cfg, a, [h.b0, h.b1] + got, Report(AfterExtended(r, h, got)))
  {
    var now := [h.b0, h.b1] + got;
    HeaderFields(h, now);
    hide DataOk, ValidateBasic, Verdict, Has, ValidateExtended, Begin, GetPayloadSize, GetMaskingKey, HeaderEnd;
    if |got| < ExtendedLen(h) {
      BasicVerdict(r.cfg, a, h, now);
      IncompleteClean(r.cfg, a, now);
    } else {
      assert ExtendedIn(h, now) == got;
      HeaderVerdict(r, a, h, now);
    }
  }

  /** There is only one verdict. */
  lemma OneVerdict(cfg: Config, a: Assembly, now: seq<byte>, e: Option<Error>, f: Option<Error>)
    requires Verdict(cfg, a, now, e) && Verdict(cfg, a, now, f)
    ensures e == f
  {
    hide Has;
  }

  /**
   A byte after a stream taken without error is refused, or not, exactly as the frame it is part of has a fault, and the
   error is the first of its faults.
   */
  lemma ByteVerdict(cfg: Config, bytes: seq<byte>, b: byte) returns (fs: seq<OutFrame>, more: seq<byte>)
    requires cfg.maxSize < 0x8000_0000_0000_0000 && NoWraps(Session(Fresh(cfg), [], None), bytes)
    requires Begun(cfg, bytes).error.None?
    ensures LegalAll(cfg, NOTHING, fs) && Splits(bytes, fs, more)
    ensures forall e :: Begun(cfg, bytes + [b]).error == e <==> Verdict(cfg, AcceptAll(NOTHING, fs), more + [b], e)
  {
    fs, more := AcceptsOnlyLegal(cfg, bytes);
    var s, a := Begun(cfg, bytes), AcceptAll(NOTHING, fs);
    FeedConcat(Session(Fresh(cfg), [], None), bytes, [b]);
    FeedOne(s, b);
    hide Feed, NoWraps, LegalAll, AcceptAll, Splits, Valid, Step, Explains, Verdict;
    StepVerdict(s.r, a, more, b);
    assert Begun(cfg, bytes + [b]).error == Report(Step(s.r, b));
    forall e | Verdict(cfg, a, more + [b], e) ensures e == Report(Step(s.r, b)) {
      OneVerdict(cfg, a, more + [b], e, Report(Step(s.r, b)));
    }
  }

  lemma FeedOne(s: Session, b: byte)
    requires SessionOk(s) && s.error.None?
    ensures Feed(s, [b]) == FeedByte(s, b) && Feed(s, [b]).error == Report(Step(s.r, b))
  {
    hide Step, Valid, Fetch;
    FeedNothing(FeedByte(s, b));
  }

  //
  // Whole streams
  //

  lemma {:induction false} FirstFailure(s: Session, bytes: seq<byte>) returns (k: nat)
    requires SessionOk(s) && s.error.None? && Feed(s, bytes).error.Some?
    ensures k < |bytes| && Feed(s, bytes[..k]).error.None?
    ensures Feed(s, bytes[..k] + [bytes[k]]).error == Feed(s, bytes).error
    decreases bytes
  {
    hide FeedByte, SessionOk;
    FeedNothing(s);
    assert bytes != [];
    var t, rest := FeedByte(s, bytes[0]), bytes[1..];
    if t.error.Some? {
      k := 0;
      FeedStopped(t, rest);
      FeedNothing(t);
      assert bytes[..0] == [] && [] + [bytes[0]] == [bytes[0]] && [bytes[0]][1..] == [];
    } else {
      var j := FirstFailure(t, rest);
      k := j + 1;
      assert bytes[..k][1..] == rest[..j] && bytes[..k][0] == bytes[0];
      assert (bytes[..k] + [bytes[k]])[1..] == rest[..j] + [rest[j]];
    }
  }

  lemma {:induction false} NoWrapsBefore(s: Session, bytes: seq<byte>, k: nat)
    requires SessionOk(s) && NoWraps(s, bytes) && k <= |bytes|
    ensures NoWraps(s, bytes[..k])
    decreases bytes
  {
    hide FeedByte, SessionOk, NoWrap;
    if k > 0 {
      NoWrapsBefore(FeedByte(s, bytes[0]), bytes[1..], k - 1);
      assert bytes[..k][1..] == bytes[1..][..k - 1];
    }
  }

  /** `bytes` are legal frames, and after them a frame whose first fault is `e`, found at its last byte. */
  ghost predicate Faulty(cfg: Config, bytes: seq<byte>, fs: seq<OutFrame>, frame: seq<byte>, e: Error) {
    LegalAll(cfg, NOTHING, fs) && Splits(bytes, fs, frame) && Verdict(cfg, AcceptAll(NOTHING, fs), frame, Some(e))
  }

  /** Whatever error a stream ends in is the first fault of the first frame at fault. */
  lemma ErrorNamesFault(cfg: Config, bytes: seq<byte>) returns (k: nat, fs: seq<OutFrame>, frame: seq<byte>)
    requires cfg.maxSize < 0x8000_0000_0000_0000 && NoWraps(Session(Fresh(cfg), [], None), bytes)
    requires Begun(cfg, bytes).error.Some?
    ensures 0 < k <= |bytes| && Begun(cfg, bytes[..k - 1]).error.None?
    ensures Faulty(cfg, bytes[..k], fs, frame, Begun(cfg, bytes).error.value)
  {
    var s := Session(Fresh(cfg), [], None);
    hide Feed, NoWraps, LegalAll, AcceptAll, Verdict, WireAll;
    var j := FirstFailure(s, bytes);
    NoWrapsBefore(s, bytes, j);
    var more;
    fs, more := ByteVerdict(cfg, bytes[..j], bytes[j]);
    k, frame := j + 1, more + [bytes[j]];
    assert bytes[..k] == bytes[..j] + [bytes[j]];
    assert WireAll(fs) + more + [bytes[j]] == WireAll(fs) + (more + [bytes[j]]);
  }

  //
  // Close codes
  //

  /** The close code an error is reported with (`to_ws`). */
  function ToWs(e: Error): nat {
    match e
    case InvalidUtf8 => Close.INVALID_PAYLOAD
    case MessageTooBig => Close.MESSAGE_TOO_BIG
    case NonMinimalEncoding => Close.INTERNAL_ENDPOINT_ERROR
    case _ => Close.PROTOCOL_ERROR
  }

  /**
   The peer is told 1007 exactly if the first fault is text that is not UTF-8, 1009 if the message is too long, and 1002
   for every other fault but one: a length not in its shortest form is reported as 1011. The code can always be sent.
   */
  lemma CodeNamesFault(cfg: Config, bytes: seq<byte>, reason: seq<byte>)
    returns (k: nat, fs: seq<OutFrame>, frame: seq<byte>, code: nat)
    requires cfg.maxSize < 0x8000_0000_0000_0000 && NoWraps(Session(Fresh(cfg), [], None), bytes) && |reason| <= 123
    requires Begun(cfg, bytes).error.Some?
    ensures k <= |bytes| && code == ToWs(Begun(cfg, bytes).error.value)
      && (code == 1002 || code == 1007 || code == 1009 || code == 1011)
    ensures LegalAll(cfg, NOTHING, fs) && Splits(bytes[..k], fs, frame)
    ensures var a := AcceptAll(NOTHING, fs);
      && (code == 1007 <==> Verdict(cfg, a, frame, Some(InvalidUtf8)))
      && (code == 1009 <==> Verdict(cfg, a, frame, Some(MessageTooBig)))
      && (code == 1011 <==> Verdict(cfg, a, frame, Some(NonMinimalEncoding)))
    ensures Close.ClosePayload(code, reason) == Close.Ok([code / 256, code % 256] + reason)
  {
    hide Feed, NoWraps, LegalAll, AcceptAll, Verdict, Splits, Utf8.WellFormed;
    k, fs, frame := ErrorNamesFault(cfg, bytes);
    var e, a := Begun(cfg, bytes).error.value, AcceptAll(NOTHING, fs);
    code := ToWs(e);
    forall f | Verdict(cfg, a, frame, Some(f)) ensures f == e {
      OneVerdict(cfg, a, frame, Some(e), Some(f));
    }
  }
}
