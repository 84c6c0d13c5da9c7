/**
 Frames as section 5 of RFC 6455 describes them, and the proof that the reader recovers what was sent: control
 messages as they come, data messages reassembled from their fragments.
 */
module Hybi13RoundTrip {
  import opened Bytes
  import opened Wrappers
  import opened Frame
  import opened Hybi13Reader
  import Masking
  import Utf8

  /** One frame to be sent; `key` is the masking key if the sender is a client. */
  datatype OutFrame = OutFrame(op: nat, fin: bool, payload: seq<byte>, key: Option<Masking.Key>)

  /** Clients mask with `key`; servers do not mask. */
  function MaskedKey(masked: bool, key: Masking.Key): Option<Masking.Key> {
    if masked then Some(key) else None
  }

  predicate Sendable(f: OutFrame) {
    f.op < 16 && |f.payload| < 0x8000_0000_0000_0000
  }

  function Header(f: OutFrame): BasicHeader
    requires Sendable(f)
  {
    MakeBasic(f.op, |f.payload|, f.fin, f.key.Some?)
  }

  /** The frame on the wire: section 5.2 of RFC 6455. */
  function Wire(f: OutFrame): seq<byte>
    requires Sendable(f)
  {
    [Header(f).b0, Header(f).b1] + MakeExtended(|f.payload|, f.key)
    + if f.key.Some? then Masking.Mask(f.payload, f.key.value) else f.payload
  }

  /** Where the payload starts. */
  function PayloadStart(f: OutFrame): nat {
    2 + (if |f.payload| < 126 then 0 else if |f.payload| < 65536 then 2 else 8) + if f.key.Some? then 4 else 0
  }

  lemma WireParts(f: OutFrame)
    requires Sendable(f)
    ensures var w, start, n := Wire(f), PayloadStart(f), |f.payload|;
      && |w| == start + n && w[0] == Header(f).b0 && w[1] == Header(f).b1
      && w[2..2 + SizeLen(n)] == ToBigEndian(n, SizeLen(n))
      && (f.key.Some? ==> w[start - 4..start] == f.key.value)
      && w[start..] == if f.key.Some? then Masking.Mask(f.payload, f.key.value) else f.payload
  {
    hide ToBigEndian, Masking.Mask, MakeBasic;
  }

  lemma HeaderOctets(f: OutFrame)
    requires Sendable(f)
    ensures var n := |f.payload|;
      && Header(f).b0 as nat == (if f.fin then 128 else 0) + f.op
      && Header(f).b1 as nat == (if f.key.Some? then 128 else 0) + if n < 126 then n else if n < 65536 then 126 else 127
  {
  }

  lemma SizeOctets(f: OutFrame)
    requires Sendable(f)
    ensures var w, n := Wire(f), |f.payload|;
      && |w| == PayloadStart(f) + n
      && (126 <= n < 65536 ==> w[2] as nat == n / 256 && w[3] as nat == n % 256)
      && (n >= 65536 ==> forall i :: 2 <= i < 10 ==> w[i] as nat == n / Pow256(9 - i) % 256)
  {
    WireParts(f);
    var w, n := Wire(f), |f.payload|;
    var k := SizeLen(n);
    assert Pow256(0) == 1 && Pow256(1) == 256;
    hide Wire, ToBigEndian, Pow256, Header;
    forall i | 2 <= i < 2 + k ensures w[i] as nat == n / Pow256(k + 1 - i) % 256 {
      BigEndianAt(n, k, i - 2);
      assert w[i] == w[2..2 + k][i - 2];
    }
  }

  /** Where the octets of a frame are: the figure in section 5.2 of RFC 6455. */
  lemma WireOctets(f: OutFrame)
    requires Sendable(f)
    ensures var w, n, start, masked := Wire(f), |f.payload|, PayloadStart(f), f.key.Some?;
      && |w| == start + n
      && w[0] as nat == (if f.fin then 128 else 0) + f.op
      && w[1] as nat == (if masked then 128 else 0) + (if n < 126 then n else if n < 65536 then 126 else 127)
      && (126 <= n < 65536 ==> w[2] as nat == n / 256 && w[3] as nat == n % 256)
      && (n >= 65536 ==> forall i :: 2 <= i < 10 ==> w[i] as nat == n / Pow256(9 - i) % 256)
      && (masked ==> w[start - 4..start] == f.key.value)
      && forall i :: 0 <= i < n ==>
        w[start..][i] == if masked then Xor(f.payload[i], f.key.value[i % 4]) else f.payload[i]
  {
    WireParts(f);
    SizeOctets(f);
    HeaderOctets(f);
    hide Wire, ToBigEndian, Pow256, Xor, Header, MakeBasic, SizeLen;
  }

  //
  // What a receiver should make of a sequence of frames
  //

  /** The data message being assembled, and the messages complete so far. */
  datatype Assembly = Assembly(partial: Option<Message>, out: seq<Message>)

  function Accept(a: Assembly, f: OutFrame): Assembly {
    if IsControl(f.op) then a.(out := a.out + [Message(f.op, f.payload)])
    else
      var msg := Extend(a, f);
      if f.fin then Assembly(None, a.out + [msg]) else Assembly(Some(msg), a.out)
  }

  /** The data message after the fragment `f`. */
  function Extend(a: Assembly, f: OutFrame): Message {
    match a.partial
    case None => Message(f.op, f.payload)
    case Some(m) => m.(payload := m.payload + f.payload)
  }

  function AcceptAll(a: Assembly, fs: seq<OutFrame>): Assembly
    decreases fs
  {
    if fs == [] then a else AcceptAll(Accept(a, fs[0]), fs[1..])
  }

  /** A frame a conforming peer may send next (sections 5.1, 5.4, 5.5 and 8.1 of RFC 6455), within the size limit. */
  predicate Legal(cfg: Config, a: Assembly, f: OutFrame) {
    && Sendable(f)
    && f.key.Some? == cfg.server
    && (if IsControl(f.op) then f.op <= PONG && f.fin && |f.payload| <= PAYLOAD_SIZE_BASIC
        else
          && f.op <= BINARY && (f.op == CONTINUATION <==> a.partial.Some?)
          && |Extend(a, f).payload| <= cfg.maxSize
          && (Extend(a, f).opcode == TEXT ==> Utf8.Run(Utf8.FRESH, Extend(a, f).payload).state != Utf8.REJECT)
          && (f.op == TEXT && f.fin ==> Utf8.Run(Utf8.FRESH, f.payload).state == Utf8.ACCEPT))
  }

  predicate LegalAll(cfg: Config, a: Assembly, fs: seq<OutFrame>)
    decreases fs
  {
    fs == [] || (Legal(cfg, a, fs[0]) && LegalAll(cfg, Accept(a, fs[0]), fs[1..]))
  }

  function WireAll(fs: seq<OutFrame>): seq<byte>
    requires forall i :: 0 <= i < |fs| ==> Sendable(fs[i])
  {
    if fs == [] then [] else Wire(fs[0]) + WireAll(fs[1..])
  }

  //
  // One frame
  //

  lemma HeaderAccepted(cfg: Config, a: Assembly, f: OutFrame)
    requires Legal(cfg, a, f)
    ensures ValidateBasic(cfg, Header(f), a.partial.None?) == None
    ensures var h, e := Header(f), MakeExtended(|f.payload|, f.key);
      && |e| == ExtendedLen(h) && ValidateExtended(h, e) == None && GetPayloadSize(h, e) == |f.payload|
      && GetOpcode(h) == f.op && GetFin(h) == f.fin && GetMasked(h) == f.key.Some?
      && (f.key.Some? ==> GetMaskingKey(h, e) == f.key.value)
  {
    HeaderRoundTrip(f.op, |f.payload|, f.fin, f.key);
  }

  /** The reader at a frame boundary, having assembled `a`. */
  predicate AtBoundary(r: Reader, cfg: Config, a: Assembly) {
    Valid(r) && r.cfg == cfg && r.phase == Basic([]) && r.data.msg == a.partial
  }

  /** The header bytes bring the reader to the point where the message buffer is set up. */
  lemma ReadsHeader(r: Reader, cfg: Config, a: Assembly, f: OutFrame, rest: seq<byte>)
    requires AtBoundary(r, cfg, a) && Legal(cfg, a, f)
    ensures var h, e := Header(f), MakeExtended(|f.payload|, f.key);
      && |e| == ExtendedLen(h)
      && Same(Consume(r, [h.b0, h.b1] + (e + rest)), Then(Begin(r, h, |f.payload|, GetMaskingKey(h, e)), 2 + |e|, rest))
  {
    HeaderAccepted(cfg, a, f);
    var h, e := Header(f), MakeExtended(|f.payload|, f.key);
    BulkBasic(r, [], [h.b0, h.b1], e + rest);
    assert Idle(r) == r && [] + [h.b0, h.b1] == [h.b0, h.b1];
    assert AfterBasic(r, [h.b0, h.b1]) == AfterExtended(r, h, []);
    hide Begin, ValidateBasic, ValidateExtended, Consume;
    if e == [] {
      assert e + rest == rest;
    } else {
      var r1 := r.(phase := Extended(h, []));
      BulkExtended(r1, h, [], e, rest);
      assert [] + e == e && Idle(r1) == r;
    }
  }

  /** The message buffer a frame's payload goes into. */
  function Opened(r: Reader, a: Assembly, f: OutFrame, key: Masking.Key): (s: Reader)
    requires Sendable(f)
    requires a.partial.Some? ==> r.data.msg.Some?
  {
    if !IsControl(f.op) && a.partial.Some? then r.(data := r.data.(key := key))
    else SetCurrent(r, Header(f), Metadata(Some(Message(f.op, [])), key, Utf8.FRESH))
  }

  lemma Begins(r: Reader, cfg: Config, a: Assembly, f: OutFrame, key: Masking.Key)
    requires AtBoundary(r, cfg, a) && Legal(cfg, a, f)
    ensures ValidateBasic(cfg, Header(f), a.partial.None?) == None
    ensures var s := Opened(r, a, f, key);
      && DataOk(s.data) && FrameOk(s, Header(f), |f.payload|) && Current(s, Header(f)).key == key
      && Begin(r, Header(f), |f.payload|, key) == AfterPayload(s, Header(f), |f.payload|)
  {
    HeaderAccepted(cfg, a, f);
    AcceptedOnce(cfg, Header(f), a.partial.None?);
    hide AfterPayload, ValidateBasic, Header;
  }

  function WirePayload(f: OutFrame): seq<byte> {
    if f.key.Some? then Masking.Mask(f.payload, f.key.value) else f.payload
  }

  /** Reading the payload unmasks it and appends it to the message. */
  lemma Absorbs(r: Reader, cfg: Config, a: Assembly, f: OutFrame, key: Masking.Key)
    requires AtBoundary(r, cfg, a) && Legal(cfg, a, f) && (f.key.Some? ==> key == f.key.value)
    ensures var s, h := Opened(r, a, f, key), Header(f);
      && Current(s, h).msg.Some?
      && var m := Absorb(Current(s, h), f.key.Some?, WirePayload(f));
        && !BadText(m)
        && m.msg.value == (if IsControl(f.op) then Message(f.op, f.payload) else Extend(a, f))
        && (!IsControl(f.op) && m.msg.value.opcode == TEXT ==> m.utf8 == Utf8.Run(Utf8.FRESH, m.msg.value.payload))
  {
    Begins(r, cfg, a, f, key);
    HeaderAccepted(cfg, a, f);
    hide Header, Masking.Mask, Utf8.Run, ValidateBasic;
    if f.key.Some? {
      Masking.MaskInvolution(f.payload, key, 0);
    }
    Utf8.RunEmpty(Utf8.FRESH);
    assert [] + f.payload == f.payload;
    if !IsControl(f.op) && a.partial.Some? {
      Utf8.RunConcat(Utf8.FRESH, a.partial.value.payload, f.payload);
    }
  }

  /** The reader once the whole payload has been stored. */
  function Filled(r: Reader, cfg: Config, a: Assembly, f: OutFrame, key: Masking.Key): Reader
    requires AtBoundary(r, cfg, a) && Legal(cfg, a, f) && (f.key.Some? ==> key == f.key.value)
  {
    Absorbs(r, cfg, a, f, key);
    var s := Opened(r, a, f, key);
    SetCurrent(Idle(s), Header(f), Absorb(Current(s, Header(f)), f.key.Some?, WirePayload(f)))
  }

  lemma AbsorbNothing(m: Metadata, masked: bool)
    requires m.msg.Some?
    ensures Absorb(m, masked, []) == m
  {
    assert m.msg.value.payload + [] == m.msg.value.payload;
  }

  /** The whole payload of a frame, read at once. */
  lemma WholePayload(s: Reader, h: BasicHeader, bytes: seq<byte>, k: nat)
    requires DataOk(s.data) && FrameOk(s, h, |bytes|)
    requires Current(s, h).msg.Some? && !BadText(Absorb(Current(s, h), GetMasked(h), bytes))
    ensures var t := SetCurrent(Idle(s), h, Absorb(Current(s, h), GetMasked(h), bytes));
      && DataOk(t.data) && FrameOk(t, h, 0)
      && Same(Then(AfterPayload(s, h, |bytes|), k, bytes), Then(AfterPayload(t, h, 0), k + |bytes|, []))
  {
    hide Absorb, BadText, DataOk, Consume, ValidateBasic;
    if bytes == [] {
      AbsorbNothing(Current(s, h), GetMasked(h));
      assert AfterPayload(Idle(s), h, 0) == AfterPayload(s, h, 0);
    } else {
      var p := s.(phase := Payload(h, |bytes|));
      assert AfterPayload(s, h, |bytes|) == Live(p);
      AbsorbOk(p, h, |bytes|, bytes);
      BulkPayload(p, h, |bytes|, bytes, []);
      assert bytes + [] == bytes;
    }
  }

  lemma FillsPayload(r: Reader, cfg: Config, a: Assembly, f: OutFrame, key: Masking.Key, k: nat)
    requires AtBoundary(r, cfg, a) && Legal(cfg, a, f) && (f.key.Some? ==> key == f.key.value)
    requires ValidateBasic(cfg, Header(f), a.partial.None?) == None
    ensures var s, h := Filled(r, cfg, a, f, key), Header(f);
      && DataOk(s.data) && FrameOk(s, h, 0)
      && Same(Then(Begin(r, h, |f.payload|, key), k, WirePayload(f)), Then(AfterPayload(s, h, 0), k + |f.payload|, []))
  {
    Begins(r, cfg, a, f, key);
    Absorbs(r, cfg, a, f, key);
    HeaderAccepted(cfg, a, f);
    hide Header, ValidateBasic, Begin, Absorb, BadText, Utf8.Run, Masking.Mask, Consume, AfterPayload;
    hide DataOk, FrameOk, Legal;
    WholePayload(Opened(r, a, f, key), Header(f), WirePayload(f), k);
  }

  /** The end of the frame: a complete message is delivered, a fragment kept. */
  lemma Ends(s: Session, cfg: Config, a: Assembly, f: OutFrame, key: Masking.Key)
    requires AtBoundary(s.r, cfg, a) && s.out == a.out && Legal(cfg, a, f) && (f.key.Some? ==> key == f.key.value)
    requires DataOk(Filled(s.r, cfg, a, f, key).data) && FrameOk(Filled(s.r, cfg, a, f, key), Header(f), 0)
    ensures var o, b := AfterPayload(Filled(s.r, cfg, a, f, key), Header(f), 0), Accept(a, f);
      o.Live? && var t := Deliver(s, o.r); t.error.None? && AtBoundary(t.r, cfg, b) && t.out == b.out
  {
    Absorbs(s.r, cfg, a, f, key);
    HeaderAccepted(cfg, a, f);
    hide Absorb, Header, ValidateBasic, Utf8.Run, WirePayload;
  }

  lemma ConsumeNothing(r: Reader)
    requires Valid(r)
    ensures Consume(r, []) == Consumed(Live(r), 0)
  {}

  lemma BoundaryFacts(r: Reader, cfg: Config, a: Assembly, f: OutFrame)
    requires AtBoundary(r, cfg, a) && Legal(cfg, a, f)
    ensures Valid(r) && r.cfg == cfg && Sendable(f) && r.data.msg == a.partial
    ensures DataOk(r.data) && r.control.msg.None? && ValidateBasic(cfg, Header(f), a.partial.None?) == None
    ensures IsControl(GetOpcode(Header(f))) ==> |f.payload| <= PAYLOAD_SIZE_BASIC
  {
    HeaderAccepted(cfg, a, f);
    hide DataOk, Header;
  }

  lemma ThenNothing(o: Outcome, n: nat)
    requires o.Live? && Valid(o.r)
    ensures Then(o, n, []) == Consumed(o, n)
  {
    hide Valid;
  }

  lemma WireSplits(f: OutFrame)
    requires Sendable(f)
    ensures var h, e := Header(f), MakeExtended(|f.payload|, f.key);
      Wire(f) == [h.b0, h.b1] + (e + WirePayload(f)) && |Wire(f)| == 2 + |e| + |f.payload|
  {
    hide Header, MakeExtended;
  }

  lemma SameChain(c: Consumed, d: Consumed, e: Consumed)
    requires Same(c, d) && Same(d, e) && e.o.Live?
    ensures c == e
  {
  }

  /** The bytes of a frame, consumed. */
  lemma ConsumesFrame(r: Reader, cfg: Config, a: Assembly, f: OutFrame, key: Masking.Key)
    requires AtBoundary(r, cfg, a) && Legal(cfg, a, f)
    requires |MakeExtended(|f.payload|, f.key)| == ExtendedLen(Header(f))
    requires key == GetMaskingKey(Header(f), MakeExtended(|f.payload|, f.key)) && (f.key.Some? ==> key == f.key.value)
    ensures DataOk(Filled(r, cfg, a, f, key).data) && FrameOk(Filled(r, cfg, a, f, key), Header(f), 0)
    ensures var o := AfterPayload(Filled(r, cfg, a, f, key), Header(f), 0);
      o.Live? ==> Hybi13Reader.Consume(r, Wire(f)) == Consumed(o, |Wire(f)|)
  {
    hide Header, MakeExtended, GetMaskingKey, ExtendedLen, WirePayload, Wire, ValidateBasic, AfterPayload, Begin;
    hide Consume, Filled, Legal, AtBoundary, FrameOk, DataOk, Valid, Then, Same;
    BoundaryFacts(r, cfg, a, f);
    var h, e := Header(f), MakeExtended(|f.payload|, f.key);
    WireSplits(f);
    ReadsHeader(r, cfg, a, f, WirePayload(f));
    FillsPayload(r, cfg, a, f, key, 2 + |e|);
    var o := AfterPayload(Filled(r, cfg, a, f, key), h, 0);
    if o.Live? {
      ThenNothing(o, |Wire(f)|);
      SameChain(Hybi13Reader.Consume(r, Wire(f)), Then(Begin(r, h, |f.payload|, key), 2 + |e|, WirePayload(f)),
                Then(o, |Wire(f)|, []));
    }
  }

  /** One legal frame, read from a frame boundary: the reader and the reference agree on what it amounts to. */
  lemma ReadsFrame(s: Session, cfg: Config, a: Assembly, f: OutFrame)
    requires SessionOk(s) && s.error.None? && AtBoundary(s.r, cfg, a) && s.out == a.out && Legal(cfg, a, f)
    ensures var t, b := Feed(s, Wire(f)), Accept(a, f);
      t.error.None? && AtBoundary(t.r, cfg, b) && t.out == b.out
  {
    HeaderAccepted(cfg, a, f);
    var key := GetMaskingKey(Header(f), MakeExtended(|f.payload|, f.key));
    assert f.key.Some? ==> key == f.key.value;
    hide Header, MakeExtended, GetMaskingKey, ExtendedLen, Wire, ValidateBasic, ValidateExtended, AfterPayload, Consume;
    hide Filled, Legal, Feed, Deliver, AtBoundary, FrameOk, DataOk, Valid, GetPayloadSize, Accept;
    ConsumesFrame(s.r, cfg, a, f, key);
    Ends(s, cfg, a, f, key);
    var o := AfterPayload(Filled(s.r, cfg, a, f, key), Header(f), 0);
    FeedConsumes(s, Wire(f));
    assert Wire(f)[|Wire(f)|..] == [];
    FeedNothing(Deliver(s, o.r));
  }

  //
  // The round trip
  //

  lemma {:induction false} LegalSendable(cfg: Config, a: Assembly, fs: seq<OutFrame>)
    requires LegalAll(cfg, a, fs)
    ensures forall i :: 0 <= i < |fs| ==> Sendable(fs[i])
    decreases fs
  {
    if fs != [] {
      LegalSendable(cfg, Accept(a, fs[0]), fs[1..]);
    }
  }

  /**
   End to end: whatever legal frames are sent, in whatever fragments and with control frames between them, the receiver
   delivers the control messages and the reassembled data messages, in order, and reports no error.
   */
  lemma {:induction false} RoundTrip(s: Session, cfg: Config, a: Assembly, fs: seq<OutFrame>)
    requires SessionOk(s) && s.error.None? && AtBoundary(s.r, cfg, a) && s.out == a.out && LegalAll(cfg, a, fs)
    ensures forall i :: 0 <= i < |fs| ==> Sendable(fs[i])
    ensures var t, b := Feed(s, WireAll(fs)), AcceptAll(a, fs);
      t.error.None? && AtBoundary(t.r, cfg, b) && t.out == b.out
    decreases fs
  {
    LegalSendable(cfg, a, fs);
    hide AtBoundary, Legal, Accept, Wire, SessionOk;
    if fs == [] {
      FeedNothing(s);
    } else {
      ReadsFrame(s, cfg, a, fs[0]);
      FeedConcat(s, Wire(fs[0]), WireAll(fs[1..]));
      RoundTrip(Feed(s, Wire(fs[0])), cfg, Accept(a, fs[0]), fs[1..]);
    }
  }
}
