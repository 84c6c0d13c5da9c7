/**
 Framing of the hybi draft 00 (processors/hybi00.hpp): 0x00, the text, 0xFF.
 */
module Hybi00 {
  import opened Bytes
  import opened Wrappers
  import Utf8

  const MSG_HDR: byte := 0x00
  const MSG_FTR: byte := 0xFF
  const TEXT := 1

  /** What is known after each byte read. */
  datatype Phase = Header | Payload(text: seq<byte>) | Fatal

  datatype Session = Session(phase: Phase, out: seq<seq<byte>>)

  const START := Session(Header, [])

  function FeedByte(s: Session, b: byte): Session {
    match s.phase
    case Header => if b == MSG_HDR then s.(phase := Payload([])) else s.(phase := Fatal)
    case Payload(t) => if b == MSG_FTR then Session(Header, s.out + [t]) else s.(phase := Payload(t + [b]))
    case Fatal => s
  }

  function Feed(s: Session, bytes: seq<byte>): Session
    decreases bytes
  {
    if bytes == [] then s else Feed(FeedByte(s, bytes[0]), bytes[1..])
  }

  function FeedChunks(s: Session, chunks: seq<seq<byte>>): Session
    decreases chunks
  {
    if chunks == [] then s else FeedChunks(Feed(s, chunks[0]), chunks[1..])
  }

  lemma {:induction false} FeedConcat(s: Session, a: seq<byte>, b: seq<byte>)
    ensures Feed(s, a + b) == Feed(Feed(s, a), b)
    decreases a
  {
    if a == [] {
      assert a + b == b;
    } else {
      assert (a + b)[1..] == a[1..] + b;
      FeedConcat(FeedByte(s, a[0]), a[1..], b);
    }
  }

  lemma {:induction false} ChunkIndependence(s: Session, chunks: seq<seq<byte>>)
    ensures FeedChunks(s, chunks) == Feed(s, Flatten(chunks))
    decreases chunks
  {
    if chunks != [] {
      FeedConcat(s, chunks[0], Flatten(chunks[1..]));
      ChunkIndependence(Feed(s, chunks[0]), chunks[1..]);
    }
  }

  lemma {:induction false} FatalStays(s: Session, bytes: seq<byte>)
    requires s.phase == Fatal
    ensures Feed(s, bytes) == s
    decreases bytes
  {
    if bytes != [] {
      FatalStays(s, bytes[1..]);
    }
  }

  //
  // Sending
  //

  datatype Prepared = Ready(wire: seq<byte>) | InvalidOpcode | InvalidPayload

  function Frame(text: seq<byte>): seq<byte> {
    [MSG_HDR] + text + [MSG_FTR]
  }

  method PrepareDataFrame(opcode: nat, payload: seq<byte>) returns (r: Prepared)
    ensures r ==
      if opcode != TEXT then InvalidOpcode
      else if !Utf8.WellFormed(payload) then InvalidPayload else Ready([0x00] + payload + [0xFF])
  {
    if opcode != TEXT { return InvalidOpcode; }
    var valid := Utf8.Validate(payload);
    if !valid { return InvalidPayload; }
    var header := [MSG_HDR];
    return Ready(header + payload + [MSG_FTR]);
  }

  /** A byte of well-formed text is never the terminator. */
  lemma NoTerminator(text: seq<byte>)
    requires Utf8.WellFormed(text)
    ensures MSG_FTR !in text
  {
    Utf8.AcceptsExactlyWellFormed(text);
    hide Utf8.WellFormed, Utf8.Run;
    Utf8.NeverRejectedBytes(Utf8.FRESH, text);
  }

  lemma {:induction false} FeedText(t: seq<byte>, text: seq<byte>, out: seq<seq<byte>>)
    requires MSG_FTR !in text
    ensures Feed(Session(Payload(t), out), text) == Session(Payload(t + text), out)
    decreases text
  {
    if text == [] {
      assert t + text == t;
    } else {
      FeedText(t + [text[0]], text[1..], out);
      assert t + text == (t + [text[0]]) + text[1..];
    }
  }

  lemma {:induction false} OutGrows(s: Session, bytes: seq<byte>)
    ensures s.out <= Feed(s, bytes).out
    decreases bytes
  {
    if bytes != [] {
      OutGrows(FeedByte(s, bytes[0]), bytes[1..]);
    }
  }

  /** A frame is read back as what was put in it exactly if that contains no terminator. */
  lemma FrameReadsIff(out: seq<seq<byte>>, text: seq<byte>)
    ensures Feed(Session(Header, out), [0x00] + text + [0xFF]) == Session(Header, out + [text]) <==> 0xFF !in text
  {
    var s := Session(Header, out);
    FeedConcat(s, [MSG_HDR], text + [MSG_FTR]);
    assert Frame(text) == [MSG_HDR] + (text + [MSG_FTR]);
    var open := Session(Payload([]), out);
    assert Feed(s, [MSG_HDR]) == open by { assert Feed(open, []) == open; }
    if MSG_FTR !in text {
      FeedConcat(open, text, [MSG_FTR]);
      FeedText([], text, out);
      assert [] + text == text;
      FeedOne(Session(Payload(text), out), MSG_FTR);
    } else {
      FirstTerminator(open, text);
    }
  }

  lemma FeedOne(s: Session, b: byte)
    ensures Feed(s, [b]) == FeedByte(s, b)
  {
  }

  lemma {:induction false} FirstAt(text: seq<byte>) returns (k: nat)
    requires MSG_FTR in text
    ensures k < |text| && text[k] == MSG_FTR && MSG_FTR !in text[..k]
  {
    if text[0] == MSG_FTR {
      k := 0;
    } else {
      k := FirstAt(text[1..]);
      assert text[..k + 1] == [text[0]] + text[1..][..k];
      k := k + 1;
    }
  }

  /** The first terminator ends the message early. */
  lemma FirstTerminator(open: Session, text: seq<byte>)
    requires open.phase == Payload([]) && MSG_FTR in text
    ensures Feed(open, text + [MSG_FTR]).out != open.out + [text]
  {
    var k := FirstAt(text);
    var rest := text[k + 1..] + [MSG_FTR];
    assert text + [MSG_FTR] == text[..k] + ([MSG_FTR] + rest);
    FeedConcat(open, text[..k], [MSG_FTR] + rest);
    FeedText([], text[..k], open.out);
    assert [] + text[..k] == text[..k];
    var early := Session(Payload(text[..k]), open.out);
    FeedConcat(early, [MSG_FTR], rest);
    FeedOne(early, MSG_FTR);
    var done := FeedByte(early, MSG_FTR);
    OutGrows(done, rest);
    assert Feed(done, rest).out[|open.out|] == text[..k];
    assert (open.out + [text])[|open.out|] == text;
  }

  function Wire(texts: seq<seq<byte>>): seq<byte> {
    if texts == [] then [] else Frame(texts[0]) + Wire(texts[1..])
  }

  lemma {:induction false} ReadsAll(texts: seq<seq<byte>>, out: seq<seq<byte>>)
    requires forall t :: t in texts ==> Utf8.WellFormed(t)
    ensures Feed(Session(Header, out), Wire(texts)) == Session(Header, out + texts)
    decreases texts
  {
    if texts == [] {
      assert out + texts == out;
    } else {
      NoTerminator(texts[0]);
      FrameReadsIff(out, texts[0]);
      FeedConcat(Session(Header, out), Frame(texts[0]), Wire(texts[1..]));
      ReadsAll(texts[1..], out + [texts[0]]);
      assert out + texts == (out + [texts[0]]) + texts[1..];
    }
  }

  /** Any texts that can be prepared are recovered exactly, in order, however the bytes are cut into reads. */
  lemma RoundTrip(texts: seq<seq<byte>>, chunks: seq<seq<byte>>)
    requires forall t :: t in texts ==> Utf8.WellFormed(t)
    requires Flatten(chunks) == Wire(texts)
    ensures FeedChunks(START, chunks) == Session(Header, texts)
  {
    ChunkIndependence(START, chunks);
    ReadsAll(texts, []);
    assert [] + texts == texts;
  }

  //
  // The processor object
  //

  datatype State = HEADER | PAYLOAD | READY | FATAL_ERROR

  /** `std::find`: the first position of `b`, or the end. */
  method Find(buf: seq<byte>, start: nat, b: byte) returns (at: nat)
    requires start <= |buf|
    ensures start <= at <= |buf| && b !in buf[start..at]
    ensures at < |buf| ==> buf[at] == b
  {
    at := start;
    while at < |buf| && buf[at] != b
      invariant start <= at <= |buf| && b !in buf[start..at]
    {
      at := at + 1;
    }
  }

  class Processor {
    var state: State
    var msg: Option<seq<byte>>

    constructor ()
      ensures state == HEADER && Valid()
    {
      state, msg := HEADER, None;
    }

    ghost predicate Valid()
      reads this
    {
      state == PAYLOAD || state == READY ==> msg.Some?
    }

    /** With the messages delivered so far; a ready message counts as delivered. */
    ghost function Abs(out: seq<seq<byte>>): Session
      requires Valid()
      reads this
    {
      match state
      case HEADER => Session(Header, out)
      case PAYLOAD => Session(Payload(msg.value), out)
      case READY => Session(Header, out + [msg.value])
      case FATAL_ERROR => Session(Fatal, out)
    }

    /** Bytes of at most one message; `failed` is a protocol violation. */
    method Consume(buf: seq<byte>, ghost out: seq<seq<byte>>) returns (p: nat, failed: bool)
      requires Valid() && (state == HEADER || state == PAYLOAD)
      modifies this
      ensures Valid() && p <= |buf| && failed == (state == FATAL_ERROR)
      ensures Abs(out) == Feed(old(Abs(out)), if failed then buf else buf[..p])
      ensures !failed && state != READY ==> p == |buf|
      ensures buf != [] && !failed ==> p > 0
    {
      p := 0;
      failed := false;
      assert buf[..0] == [] && Feed(Abs(out), []) == Abs(out);
      while p < |buf|
        invariant p <= |buf| && Valid() && failed == (state == FATAL_ERROR)
        invariant Abs(out) == Feed(old(Abs(out)), buf[..p])
        invariant state == READY ==> p > 0
        decreases |buf| - p, if state == HEADER || state == PAYLOAD then 1 else 0
      {
        hide Feed;
        ghost var before := Abs(out);
        if state == HEADER {
          if buf[p] == MSG_HDR {
            FeedMore(old(Abs(out)), buf, p, p + 1);
            FeedOne(before, buf[p]);
            p := p + 1;
            msg := Some([]);
            state := PAYLOAD;
          } else {
            FeedMore(old(Abs(out)), buf, p, |buf|);
            FatalStays(FeedByte(before, buf[p]), buf[p + 1..]);
            failed := true;
            state := FATAL_ERROR;
            assert buf[..|buf|] == buf;
            return;
          }
        } else if state == PAYLOAD {
          var it := Find(buf, p, MSG_FTR);
          FeedMore(old(Abs(out)), buf, p, it);
          FeedText(msg.value, buf[p..it], out);
          msg := Some(msg.value + buf[p..it]);
          p := it;
          if it != |buf| {
            FeedMore(old(Abs(out)), buf, p, p + 1);
            FeedOne(Abs(out), buf[p]);
            p := p + 1;
            state := READY;
          }
        } else {
          break;
        }
      }
    }

    method GetMessage() returns (text: seq<byte>)
      requires Valid() && state == READY
      modifies this
      ensures Valid() && state == HEADER && old(msg) == Some(text) && msg.None?
    {
      text := msg.value;
      msg := None;
      state := HEADER;
    }

    /** The loop of `handle_read_frame` over one read. */
    method ReadLoop(buf: seq<byte>, out: seq<seq<byte>>) returns (all: seq<seq<byte>>, failed: bool)
      requires Valid() && (state == HEADER || state == PAYLOAD)
      modifies this
      ensures Valid() && state != READY && failed == (state == FATAL_ERROR)
      ensures Abs(all) == Feed(old(Abs(out)), buf)
    {
      all, failed := out, false;
      var p := 0;
      assert buf[0..] == buf;
      while p < |buf|
        invariant p <= |buf| && Valid() && (state == HEADER || state == PAYLOAD)
        invariant Feed(Abs(all), buf[p..]) == Feed(old(Abs(out)), buf)
      {
        var n;
        ghost var before := Abs(all);
        n, failed := Consume(buf[p..], all);
        if failed { return; }
        FeedConcat(before, buf[p..p + n], buf[p + n..]);
        assert buf[p..][..n] == buf[p..p + n];
        assert buf[p..] == buf[p..p + n] + buf[p + n..];
        p := p + n;
        if state == READY {
          var text := GetMessage();
          all := all + [text];
        }
      }
    }
  }

  lemma FeedMore(s: Session, buf: seq<byte>, p: nat, q: nat)
    requires p <= q <= |buf|
    ensures Feed(s, buf[..q]) == Feed(Feed(s, buf[..p]), buf[p..q])
  {
    assert buf[..q] == buf[..p] + buf[p..q];
    FeedConcat(s, buf[..p], buf[p..q]);
  }
}
