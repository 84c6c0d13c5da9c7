/**
 Sender and receiver together: a message prepared in fragments, with control frames between them, is read back whole by
 the peer, however the bytes are cut.
 */
module Hybi13Exchange {
  import opened Bytes
  import opened Wrappers
  import opened Frame
  import opened Hybi13Reader
  import opened Hybi13RoundTrip
  import opened Hybi13Writer
  import Hybi13
  import Hybi13Accepts
  import Hybi13Faults
  import Hybi13Safety
  import Masking
  import Utf8

  //
  // What a sender may send
  //

  /** Control frames `prepare_control` takes, with opcodes the peer knows. */
  predicate ControlsOk(pieces: seq<Piece>) {
    forall i :: 0 <= i < |pieces| && pieces[i].Interjection? ==>
      pieces[i].op in {CLOSE, PING, PONG} && |pieces[i].payload| <= PAYLOAD_SIZE_BASIC
  }

  /** The first fragment of the message. */
  function First(pieces: seq<Piece>, last: seq<byte>): seq<byte> {
    if pieces == [] then last
    else match pieces[0]
      case Fragment(b, _) => b
      case Interjection(_, _, _) => First(pieces[1..], last)
  }

  /** The unfinished message, of which `begun` has been sent. */
  function Sent(op: nat, begun: seq<byte>, some: bool, out: seq<Message>): Assembly {
    Assembly(if some then Some(Message(op, begun)) else None, out)
  }

  /** A beginning of well-formed text is never rejected. */
  lemma PrefixNotRejected(a: seq<byte>, b: seq<byte>)
    requires Utf8.WellFormed(a + b)
    ensures Utf8.Run(Utf8.FRESH, a).state != Utf8.REJECT
  {
    hide Utf8.WellFormed;
    Utf8.NotRejectedIsPrefix(a);
  }

  /** Its fragments and the control frames between them are legal for a peer whose limit it keeps. */
  lemma {:induction false} FramesLegal(cfg: Config, op: nat, begun: seq<byte>, some: bool, pieces: seq<Piece>,
                                       last: seq<byte>, key: Masking.Key, out: seq<Message>)
    requires (op == TEXT || op == BINARY) && ControlsOk(pieces) && (!some ==> begun == [])
    requires var n := |begun + Text(pieces) + last|; n <= cfg.maxSize && n < 0x8000_0000_0000_0000
    requires op == TEXT ==> Utf8.WellFormed(begun + Text(pieces) + last)
    ensures LegalAll(cfg, Sent(op, begun, some, out), Frames(cfg.server, op, some, pieces, last, key))
    decreases pieces
  {
    hide Utf8.WellFormed, Sent;
    if pieces == [] {
      assert begun + [] + last == begun + last;
      LastLegal(cfg, op, begun, some, last, key, out);
      LegalCons(cfg, Sent(op, begun, some, out),
                OutFrame(NextOp(op, some), true, last, MaskedKey(cfg.server, key)), []);
    } else {
      var a, rest := Sent(op, begun, some, out), pieces[1..];
      assert ControlsOk(rest);
      match pieces[0]
      case Fragment(b, k) =>
        assert begun + Text(pieces) + last == begun + b + Text(rest) + last;
        assert begun + b + (Text(rest) + last) == begun + b + Text(rest) + last;
        var f, fs := OutFrame(NextOp(op, some), false, b, MaskedKey(cfg.server, k)),
                     Frames(cfg.server, op, true, rest, last, key);
        assert Frames(cfg.server, op, some, pieces, last, key) == [f] + fs;
        hide Text, Frames, LegalAll, Legal, Accept, ControlsOk;
        FragmentLegal(cfg, op, begun, some, b, k, Text(rest) + last, out);
        FramesLegal(cfg, op, begun + b, true, rest, last, key, out);
        LegalCons(cfg, a, f, fs);
      case Interjection(c, b, k) =>
        assert Text(pieces) == Text(rest);
        var f, fs := OutFrame(c, true, b, MaskedKey(cfg.server, k)), Frames(cfg.server, op, some, rest, last, key);
        assert Frames(cfg.server, op, some, pieces, last, key) == [f] + fs;
        InterjectionLegal(cfg, op, begun, some, c, b, k, out);
        hide Text, Frames, LegalAll, Legal, Accept, ControlsOk;
        FramesLegal(cfg, op, begun, some, rest, last, key, out + [Message(c, b)]);
        LegalCons(cfg, a, f, fs);
    }
  }

  lemma LegalCons(cfg: Config, a: Assembly, f: OutFrame, fs: seq<OutFrame>)
    requires Legal(cfg, a, f) && (fs == [] || LegalAll(cfg, Accept(a, f), fs))
    ensures LegalAll(cfg, a, [f] + fs)
  {
    assert ([f] + fs)[1..] == fs;
  }

  lemma InterjectionLegal(cfg: Config, op: nat, begun: seq<byte>, some: bool, c: nat, b: seq<byte>, key: Masking.Key,
                          out: seq<Message>)
    requires c in {CLOSE, PING, PONG} && |b| <= PAYLOAD_SIZE_BASIC
    ensures var a, f := Sent(op, begun, some, out), OutFrame(c, true, b, MaskedKey(cfg.server, key));
      Legal(cfg, a, f) && Accept(a, f) == Sent(op, begun, some, out + [Message(c, b)])
  {
  }

  lemma FragmentLegal(cfg: Config, op: nat, begun: seq<byte>, some: bool, b: seq<byte>, key: Masking.Key,
                      rest: seq<byte>, out: seq<Message>)
    requires (op == TEXT || op == BINARY) && (!some ==> begun == [])
    requires var n := |begun + b + rest|; n <= cfg.maxSize && n < 0x8000_0000_0000_0000
    requires op == TEXT ==> Utf8.WellFormed(begun + b + rest)
    ensures var a, f := Sent(op, begun, some, out), OutFrame(NextOp(op, some), false, b, MaskedKey(cfg.server, key));
      Legal(cfg, a, f) && Accept(a, f) == Sent(op, begun + b, true, out)
  {
    hide Utf8.Run, Utf8.WellFormed;
    assert !some ==> begun + b == b;
    if op == TEXT {
      PrefixNotRejected(begun + b, rest);
    }
  }

  lemma LastLegal(cfg: Config, op: nat, begun: seq<byte>, some: bool, last: seq<byte>, key: Masking.Key,
                  out: seq<Message>)
    requires (op == TEXT || op == BINARY) && (!some ==> begun == [])
    requires var n := |begun + last|; n <= cfg.maxSize && n < 0x8000_0000_0000_0000
    requires op == TEXT ==> Utf8.WellFormed(begun + last)
    ensures Legal(cfg, Sent(op, begun, some, out), OutFrame(NextOp(op, some), true, last, MaskedKey(cfg.server, key)))
  {
    hide Utf8.Run, Utf8.WellFormed;
    assert !some ==> begun + last == last;
    if op == TEXT {
      assert begun + last + [] == begun + last;
      PrefixNotRejected(begun + last, []);
      Utf8.AcceptsExactlyWellFormed(begun + last);
    }
  }

  //
  // Preparing and reading
  //

  predicate AllSendable(fs: seq<OutFrame>) {
    forall i :: 0 <= i < |fs| ==> Sendable(fs[i])
  }

  /** Prepares the frames of a message one after the other. */
  method PrepareAll(server: bool, op: nat, begun: bool, pieces: seq<Piece>, last: seq<byte>, key: Masking.Key)
    returns (wire: seq<byte>)
    requires (op == TEXT || op == BINARY) && ControlsOk(pieces)
    requires AllSendable(Frames(!server, op, begun, pieces, last, key))
    requires op == TEXT && !begun ==> Utf8.WellFormed(First(pieces, last))
    ensures wire == WireAll(Frames(!server, op, begun, pieces, last, key))
    decreases pieces
  {
    hide Utf8.WellFormed, Wire;
    ghost var fs := Frames(!server, op, begun, pieces, last, key);
    assert Sendable(fs[0]) && AllSendable(fs[1..]);
    var p;
    if pieces == [] {
      p := PrepareDataFrame(server, NextOp(op, begun), true, last, key);
      assert fs[1..] == [];
      return p.header + p.payload;
    }
    var rest := pieces[1..];
    match pieces[0]
    case Fragment(b, k) =>
      p := PrepareDataFrame(server, NextOp(op, begun), false, b, k);
      assert fs[1..] == Frames(!server, op, true, rest, last, key);
      wire := PrepareAll(server, op, true, rest, last, key);
      wire := p.header + p.payload + wire;
    case Interjection(c, b, k) =>
      p := PrepareControl(server, c, b, k);
      assert fs[1..] == Frames(!server, op, begun, rest, last, key);
      wire := PrepareAll(server, op, begun, rest, last, key);
      wire := p.header + p.payload + wire;
  }

  /** Reads of the given sizes, and one for what is left. */
  function Cut(bytes: seq<byte>, sizes: seq<nat>): seq<seq<byte>> {
    if sizes == [] then [bytes]
    else
      var n := if sizes[0] <= |bytes| then sizes[0] else |bytes|;
      [bytes[..n]] + Cut(bytes[n..], sizes[1..])
  }

  lemma {:induction false} CutFlattens(bytes: seq<byte>, sizes: seq<nat>)
    ensures Flatten(Cut(bytes, sizes)) == bytes
  {
    if sizes == [] {
      assert Flatten([bytes]) == bytes + Flatten([]);
    } else {
      var n := if sizes[0] <= |bytes| then sizes[0] else |bytes|;
      CutFlattens(bytes[n..], sizes[1..]);
      assert Cut(bytes, sizes)[1..] == Cut(bytes[n..], sizes[1..]);
    }
  }

  /** Reads of any sizes deliver the messages of a legal sequence of frames. */
  method Receive(cfg: Config, ghost fs: seq<OutFrame>, wire: seq<byte>, sizes: seq<nat>)
    returns (out: seq<Message>, ec: Option<Error>)
    requires LegalAll(cfg, Assembly(None, []), fs) && AllSendable(fs) && wire == WireAll(fs)
    ensures ec == None && out == AcceptAll(Assembly(None, []), fs).out
  {
    hide Feed, AcceptAll, LegalAll, WireAll, Hybi13.Processor.Settled, Hybi13.Processor.Abs, Hybi13.Processor.Pending;
    var p := new Hybi13.Processor(cfg.server, cfg.maxSize);
    CutFlattens(wire, sizes);
    RoundTrip(Session(Fresh(cfg), [], None), cfg, Assembly(None, []), fs);
    out, ec := Hybi13.ReadChunks(p, Cut(wire, sizes));
  }

  /**
   A message sent in fragments with control frames between them: the peer reports no error and delivers the control
   messages and then the whole message, whatever the keys and however the stream is cut into reads.
   */
  method Exchange(cfg: Config, op: nat, pieces: seq<Piece>, last: seq<byte>, key: Masking.Key, sizes: seq<nat>)
    returns (out: seq<Message>, ec: Option<Error>)
    requires (op == TEXT || op == BINARY) && ControlsOk(pieces)
    requires |Text(pieces) + last| <= cfg.maxSize && |Text(pieces) + last| < 0x8000_0000_0000_0000
    requires op == TEXT ==> Utf8.WellFormed(Text(pieces) + last) && Utf8.WellFormed(First(pieces, last))
    ensures ec == None && out == Controls(pieces) + [Message(op, Text(pieces) + last)]
  {
    hide Utf8.WellFormed, Text, Controls, Frames, First, LegalAll, AcceptAll, WireAll;
    var a := Assembly(None, []);
    ghost var fs := Frames(cfg.server, op, false, pieces, last, key);
    assert [] + Text(pieces) + last == Text(pieces) + last;
    FramesLegal(cfg, op, [], false, pieces, last, key, []);
    LegalSendable(cfg, a, fs);
    FragmentsReassemble(cfg.server, op, [], pieces, last, key, a);
    assert [] + Controls(pieces) == Controls(pieces);
    var wire := PrepareAll(!cfg.server, op, false, pieces, last, key);
    out, ec := Receive(cfg, fs, wire, sizes);
  }

  /**
   Whatever is read without error was sent as legal frames, and what was delivered is what they carry; an error is the
   first fault of the first frame that has one.
   */
  method ReceiveAny(cfg: Config, chunks: seq<seq<byte>>) returns (out: seq<Message>, ec: Option<Error>)
    requires cfg.maxSize < 0x8000_0000_0000_0000
    requires Hybi13Safety.NoWraps(Session(Fresh(cfg), [], None), Flatten(chunks))
    ensures ec.None? ==> exists fs, more ::
      LegalAll(cfg, Assembly(None, []), fs) && Hybi13Accepts.Splits(Flatten(chunks), fs, more)
      && out == AcceptAll(Assembly(None, []), fs).out
    ensures ec.Some? ==> exists k, fs, frame ::
      0 < k <= |Flatten(chunks)| && Hybi13Faults.Faulty(cfg, Flatten(chunks)[..k], fs, frame, ec.value)
  {
    hide Feed, AcceptAll, LegalAll, WireAll, Hybi13.Processor.Settled, Hybi13.Processor.Abs, Hybi13.Processor.Pending;
    hide Hybi13Safety.NoWraps, Hybi13Accepts.Explains, Hybi13Faults.Faulty;
    var p := new Hybi13.Processor(cfg.server, cfg.maxSize);
    out, ec := Hybi13.ReadChunks(p, chunks);
    if ec.None? {
      ghost var fs, more := Hybi13Accepts.AcceptsOnlyLegal(cfg, Flatten(chunks));
    } else {
      ghost var k, fs, frame := Hybi13Faults.ErrorNamesFault(cfg, Flatten(chunks));
    }
  }
}
