/**
 Preparing frames for the wire (hybi13.hpp): `prepare_data_frame`, `prepare_control` and `prepare_close`.
 */
module Hybi13Writer {
  import opened Bytes
  import opened Wrappers
  import opened Frame
  import opened Hybi13Reader
  import opened Hybi13RoundTrip
  import Masking
  import Close
  import Utf8

  datatype PrepareError = BadOpcode | BadPayload | TooBig | BadClose(error: Close.Error)

  /** What `prepare_*` stores in the outgoing message. */
  datatype Prepared = Ready(header: seq<byte>, payload: seq<byte>) | Refused(error: PrepareError)

  /** `p` is `f` ready for the wire. */
  ghost predicate Encodes(p: Prepared, f: OutFrame) {
    Sendable(f) && p.Ready? && p.header + p.payload == Wire(f)
  }

  function PrepareHeader(h: BasicHeader, e: seq<byte>): seq<byte>
    requires |e| >= ExtendedLen(h)
  {
    [h.b0, h.b1] + e[..GetHeaderLen(h) - BASIC_HEADER_LENGTH]
  }

  /** Header and masked payload; what `prepare_data_frame` and `prepare_control` have in common. */
  method Assemble(server: bool, op: nat, fin: bool, payload: seq<byte>, key: Masking.Key) returns (p: Prepared)
    requires op < 16 && |payload| < 0x8000_0000_0000_0000
    ensures Encodes(p, OutFrame(op, fin, payload, MaskedKey(!server, key)))
  {
    hide Masking.Mask, ToBigEndian;
    ghost var f := OutFrame(op, fin, payload, MaskedKey(!server, key));
    var masked := !server;
    var h := MakeBasic(op, |payload|, fin, masked);
    var input := new byte[|payload|](i requires 0 <= i < |payload| => payload[i]);
    var output := new byte[|payload|](_ => 0);
    assert input[..] == payload;
    if masked {
      HeaderRoundTrip(op, |payload|, fin, Some(key));
      var e := MakeExtended(|payload|, Some(key));
      assert input[..|payload|] == payload && output[|payload|..] == [];
      Masking.WordMaskExact(input, output, |payload|, key);
      assert e[..|e|] == e && output[..] == Masking.Mask(payload, key);
      p := Ready(PrepareHeader(h, e), output[..]);
    } else {
      HeaderRoundTrip(op, |payload|, fin, None);
      var e := MakeExtended(|payload|, None);
      forall i | 0 <= i < |payload| {
        output[i] := input[i];
      }
      assert e[..|e|] == e && output[..] == payload;
      p := Ready(PrepareHeader(h, e), output[..]);
    }
  }

  method PrepareDataFrame(server: bool, op: nat, fin: bool, payload: seq<byte>, key: Masking.Key) returns (p: Prepared)
    requires op < 16 && |payload| < 0x8000_0000_0000_0000
    ensures p == Refused(BadOpcode) <==> IsControl(op)
    ensures p == Refused(BadPayload) <==> op == TEXT && !Utf8.WellFormed(payload)
    ensures p.Refused? ==> p.error == BadOpcode || p.error == BadPayload
    ensures p.Ready? ==> Encodes(p, OutFrame(op, fin, payload, MaskedKey(!server, key)))
  {
    hide Utf8.WellFormed, Wire;
    if IsControl(op) {
      return Refused(BadOpcode);
    }
    if op == TEXT {
      var ok := Utf8.Validate(payload);
      if !ok {
        return Refused(BadPayload);
      }
    }
    p := Assemble(server, op, fin, payload, key);
  }

  method PrepareControl(server: bool, op: nat, payload: seq<byte>, key: Masking.Key) returns (p: Prepared)
    requires op < 16
    ensures !IsControl(op) ==> p == Refused(BadOpcode)
    ensures IsControl(op) && |payload| > PAYLOAD_SIZE_BASIC ==> p == Refused(TooBig)
    ensures IsControl(op) && |payload| <= PAYLOAD_SIZE_BASIC ==>
      Encodes(p, OutFrame(op, true, payload, MaskedKey(!server, key)))
  {
    hide Wire;
    if !IsControl(op) {
      return Refused(BadOpcode);
    }
    if |payload| > PAYLOAD_SIZE_BASIC {
      return Refused(TooBig);
    }
    p := Assemble(server, op, true, payload, key);
  }

  method PrepareClose(server: bool, code: nat, reason: seq<byte>, key: Masking.Key) returns (p: Prepared)
    requires code < 0x10000
    ensures match Close.ClosePayload(code, reason)
      case Err(e) => p == Refused(BadClose(e))
      case Ok(payload) => Encodes(p, OutFrame(CLOSE, true, payload, MaskedKey(!server, key)))
    ensures p.Ready? ==> p.header + p.payload != [] && (p.header + p.payload)[0] == 0x88
  {
    hide Wire;
    if Close.Reserved(code) {
      return Refused(BadClose(Close.ReservedCloseCode));
    }
    if Close.Invalid(code) && code != Close.NO_STATUS {
      return Refused(BadClose(Close.InvalidCloseCode));
    }
    if code == Close.NO_STATUS && |reason| > 0 {
      return Refused(BadClose(Close.ReasonRequiresCode));
    }
    if |reason| > PAYLOAD_SIZE_BASIC - 2 {
      return Refused(BadClose(Close.ControlTooBig));
    }
    var payload := [];
    if code != Close.NO_STATUS {
      payload := [code / 256, code % 256] + reason;
    }
    WireOctets(OutFrame(CLOSE, true, payload, MaskedKey(!server, key)));
    p := PrepareControl(server, CLOSE, payload, key);
  }

  //
  // Messages cut into frames
  //

  /** What goes out before the last fragment of a data message; `key` is used if the sender masks. */
  datatype Piece = Fragment(bytes: seq<byte>, key: Masking.Key)
                 | Interjection(op: nat, payload: seq<byte>, key: Masking.Key)

  /** The opcode of the next fragment. */
  function NextOp(op: nat, begun: bool): nat {
    if begun then CONTINUATION else op
  }

  /** The data message `op` in fragments, with control frames between them; `begun` once a fragment has gone out. */
  function Frames(masked: bool, op: nat, begun: bool, pieces: seq<Piece>, last: seq<byte>, key: Masking.Key)
    : seq<OutFrame>
    decreases pieces
  {
    if pieces == [] then [OutFrame(NextOp(op, begun), true, last, MaskedKey(masked, key))]
    else match pieces[0]
      case Fragment(b, k) =>
        [OutFrame(NextOp(op, begun), false, b, MaskedKey(masked, k))] + Frames(masked, op, true, pieces[1..], last, key)
      case Interjection(c, b, k) =>
        [OutFrame(c, true, b, MaskedKey(masked, k))] + Frames(masked, op, begun, pieces[1..], last, key)
  }

  function Text(pieces: seq<Piece>): seq<byte> {
    if pieces == [] then []
    else match pieces[0]
      case Fragment(b, _) => b + Text(pieces[1..])
      case Interjection(_, _, _) => Text(pieces[1..])
  }

  function Controls(pieces: seq<Piece>): seq<Message> {
    if pieces == [] then []
    else match pieces[0]
      case Fragment(_, _) => Controls(pieces[1..])
      case Interjection(c, b, _) => [Message(c, b)] + Controls(pieces[1..])
  }

  /** A message sent in fragments is assembled whole, after the control messages sent between its fragments. */
  lemma {:induction false} FragmentsReassemble(masked: bool, op: nat, begun: seq<byte>, pieces: seq<Piece>,
                                               last: seq<byte>, key: Masking.Key, a: Assembly)
    requires !IsControl(op) && (forall i :: 0 <= i < |pieces| && pieces[i].Interjection? ==> IsControl(pieces[i].op))
    requires a.partial.Some? ==> a.partial == Some(Message(op, begun))
    requires a.partial.None? ==> begun == []
    ensures AcceptAll(a, Frames(masked, op, a.partial.Some?, pieces, last, key))
         == Assembly(None, a.out + Controls(pieces) + [Message(op, begun + Text(pieces) + last)])
    decreases pieces
  {
    if pieces == [] {
      var f := OutFrame(NextOp(op, a.partial.Some?), true, last, MaskedKey(masked, key));
      assert begun + [] + last == begun + last && (begun == [] ==> begun + last == last);
      assert a.out + [] + [Message(op, begun + last)] == a.out + [Message(op, begun + last)];
      AcceptCons(a, f, []);
    } else {
      var rest := pieces[1..];
      hide AcceptAll, Accept, Frames, Text, Controls;
      match pieces[0]
      case Fragment(bytes, _) =>
        FragmentFirst(masked, op, begun, pieces, last, key, a);
        FragmentsReassemble(masked, op, begun + bytes, rest, last, key,
                            Assembly(Some(Message(op, begun + bytes)), a.out));
      case Interjection(c, bytes, _) =>
        InterjectionFirst(masked, op, pieces, last, key, a);
        FragmentsReassemble(masked, op, begun, rest, last, key, a.(out := a.out + [Message(c, bytes)]));
    }
  }

  lemma AcceptCons(a: Assembly, f: OutFrame, fs: seq<OutFrame>)
    ensures AcceptAll(a, [f] + fs) == AcceptAll(Accept(a, f), fs)
  {
    assert ([f] + fs)[1..] == fs;
  }

  /** A fragment is added to the message. */
  lemma FragmentFirst(masked: bool, op: nat, begun: seq<byte>, pieces: seq<Piece>, last: seq<byte>,
                      key: Masking.Key, a: Assembly)
    requires !IsControl(op) && pieces != [] && pieces[0].Fragment?
    requires if a.partial.Some? then a.partial.value == Message(op, begun) else begun == []
    ensures AcceptAll(a, Frames(masked, op, a.partial.Some?, pieces, last, key))
         == AcceptAll(Assembly(Some(Message(op, begun + pieces[0].bytes)), a.out),
                      Frames(masked, op, true, pieces[1..], last, key))
    ensures begun + pieces[0].bytes + Text(pieces[1..]) == begun + Text(pieces)
    ensures Controls(pieces) == Controls(pieces[1..])
  {
    var f := OutFrame(NextOp(op, a.partial.Some?), false, pieces[0].bytes, MaskedKey(masked, pieces[0].key));
    AcceptCons(a, f, Frames(masked, op, true, pieces[1..], last, key));
    assert begun == [] ==> begun + f.payload == f.payload;
    assert Accept(a, f) == Assembly(Some(Message(op, begun + pieces[0].bytes)), a.out);
    hide AcceptAll, Accept;
    assert begun + pieces[0].bytes + Text(pieces[1..]) == begun + (pieces[0].bytes + Text(pieces[1..]));
  }

  /** A control message is delivered. */
  lemma InterjectionFirst(masked: bool, op: nat, pieces: seq<Piece>, last: seq<byte>, key: Masking.Key, a: Assembly)
    requires pieces != [] && pieces[0].Interjection? && IsControl(pieces[0].op)
    ensures var m := Message(pieces[0].op, pieces[0].payload);
      && AcceptAll(a, Frames(masked, op, a.partial.Some?, pieces, last, key))
         == AcceptAll(a.(out := a.out + [m]), Frames(masked, op, a.partial.Some?, pieces[1..], last, key))
      && a.out + [m] + Controls(pieces[1..]) == a.out + Controls(pieces) && Text(pieces) == Text(pieces[1..])
  {
    var m := Message(pieces[0].op, pieces[0].payload);
    var f := OutFrame(pieces[0].op, true, pieces[0].payload, MaskedKey(masked, pieces[0].key));
    AcceptCons(a, f, Frames(masked, op, a.partial.Some?, pieces[1..], last, key));
    assert Accept(a, f) == a.(out := a.out + [m]);
    hide AcceptAll, Accept;
    assert a.out + [m] + Controls(pieces[1..]) == a.out + ([m] + Controls(pieces[1..]));
  }
}
