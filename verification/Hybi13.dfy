/**
 The RFC 6455 processor object (hybi13.hpp): reads whatever bytes arrive into header and message buffers it keeps
 between calls, unmasking in place in the read buffer.
 */
module Hybi13 {
  import opened Bytes
  import opened Wrappers
  import opened Frame
  import opened Hybi13Reader
  import Masking
  import Utf8

  /** The states `EXTENSION` and `FATAL_ERROR` are never entered and have no counterpart. */
  datatype State = HeaderBasic | HeaderExtended | Application | Ready

  /** Which of the two message buffers `m_current_msg` points to. */
  datatype Target = DataMsg | ControlMsg

  /** `msg_metadata`, less the validator. */
  datatype Buffer = Buffer(msg: Option<Message>, preparedKey: nat)

  /** `n` bytes of `data` and the transitions they allow take the outcome `before` to `after`, or to the error `ec`. */
  ghost predicate Advances(before: Outcome, data: seq<byte>, n: nat, ec: Option<Error>, after: Outcome)
    requires before.Live? ==> Valid(before.r)
    requires after.Live? ==> Valid(after.r)
  {
    && n <= |data|
    && match ec
       case Some(e) => Then(before, 0, data).o == Failed(e)
       case None => Same(Then(before, 0, data), Then(after, n, data[n..]))
  }

  lemma AdvanceStart(r0: Reader, data: seq<byte>)
    requires Valid(r0)
    ensures Advances(Live(r0), data, 0, None, Live(r0))
  {}

  lemma AdvanceMore(first: Outcome, data: seq<byte>, p: nat, before: Outcome, n: nat, ec: Option<Error>, after: Outcome)
    requires (first.Live? ==> Valid(first.r)) && (before.Live? ==> Valid(before.r)) && (after.Live? ==> Valid(after.r))
    requires Advances(first, data, p, None, before)
    requires Advances(before, data[p..], n, ec, after)
    ensures Advances(first, data, p + n, ec, after)
  {
  }

  lemma AdvanceFails(before: Outcome, data: seq<byte>, n: nat, error: Error)
    requires before.Live? ==> Valid(before.r)
    requires Advances(before, data, n, None, Failed(error))
    ensures Advances(before, data, n, Some(error), Failed(error))
  {
  }

  lemma AdvanceFailed(r0: Reader, data: seq<byte>, p: nat, error: Error)
    requires Valid(r0) && Advances(Live(r0), data, p, Some(error), Failed(error))
    ensures Hybi13Reader.Consume(r0, data).o == Failed(error)
  {
  }

  /** A settled reader with nothing more to do is what the whole read amounts to. */
  lemma AdvanceEnd(r0: Reader, data: seq<byte>, p: nat, r: Reader)
    requires Valid(r0) && Valid(r) && Advances(Live(r0), data, p, None, Live(r))
    requires r.phase.Done? || p == |data|
    ensures Hybi13Reader.Consume(r0, data) == Consumed(Live(r), p)
  {
    assert Hybi13Reader.Consume(r, data[p..]) == Consumed(Live(r), 0);
    hide Consume;
  }

  class Processor {
    const server: bool
    const maxMessageSize: nat
    const extendedHeader: array<byte>
    var state: State
    var basicHeader: BasicHeader
    var bytesNeeded: nat
    var cursor: nat
    var dataMsg: Buffer
    var dataValidator: Utf8.Validator
    var controlMsg: Buffer
    var controlValidator: Utf8.Validator
    var currentMsg: Target

    // the masking keys the prepared keys stand for
    ghost var dataKey: Masking.Key
    ghost var controlKey: Masking.Key

    ghost function Repr(): set<object>
      reads this
    {
      {this, extendedHeader, dataValidator, controlValidator}
    }

    ghost function DataMetadata(): Metadata
      reads this, dataValidator
    {
      Metadata(dataMsg.msg, dataKey, dataValidator.Abs())
    }

    ghost function ControlMetadata(): Metadata
      reads this, controlValidator
    {
      Metadata(controlMsg.msg, controlKey, controlValidator.Abs())
    }

    ghost function Base(): Reader
      reads this, dataValidator, controlValidator
    {
      Reader(Config(server, maxMessageSize), Basic([]), DataMetadata(), ControlMetadata())
    }

    ghost function BasicBytes(): seq<byte>
      reads this
    {
      if bytesNeeded >= 2 then [] else if bytesNeeded == 1 then [basicHeader.b0] else [basicHeader.b0, basicHeader.b1]
    }

    ghost predicate Consistent()
      reads this, extendedHeader, dataValidator, controlValidator
    {
      && extendedHeader.Length == MAX_EXTENDED_HEADER_LENGTH
      && dataValidator != controlValidator
      && (dataMsg.msg.Some? ==> dataMsg.preparedKey == Masking.Prepared(dataKey))
      && (controlMsg.msg.Some? ==> controlMsg.preparedKey == Masking.Prepared(controlKey))
      && DataOk(DataMetadata()) && controlValidator.state <= 8
      && match state
         case HeaderBasic => bytesNeeded <= 2 && controlMsg.msg.None?
         case HeaderExtended =>
           && cursor + bytesNeeded == ExtendedLen(basicHeader) && controlMsg.msg.None?
           && ValidateBasic(Config(server, maxMessageSize), basicHeader, dataMsg.msg.None?) == None
         case Application => FrameOk(Base(), basicHeader, bytesNeeded) && CurrentOk()
         case Ready =>
           && FrameOk(Base(), basicHeader, 0) && GetFin(basicHeader) && CurrentOk()
           && (GetOpcode(basicHeader) == TEXT ==> dataValidator.state == Utf8.ACCEPT)
    }

    ghost predicate CurrentOk()
      reads this
    {
      currentMsg == if IsControl(GetOpcode(basicHeader)) then ControlMsg else DataMsg
    }

    /** The outcome already determined by the bytes read, once the pending transitions are made. */
    ghost function Pending(): (o: Outcome)
      requires Consistent()
      reads this, extendedHeader, dataValidator, controlValidator
      ensures o.Live? ==> Valid(o.r)
    {
      match state
      case HeaderBasic => AfterBasic(Base(), BasicBytes())
      case HeaderExtended => AfterExtended(Base(), basicHeader, extendedHeader[..cursor])
      case Application => AfterPayload(Base(), basicHeader, bytesNeeded)
      case Ready => Live(Base().(phase := Done(basicHeader)))
    }

    /** Between calls: nothing is pending. */
    ghost predicate Settled()
      reads this, extendedHeader, dataValidator, controlValidator
    {
      Consistent() && (state != Ready ==> bytesNeeded > 0)
    }

    ghost function Abs(): (r: Reader)
      requires Settled()
      reads this, extendedHeader, dataValidator, controlValidator
      ensures Valid(r) && Pending() == Live(r)
      ensures r.phase.Done? <==> state == Ready
    {
      Pending().r
    }

    constructor (isServer: bool, maxSize: nat)
      ensures Settled() && fresh(Repr())
      ensures Abs() == Fresh(Config(isServer, maxSize))
    {
      server, maxMessageSize := isServer, maxSize;
      extendedHeader := new byte[MAX_EXTENDED_HEADER_LENGTH](_ => 0);
      state, bytesNeeded, cursor, basicHeader := HeaderBasic, BASIC_HEADER_LENGTH, 0, BasicHeader(0, 0);
      dataMsg, controlMsg := Buffer(None, 0), Buffer(None, 0);
      dataKey, controlKey := [0, 0, 0, 0], [0, 0, 0, 0];
      dataValidator := new Utf8.Validator();
      controlValidator := new Utf8.Validator();
      currentMsg := DataMsg;
    }

    method ResetHeaders()
      requires extendedHeader.Length == MAX_EXTENDED_HEADER_LENGTH
      modifies this`state, this`bytesNeeded, this`basicHeader, extendedHeader
      ensures state == HeaderBasic && bytesNeeded == BASIC_HEADER_LENGTH && basicHeader == BasicHeader(0, 0)
    {
      state := HeaderBasic;
      bytesNeeded := BASIC_HEADER_LENGTH;
      basicHeader := BasicHeader(0, 0);
      forall i | 0 <= i < MAX_EXTENDED_HEADER_LENGTH {
        extendedHeader[i] := 0;
      }
    }

    method CopyBasicHeaderBytes(buf: array<byte>, at: nat, len: nat) returns (n: nat)
      requires at + len <= buf.Length
      requires bytesNeeded <= 2
      modifies this`basicHeader, this`bytesNeeded
      ensures n <= len && BasicBytes() == old(BasicBytes()) + buf[at..at + n]
      ensures bytesNeeded == old(bytesNeeded) - n && (n == 0 <==> len == 0 || old(bytesNeeded) == 0)
    {
      if len == 0 || bytesNeeded == 0 {
        return 0;
      }
      if len > 1 {
        if bytesNeeded == 2 {
          basicHeader := BasicHeader(buf[at], buf[at + 1]);
          bytesNeeded := bytesNeeded - 2;
          return 2;
        } else {
          basicHeader := basicHeader.(b1 := buf[at]);
          bytesNeeded := bytesNeeded - 1;
          return 1;
        }
      } else {
        if bytesNeeded == 2 {
          basicHeader := basicHeader.(b0 := buf[at]);
          bytesNeeded := bytesNeeded - 1;
          return 1;
        } else {
          basicHeader := basicHeader.(b1 := buf[at]);
          bytesNeeded := bytesNeeded - 1;
          return 1;
        }
      }
    }

    method CopyExtendedHeaderBytes(buf: array<byte>, at: nat, len: nat) returns (n: nat)
      requires at + len <= buf.Length && buf != extendedHeader
      requires cursor + bytesNeeded <= extendedHeader.Length
      modifies this`cursor, this`bytesNeeded, extendedHeader
      ensures n == if old(bytesNeeded) <= len then old(bytesNeeded) else len
      ensures cursor == old(cursor) + n && bytesNeeded == old(bytesNeeded) - n
      ensures extendedHeader[..cursor] == old(extendedHeader[..cursor]) + buf[at..at + n]
    {
      n := if bytesNeeded <= len then bytesNeeded else len;
      forall i | 0 <= i < n {
        extendedHeader[cursor + i] := buf[at + i];
      }
      cursor := cursor + n;
      bytesNeeded := bytesNeeded - n;
    }

    /** Unmasks in the read buffer, appends to the message `current` holds and validates what was appended. */
    method AbsorbBytes(buf: array<byte>, at: nat, len: nat, current: Buffer, ghost key: Masking.Key,
                       validator: Utf8.Validator)
      returns (next: Buffer, ghost nextKey: Masking.Key, ok: bool)
      requires at + len <= buf.Length && len > 0
      requires current.msg.Some? && current.preparedKey == Masking.Prepared(key) && validator.state <= 8
      modifies buf, validator
      ensures buf[at + len..] == old(buf[at + len..])
      ensures var m := Absorb(Metadata(current.msg, key, old(validator.Abs())), GetMasked(basicHeader),
        old(buf[at..at + len]));
        if BadText(m) then !ok
        else ok && Metadata(next.msg, nextKey, validator.Abs()) == m && next.preparedKey == Masking.Prepared(nextKey)
      ensures validator.state <= 8
    {
      hide Masking.Mask, Masking.Rotate, Masking.Prepared, Utf8.Run;
      next, nextKey := current, key;
      if GetMasked(basicHeader) {
        var shifted := Masking.WordMaskCirc(buf, buf, at, len, current.preparedKey, key);
        next := next.(preparedKey := shifted);
        nextKey := Masking.Rotate(key, len);
      }
      var plain := buf[at..at + len];
      next := next.(msg := Some(current.msg.value.(payload := current.msg.value.payload + plain)));
      ok := true;
      if next.msg.value.opcode == TEXT {
        ok := validator.Decode(plain);
      }
    }

    /** The message the frame belongs to takes the bytes in. */
    method AbsorbCurrent(buf: array<byte>, at: nat, len: nat) returns (ok: bool)
      requires at + len <= buf.Length && buf != extendedHeader && len > 0
      requires dataValidator != controlValidator && CurrentOk() && Current(Base(), basicHeader).msg.Some?
      requires dataMsg.msg.Some? ==> dataMsg.preparedKey == Masking.Prepared(dataKey)
      requires controlMsg.msg.Some? ==> controlMsg.preparedKey == Masking.Prepared(controlKey)
      requires controlValidator.state <= 8 && (!IsControl(GetOpcode(basicHeader)) ==> dataValidator.state <= 8)
      modifies this`dataMsg, this`controlMsg, this`dataKey, this`controlKey, dataValidator, controlValidator, buf
      ensures buf[at + len..] == old(buf[at + len..]) && controlValidator.state <= 8
      ensures var m := Absorb(old(Current(Base(), basicHeader)), GetMasked(basicHeader), old(buf[at..at + len]));
        if BadText(m) then !ok else ok && Base() == SetCurrent(old(Base()), basicHeader, m)
      ensures ok ==> (dataMsg.msg.Some? ==> dataMsg.preparedKey == Masking.Prepared(dataKey))
      ensures ok ==> (controlMsg.msg.Some? ==> controlMsg.preparedKey == Masking.Prepared(controlKey))
    {
      hide Absorb, BadText, Masking.Prepared;
      if currentMsg == ControlMsg {
        controlMsg, controlKey, ok := AbsorbBytes(buf, at, len, controlMsg, controlKey, controlValidator);
      } else {
        dataMsg, dataKey, ok := AbsorbBytes(buf, at, len, dataMsg, dataKey, dataValidator);
      }
    }

    method ProcessPayloadBytes(buf: array<byte>, at: nat, len: nat) returns (ec: Option<Error>)
      requires at + len <= buf.Length && buf != extendedHeader
      requires Consistent() && state == Application && 0 < len <= bytesNeeded
      modifies this`bytesNeeded, this`dataMsg, this`controlMsg, this`dataKey, this`controlKey
      modifies dataValidator, controlValidator, buf
      ensures buf[at + len..] == old(buf[at + len..])
      ensures var m := Absorb(old(Current(Base(), basicHeader)), GetMasked(basicHeader), old(buf[at..at + len]));
        if BadText(m) then ec == Some(InvalidUtf8)
        else ec == None && Consistent() && Base() == SetCurrent(old(Base()), basicHeader, m)
             && bytesNeeded == old(bytesNeeded) - len
    {
      FrameFacts(Base(), basicHeader, bytesNeeded);
      AbsorbOk(Base().(phase := Payload(basicHeader, bytesNeeded)), basicHeader, bytesNeeded, buf[at..at + len]);
      hide Absorb, BadText, Masking.Prepared, DataOk, FrameOk;
      var ok := AbsorbCurrent(buf, at, len);
      if !ok {
        return Some(InvalidUtf8);
      }
      bytesNeeded := bytesNeeded - len;
      return None;
    }

    //
    // The branches of the loop in `consume`: what each does with the bytes at hand, then the transition it makes once
    // its field is complete
    //

    method TakeBasic(buf: array<byte>, at: nat, len: nat) returns (n: nat)
      requires at + len <= buf.Length && len > 0
      requires Settled() && state == HeaderBasic
      modifies this`basicHeader, this`bytesNeeded
      ensures Consistent() && 0 < n <= len
      ensures Advances(old(Pending()), buf[at..at + len], n, None, Pending())
    {
      hide Valid, AfterExtended, Masking.Mask, Masking.Prepared, Utf8.Run;
      ghost var r := Abs();
      n := CopyBasicHeaderBytes(buf, at, len);
      BulkBasic(r, old(BasicBytes()), buf[at..at + n], buf[at + n..at + len]);
      assert buf[at..at + len] == buf[at..at + n] + buf[at + n..at + len];
      assert buf[at..at + len][n..] == buf[at + n..at + len];
    }

    method FinishBasic() returns (ec: Option<Error>)
      requires Consistent() && state == HeaderBasic && bytesNeeded == 0
      modifies this`state, this`cursor, this`bytesNeeded
      ensures match ec
        case Some(e) => old(Pending()) == Failed(e)
        case None => Consistent() && Pending() == old(Pending()) && state == HeaderExtended
    {
      hide Masking.Mask, Masking.Prepared, Utf8.Run;
      ec := ValidateBasic(Config(server, maxMessageSize), basicHeader, dataMsg.msg.None?);
      if ec.Some? {
        return;
      }
      state := HeaderExtended;
      cursor := 0;
      bytesNeeded := GetHeaderLen(basicHeader) - BASIC_HEADER_LENGTH;
    }

    method TakeExtended(buf: array<byte>, at: nat, len: nat) returns (n: nat)
      requires at + len <= buf.Length && buf != extendedHeader
      requires Consistent() && state == HeaderExtended && (len > 0 || bytesNeeded == 0)
      modifies this`cursor, this`bytesNeeded, extendedHeader
      ensures Consistent() && n <= len && (old(bytesNeeded) > 0 ==> n > 0) && bytesNeeded == old(bytesNeeded) - n
      ensures Advances(old(Pending()), buf[at..at + len], n, None, Pending())
    {
      hide Valid, Begin, Masking.Mask, Masking.Prepared, Utf8.Run;
      ghost var before, got := Pending(), extendedHeader[..cursor];
      n := CopyExtendedHeaderBytes(buf, at, len);
      if n > 0 {
        BulkExtended(before.r, basicHeader, got, buf[at..at + n], buf[at + n..at + len]);
        assert buf[at..at + len] == buf[at..at + n] + buf[at + n..at + len];
      } else {
        assert got + buf[at..at + n] == got;
      }
      assert buf[at..at + len][n..] == buf[at + n..at + len];
    }

    /** Sets up the message the frame belongs to. */
    method OpenMessage(size: nat, key: Masking.Key) returns (ec: Option<Error>)
      requires Consistent() && state == HeaderExtended
      requires IsControl(GetOpcode(basicHeader)) ==> size <= PAYLOAD_SIZE_BASIC
      modifies this
      ensures dataValidator == old(dataValidator) || fresh(dataValidator)
      ensures controlValidator == old(controlValidator) || fresh(controlValidator)
      ensures match ec
        case Some(e) => Begin(old(Base()), old(basicHeader), size, key) == Failed(e)
        case None =>
          Consistent() && Pending() == Begin(old(Base()), old(basicHeader), size, key) && state == Application
    {
      hide Masking.Prepared, Utf8.Run, ValidateBasic;
      Utf8.RunEmpty(Utf8.FRESH);
      AcceptedOnce(Config(server, maxMessageSize), basicHeader, dataMsg.msg.None?);
      var op := GetOpcode(basicHeader);
      var prepared := Masking.PrepareMaskingKey(Masking.KeyWord(key));
      Masking.PrepareMaskingKeyRepeats(key);
      state := Application;
      bytesNeeded := size;
      if IsControl(op) {
        controlMsg, controlKey := Buffer(Some(Message(op, [])), prepared), key;
        controlValidator := new Utf8.Validator();
        currentMsg := ControlMsg;
      } else {
        if dataMsg.msg.None? {
          if size > maxMessageSize {
            return Some(MessageTooBig);
          }
          dataMsg, dataKey := Buffer(Some(Message(op, [])), prepared), key;
          dataValidator := new Utf8.Validator();
        } else {
          if AddSize(|dataMsg.msg.value.payload|, size) > maxMessageSize {
            return Some(MessageTooBig);
          }
          dataMsg, dataKey := dataMsg.(preparedKey := prepared), key;
        }
        currentMsg := DataMsg;
      }
      ec := None;
    }

    method FinishExtended() returns (ec: Option<Error>)
      requires Consistent() && state == HeaderExtended && bytesNeeded == 0
      modifies this
      ensures dataValidator == old(dataValidator) || fresh(dataValidator)
      ensures controlValidator == old(controlValidator) || fresh(controlValidator)
      ensures match ec
        case Some(e) => old(Pending()) == Failed(e)
        case None => Consistent() && Pending() == old(Pending()) && state == Application
    {
      hide Begin, ValidateBasic, Masking.Prepared, Utf8.Run;
      var e := extendedHeader[..ExtendedLen(basicHeader)];
      ec := ValidateExtended(basicHeader, e);
      if ec.None? {
        ControlSize(Config(server, maxMessageSize), basicHeader, dataMsg.msg.None?, e);
        ec := OpenMessage(GetPayloadSize(basicHeader, e), GetMaskingKey(basicHeader, e));
      }
    }

    method TakeApplication(buf: array<byte>, at: nat, len: nat) returns (n: nat, ec: Option<Error>)
      requires at + len <= buf.Length && buf != extendedHeader
      requires Consistent() && state == Application && (len > 0 || bytesNeeded == 0)
      modifies this`bytesNeeded, this`dataMsg, this`controlMsg, this`dataKey, this`controlKey
      modifies dataValidator, controlValidator, buf
      ensures n <= len && buf[at + n..] == old(buf[at + n..])
      ensures ec.None? ==> Consistent() && (old(bytesNeeded) > 0 ==> n > 0) && bytesNeeded == old(bytesNeeded) - n
      ensures Advances(old(Pending()), old(buf[at..at + len]), n, ec, if ec.None? then Pending() else Failed(ec.value))
    {
      hide Valid, Masking.Mask, Masking.Prepared, Utf8.Run;
      ghost var before, data := Pending(), buf[at..at + len];
      n := if bytesNeeded <= len then bytesNeeded else len;
      assert data == data[..n] + data[n..] && data[..n] == buf[at..at + n];
      if n > 0 {
        BulkPayload(before.r, basicHeader, bytesNeeded, data[..n], data[n..]);
        ec := ProcessPayloadBytes(buf, at, n);
      } else {
        ec := None;
      }
    }

    method FinishApplication() returns (ec: Option<Error>)
      requires Consistent() && state == Application && bytesNeeded == 0
      modifies this`state, this`basicHeader, this`bytesNeeded, extendedHeader
      ensures match ec
        case Some(e) => old(Pending()) == Failed(e)
        case None => Settled() && Pending() == old(Pending()) && (state == Ready || state == HeaderBasic)
    {
      hide Masking.Mask, Masking.Prepared, Utf8.Run;
      if GetFin(basicHeader) {
        // ensure that text messages end on a whole character
        if GetOpcode(basicHeader) == TEXT {
          var validator := if currentMsg == ControlMsg then controlValidator else dataValidator;
          if validator.state != Utf8.ACCEPT {
            return Some(InvalidUtf8);
          }
        }
        state := Ready;
      } else {
        ResetHeaders();
      }
      ec := None;
    }

    /** One iteration of the loop. */
    method ReadField(buf: array<byte>, at: nat, len: nat) returns (n: nat, ec: Option<Error>)
      requires at + len <= buf.Length && buf != extendedHeader
      requires Consistent() && state != Ready && (state == HeaderBasic ==> bytesNeeded > 0)
        && (len > 0 || bytesNeeded == 0)
      modifies this, extendedHeader, dataValidator, controlValidator, buf
      ensures n <= len && buf[at + n..] == old(buf[at + n..])
      ensures dataValidator == old(dataValidator) || fresh(dataValidator)
      ensures controlValidator == old(controlValidator) || fresh(controlValidator)
      ensures ec.None? ==> Consistent() && (state == HeaderBasic ==> bytesNeeded > 0)
      ensures ec.None? && n == 0 ==> (old(state) == HeaderExtended && state == Application)
                                     || (old(state) == Application && (state == Ready || state == HeaderBasic))
      ensures ec.None? && old(bytesNeeded) > 0 ==> n > 0
      ensures Advances(old(Pending()), old(buf[at..at + len]), n, ec, if ec.None? then Pending() else Failed(ec.value))
    {
      hide Advances, AfterBasic, AfterExtended, AfterPayload, ValidateBasic, FrameOk, DataOk, Valid, Pending, Base;
      ghost var before, data := Pending(), buf[at..at + len];
      match state
      case HeaderBasic =>
        n := TakeBasic(buf, at, len);
        ec := None;
        if bytesNeeded == 0 {
          ec := FinishBasic();
          if ec.Some? { AdvanceFails(before, data, n, ec.value); }
        }
      case HeaderExtended =>
        n := TakeExtended(buf, at, len);
        ec := None;
        if bytesNeeded == 0 {
          ec := FinishExtended();
          if ec.Some? { AdvanceFails(before, data, n, ec.value); }
        }
      case Application =>
        n, ec := TakeApplication(buf, at, len);
        if ec.None? && bytesNeeded == 0 {
          ec := FinishApplication();
          if ec.Some? { AdvanceFails(before, data, n, ec.value); }
        }
    }

    /** Reads `buf[off..off + len]` up to the end of a message or of the buffer. */
    method Consume(buf: array<byte>, off: nat, len: nat) returns (p: nat, ec: Option<Error>)
      requires off + len <= buf.Length && buf != extendedHeader
      requires Settled()
      modifies this, extendedHeader, dataValidator, controlValidator, buf
      ensures p <= len && buf[off + p..] == old(buf[off + p..])
      ensures dataValidator == old(dataValidator) || fresh(dataValidator)
      ensures controlValidator == old(controlValidator) || fresh(controlValidator)
      ensures var c := Hybi13Reader.Consume(old(Abs()), old(buf[off..off + len]));
        match c.o
        case Failed(e) => ec == Some(e)
        case Live(r) => ec == None && Settled() && Abs() == r && p == c.n
      ensures len > 0 && old(state) != Ready ==> p > 0 || ec.Some?
    {
      hide Hybi13Reader.Consume, Valid, Advances, FrameOk, DataOk;
      hide AfterBasic, AfterExtended, AfterPayload, ValidateBasic, Pending, Consistent, Base;
      p, ec := 0, None;
      ghost var r0, data := Abs(), buf[off..off + len];
      AdvanceStart(r0, data);
      while state != Ready && (p < len || bytesNeeded == 0)
        invariant p <= len && ec == None && Consistent() && (state == HeaderBasic ==> bytesNeeded > 0)
        invariant buf[off + p..] == old(buf[off + p..])
        invariant dataValidator == old(dataValidator) || fresh(dataValidator)
        invariant controlValidator == old(controlValidator) || fresh(controlValidator)
        invariant Advances(Live(r0), data, p, None, Pending())
        invariant p == 0 ==> state == old(state) && bytesNeeded == old(bytesNeeded)
        decreases len - p, if state == HeaderExtended then 2 else if state == Application then 1 else 0
      {
        ghost var before, suffix := Pending(), buf[off + p..];
        assert data[p..] == suffix[..len - p] == buf[off + p..off + len];
        var n;
        n, ec := ReadField(buf, off + p, len - p);
        assert buf[off + p + n..] == suffix[n..];
        AdvanceMore(Live(r0), data, p, before, n, ec, if ec.None? then Pending() else Failed(ec.value));
        p := p + n;
        if ec.Some? {
          AdvanceFailed(r0, data, p, ec.value);
          return;
        }
      }
      AdvanceEnd(r0, data, p, Abs());
    }

    /** Hands over the message that is ready, if any. */
    method GetMessage() returns (ret: Option<Message>)
      requires Settled()
      modifies this`state, this`bytesNeeded, this`basicHeader, this`dataMsg, this`controlMsg, extendedHeader
      ensures Settled()
      ensures old(state) != Ready ==> ret == None && Abs() == old(Abs())
      ensures old(state) == Ready ==> ret == Some(Fetch(old(Abs())).0) && Abs() == Fetch(old(Abs())).1 && state != Ready
    {
      if state != Ready {
        return None;
      }
      hide Masking.Prepared, Utf8.Run, ValidateBasic;
      ret := if currentMsg == ControlMsg then controlMsg.msg else dataMsg.msg;
      if IsControl(ret.value.opcode) {
        controlMsg := controlMsg.(msg := None);
      } else {
        dataMsg := dataMsg.(msg := None);
      }
      ResetHeaders();
    }
  }

  function With(out: seq<Message>, msg: Option<Message>): seq<Message> {
    if msg.Some? then out + [msg.value] else out
  }

  /** One turn of that loop: consume what is left before `end`, then fetch the message if one is ready. */
  method ReadMessage(p: Processor, buf: array<byte>, at: nat, end: nat, ghost out: seq<Message>, ghost data: seq<byte>)
    returns (k: nat, ec: Option<Error>, msg: Option<Message>)
    requires p.Settled() && p.state != Ready && at < end <= buf.Length && buf != p.extendedHeader
    requires data == buf[..][at..end]
    modifies p.Repr(), buf
    ensures fresh(p.Repr() - old(p.Repr())) && at + k <= end && buf[..][at + k..] == old(buf[..])[at + k..]
    ensures match ec
      case Some(e) =>
        var t := Feed(Session(old(p.Abs()), out, None), data); t.error == Some(e) && t.out == out
      case None =>
        && p.Settled() && p.state != Ready && k > 0
        && Feed(Session(old(p.Abs()), out, None), data) == Feed(Session(p.Abs(), With(out, msg), None), data[k..])
  {
    hide Feed, Hybi13Reader.Consume, Valid, Fetch, Processor.Settled, Processor.Abs, Processor.Pending;
    FeedConsumes(Session(p.Abs(), out, None), data);
    msg := None;
    assert data == buf[at..at + (end - at)];
    k, ec := p.Consume(buf, at, end - at);
    assert buf[..][at + k..] == buf[at + k..] && old(buf[..])[at + k..] == old(buf[at + k..]);
    if ec.Some? {
      return;
    }
    msg := p.GetMessage();
  }

  /** A buffer that still holds, from `n` on, what it held at first. */
  lemma StillHolds(first: seq<byte>, now: seq<byte>, n: nat, t: nat)
    requires n <= t <= |first| == |now| && now[n..] == first[n..]
    ensures now[n..t] == first[..t][n..]
  {
  }

  lemma DropDrop<T>(s: seq<T>, n: nat, k: nat)
    requires n + k <= |s|
    ensures s[n..][k..] == s[n + k..]
  {
  }

  /** The read loop of the connection's `handle_read_frame`, with dispatch replaced by collecting the messages. */
  method ReadLoop(p: Processor, buf: array<byte>, transferred: nat) returns (out: seq<Message>, ec: Option<Error>)
    requires p.Settled() && p.state != Ready && transferred <= buf.Length && buf != p.extendedHeader
    modifies p.Repr(), buf
    ensures fresh(p.Repr() - old(p.Repr()))
    ensures var t := Feed(Session(old(p.Abs()), [], None), old(buf[..transferred]));
      out == t.out && ec == t.error && (ec.None? ==> p.Settled() && p.state != Ready && p.Abs() == t.r)
  {
    hide Feed, Valid, Processor.Settled, Processor.Abs, Processor.Pending, With;
    out, ec := [], None;
    var n := 0;
    ghost var first, data := buf[..], buf[..transferred];
    ghost var all := Feed(Session(p.Abs(), [], None), data);
    assert first[..transferred] == data && data[0..] == data;
    FeedNothing(Session(p.Abs(), out, None));
    while n < transferred
      invariant n <= transferred && ec == None
      invariant p.Settled() && p.state != Ready && fresh(p.Repr() - old(p.Repr()))
      invariant buf[..][n..] == first[n..]
      invariant all == Feed(Session(p.Abs(), out, None), data[n..])
      decreases transferred - n
    {
      ghost var before := buf[..];
      StillHolds(first, before, n, transferred);
      var k, msg;
      k, ec, msg := ReadMessage(p, buf, n, transferred, out, data[n..]);
      if ec.Some? {
        return;
      }
      DropDrop(data, n, k);
      HoldsMore(first, before, n, n + k);
      n := n + k;
      out := With(out, msg);
    }
    assert data[n..] == [];
    FeedNothing(Session(p.Abs(), out, None));
  }

  /** Successive reads, cut anywhere: the messages and the first error are those of the stream read byte by byte. */
  method ReadChunks(p: Processor, chunks: seq<seq<byte>>) returns (out: seq<Message>, ec: Option<Error>)
    requires p.Settled() && p.state != Ready
    modifies p.Repr()
    ensures var t := Feed(Session(old(p.Abs()), [], None), Flatten(chunks)); out == t.out && ec == t.error
  {
    hide Feed, Valid, Processor.Settled, Processor.Abs, Processor.Pending;
    out, ec := [], None;
    ghost var s := Session(p.Abs(), [], None);
    FeedNothing(s);
    for i := 0 to |chunks|
      invariant ec == None && p.Settled() && p.state != Ready && fresh(p.Repr() - old(p.Repr()))
      invariant Feed(s, Flatten(chunks)) == Feed(Session(p.Abs(), out, None), Flatten(chunks[i..]))
    {
      var buf := new byte[|chunks[i]|](j requires 0 <= j < |chunks[i]| => chunks[i][j]);
      assert buf[..|chunks[i]|] == chunks[i] && Flatten(chunks[i..]) == chunks[i] + Flatten(chunks[i + 1..]);
      ghost var here := Session(p.Abs(), out, None);
      FeedConcat(here, chunks[i], Flatten(chunks[i + 1..]));
      FeedPrefix(p.Abs(), out, chunks[i]);
      var more;
      more, ec := ReadLoop(p, buf, |chunks[i]|);
      out := out + more;
      if ec.Some? {
        FeedStopped(Feed(here, chunks[i]), Flatten(chunks[i + 1..]));
        return;
      }
    }
    FeedNothing(Session(p.Abs(), out, None));
  }
}
