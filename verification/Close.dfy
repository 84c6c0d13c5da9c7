/**
 Close codes and the payload of close frames (close.hpp): section 7.4 of RFC 6455.
 */
module Close {
  import opened Bytes
  import opened Wrappers
  import opened Frame
  import Utf8

  const BLANK := 0
  const NORMAL := 1000
  const PROTOCOL_ERROR := 1002
  const NO_STATUS := 1005
  const ABNORMAL_CLOSE := 1006
  const INVALID_PAYLOAD := 1007
  const POLICY_VIOLATION := 1008
  const MESSAGE_TOO_BIG := 1009
  const INTERNAL_ENDPOINT_ERROR := 1011
  const TLS_HANDSHAKE := 1015

  datatype Error =
    | BadCloseCode | InvalidCloseCode | ReservedCloseCode | ReasonRequiresCode | ControlTooBig | InvalidUtf8

  predicate Reserved(code: nat) {
    1016 <= code <= 2999 || code == 1004 || code == 1014
  }

  predicate Invalid(code: nat) {
    code <= 999 || code >= 5000 || code == NO_STATUS || code == ABNORMAL_CLOSE || code == TLS_HANDSHAKE
  }

  predicate Terminal(code: nat) {
    code == PROTOCOL_ERROR || code == INVALID_PAYLOAD || code == POLICY_VIOLATION || code == MESSAGE_TOO_BIG ||
    code == INTERNAL_ENDPOINT_ERROR
  }

  /** The code carried by a received close payload, and what is wrong with it. */
  function ExtractCode(payload: seq<byte>): (nat, Option<Error>) {
    if |payload| == 0 then (NO_STATUS, None)
    else if |payload| == 1 then (PROTOCOL_ERROR, Some(BadCloseCode))
    else
      var code := payload[0] as nat * 256 + payload[1] as nat;
      (code, if Reserved(code) then Some(ReservedCloseCode) else if Invalid(code) then Some(InvalidCloseCode) else None)
  }

  lemma ExtractedCodeBound(payload: seq<byte>)
    ensures ExtractCode(payload).0 < 0x10000
  {
  }

  function ExtractReason(payload: seq<byte>): (seq<byte>, Option<Error>) {
    var reason := if |payload| > 2 then payload[2..] else [];
    (reason, if Utf8.Run(Utf8.FRESH, reason).state == Utf8.ACCEPT then None else Some(InvalidUtf8))
  }

  datatype Payload = Ok(bytes: seq<byte>) | Err(error: Error)

  /** `prepare_close` up to the frame header. */
  function ClosePayload(code: nat, reason: seq<byte>): Payload
    requires code < 0x10000
  {
    if Reserved(code) then Err(ReservedCloseCode)
    else if Invalid(code) && code != NO_STATUS then Err(InvalidCloseCode)
    else if code == NO_STATUS && |reason| > 0 then Err(ReasonRequiresCode)
    else if |reason| > PAYLOAD_SIZE_BASIC - 2 then Err(ControlTooBig)
    else Ok(if code == NO_STATUS then [] else [code / 256, code % 256] + reason)
  }

  /**
   A close payload is accepted exactly when some endpoint could have prepared it, and then reads back as it was meant.
   */
  lemma CloseRoundTrip(payload: seq<byte>)
    requires |payload| <= PAYLOAD_SIZE_BASIC
    ensures (ExtractCode(payload).1.None? && ExtractReason(payload).1.None?) <==>
      exists code: nat, reason: seq<byte> ::
        code < 0x10000 && Utf8.WellFormed(reason) && ClosePayload(code, reason) == Ok(payload)
    ensures forall code: nat, reason: seq<byte> :: code < 0x10000 && ClosePayload(code, reason) == Ok(payload) ==>
      ExtractCode(payload) == (code, None) && ExtractReason(payload).0 == reason
  {
    hide Utf8.Run, Utf8.WellFormed;
    var code, reason := ExtractCode(payload).0, ExtractReason(payload).0;
    Utf8.AcceptsExactlyWellFormed(reason);
    if ExtractCode(payload).1.None? && ExtractReason(payload).1.None? {
      assert ClosePayload(code, reason) == Ok(payload);
    }
    forall code: nat, reason: seq<byte> | code < 0x10000 && ClosePayload(code, reason) == Ok(payload)
      ensures ExtractCode(payload) == (code, None) && ExtractReason(payload).0 == reason
    {
      if code != NO_STATUS {
        assert payload == [code / 256, code % 256] + reason;
      }
    }
  }
}
