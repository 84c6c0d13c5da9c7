/**
 The header of a WebSocket frame (frame.hpp): section 5.2 of RFC 6455. Bit masks are written as the quotients and
 remainders they compute.
 */
module Frame {
  import opened Bytes
  import opened Masking
  import opened Wrappers

  const CONTINUATION := 0
  const TEXT := 1
  const BINARY := 2
  const CLOSE := 8
  const PING := 9
  const PONG := 10

  const PAYLOAD_SIZE_BASIC := 125
  const PAYLOAD_SIZE_EXTENDED := 0xFFFF
  const PAYLOAD_SIZE_CODE_16BIT := 126
  const PAYLOAD_SIZE_CODE_64BIT := 127
  const BASIC_HEADER_LENGTH := 2
  const MAX_EXTENDED_HEADER_LENGTH := 12

  predicate IsControl(op: nat) { op >= 8 }

  predicate Reserved(op: nat) { 3 <= op <= 7 || 0xB <= op <= 0xF }

  datatype BasicHeader = BasicHeader(b0: byte, b1: byte)

  predicate GetFin(h: BasicHeader) { h.b0 / 128 == 1 }

  predicate GetRsv1(h: BasicHeader) { h.b0 / 64 % 2 == 1 }

  predicate GetRsv2(h: BasicHeader) { h.b0 / 32 % 2 == 1 }

  predicate GetRsv3(h: BasicHeader) { h.b0 / 16 % 2 == 1 }

  function GetOpcode(h: BasicHeader): nat { h.b0 % 16 }

  predicate GetMasked(h: BasicHeader) { h.b1 / 128 == 1 }

  function GetBasicSize(h: BasicHeader): nat { h.b1 % 128 }

  /** The number of extended length octets. */
  function GetMaskingKeyOffset(h: BasicHeader): nat {
    if GetBasicSize(h) == PAYLOAD_SIZE_CODE_16BIT then 2
    else if GetBasicSize(h) == PAYLOAD_SIZE_CODE_64BIT then 8
    else 0
  }

  function GetHeaderLen(h: BasicHeader): nat {
    BASIC_HEADER_LENGTH + GetMaskingKeyOffset(h) + if GetMasked(h) then 4 else 0
  }

  /** The number of octets between the basic header and the payload. */
  function ExtendedLen(h: BasicHeader): (n: nat)
    ensures n <= MAX_EXTENDED_HEADER_LENGTH
  {
    GetHeaderLen(h) - BASIC_HEADER_LENGTH
  }

  /** Network byte order (`ntohs`, `_ntohll`). */
  function BigEndian(b: seq<byte>): nat {
    if b == [] then 0 else BigEndian(b[..|b| - 1]) * 256 + b[|b| - 1]
  }

  /** The low `k` octets of `n` in network byte order. */
  function ToBigEndian(n: nat, k: nat): (b: seq<byte>)
    ensures |b| == k
  {
    if k == 0 then [] else ToBigEndian(n / 256, k - 1) + [n % 256]
  }

  /** A length written in network byte order is read back. */
  lemma {:induction false} BigEndianRoundTrip(n: nat, k: nat)
    requires n < Pow256(k)
    ensures BigEndian(ToBigEndian(n, k)) == n
  {
    if k > 0 {
      BigEndianRoundTrip(n / 256, k - 1);
      var b := ToBigEndian(n, k);
      assert b[..k - 1] == ToBigEndian(n / 256, k - 1);
    }
  }

  /** The octet at each position. */
  lemma {:induction false} BigEndianAt(n: nat, k: nat, i: nat)
    requires i < k
    ensures ToBigEndian(n, k)[i] as nat == n / Pow256(k - 1 - i) % 256
  {
    if i < k - 1 {
      BigEndianAt(n / 256, k - 1, i);
      DivTwice(n, Pow256(k - 2 - i));
    }
  }

  lemma {:induction false} ToBigEndianOf(b: seq<byte>)
    ensures BigEndian(b) < Pow256(|b|)
    ensures ToBigEndian(BigEndian(b), |b|) == b
  {
    if b != [] {
      ToBigEndianOf(b[..|b| - 1]);
      var high, low := BigEndian(b[..|b| - 1]), b[|b| - 1];
      DivMod(high * 256 + low, 256, high, low);
    }
  }

  function GetPayloadSize(h: BasicHeader, e: seq<byte>): nat
    requires |e| >= GetMaskingKeyOffset(h)
  {
    if GetBasicSize(h) <= PAYLOAD_SIZE_BASIC then GetBasicSize(h) else BigEndian(e[..GetMaskingKeyOffset(h)])
  }

  function GetMaskingKey(h: BasicHeader, e: seq<byte>): Key
    requires |e| >= ExtendedLen(h)
  {
    var o := GetMaskingKeyOffset(h);
    if GetMasked(h) then e[o..o + 4] else [0, 0, 0, 0]
  }

  //
  // Building headers
  //

  const SIZE_LIMIT := 0x1_0000_0000_0000_0000

  /** The seven bits of the basic header that hold the length or say where it is. */
  function BasicSize(size: nat): nat {
    if size <= PAYLOAD_SIZE_BASIC then size
    else if size <= PAYLOAD_SIZE_EXTENDED then PAYLOAD_SIZE_CODE_16BIT else PAYLOAD_SIZE_CODE_64BIT
  }

  /** The number of octets an extended length takes. */
  function SizeLen(size: nat): nat {
    if size <= PAYLOAD_SIZE_BASIC then 0 else if size <= PAYLOAD_SIZE_EXTENDED then 2 else 8
  }

  /** The `basic_header` constructor. */
  function MakeBasic(op: nat, size: nat, fin: bool, mask: bool): BasicHeader
    requires op < 16
  {
    BasicHeader((if fin then 128 else 0) + op, (if mask then 128 else 0) + BasicSize(size))
  }

  /** The octets the `extended_header` constructors put down before the zero fill. */
  function MakeExtended(size: nat, key: Option<Key>): seq<byte>
    requires size < SIZE_LIMIT
  {
    ToBigEndian(size, SizeLen(size)) + if key.Some? then key.value else []
  }

  /** The fields of a basic header built from them. */
  lemma BasicReads(op: nat, size: nat, fin: bool, mask: bool)
    requires op < 16
    ensures var h := MakeBasic(op, size, fin, mask);
      && GetOpcode(h) == op && GetFin(h) == fin && GetMasked(h) == mask && GetBasicSize(h) == BasicSize(size)
      && !GetRsv1(h) && !GetRsv2(h) && !GetRsv3(h)
      && GetMaskingKeyOffset(h) == SizeLen(size) && ExtendedLen(h) == SizeLen(size) + if mask then 4 else 0
  {
  }

  lemma SizeFits(size: nat)
    requires size < SIZE_LIMIT
    ensures SizeLen(size) > 0 ==> size < Pow256(SizeLen(size))
  {
    assert Pow256(2) == 0x10000 && Pow256(8) == SIZE_LIMIT;
  }

  lemma SizeReads(size: nat)
    requires size < SIZE_LIMIT
    ensures SizeLen(size) > 0 ==> BigEndian(ToBigEndian(size, SizeLen(size))) == size
  {
    hide BigEndian, ToBigEndian, Pow256;
    SizeFits(size);
    if SizeLen(size) > 0 {
      BigEndianRoundTrip(size, SizeLen(size));
    }
  }

  /** Every field written into a header is the field read back from it. */
  lemma HeaderRoundTrip(op: nat, size: nat, fin: bool, key: Option<Key>)
    requires op < 16 && size < SIZE_LIMIT
    ensures var h, e := MakeBasic(op, size, fin, key.Some?), MakeExtended(size, key);
      && GetOpcode(h) == op && GetFin(h) == fin && GetMasked(h) == key.Some?
      && !GetRsv1(h) && !GetRsv2(h) && !GetRsv3(h)
      && |e| == ExtendedLen(h) && GetPayloadSize(h, e) == size
      && (key.Some? ==> GetMaskingKey(h, e) == key.value)
      && (GetBasicSize(h) <= PAYLOAD_SIZE_BASIC <==> size <= PAYLOAD_SIZE_BASIC)
      && (GetBasicSize(h) == PAYLOAD_SIZE_CODE_64BIT <==> size > PAYLOAD_SIZE_EXTENDED)
  {
    hide BigEndian, ToBigEndian, MakeBasic, ExtendedLen, GetOpcode, GetFin, GetRsv1, GetRsv2, GetRsv3;
    hide GetMasked, GetBasicSize, GetMaskingKeyOffset;
    BasicReads(op, size, fin, key.Some?);
    SizeReads(size);
    var e, n := MakeExtended(size, key), SizeLen(size);
    assert e[..n] == ToBigEndian(size, n);
    assert key.Some? ==> e[n..n + 4] == key.value;
  }

  //
  // Headers received
  //

  /** The length is in the shortest of its three forms. */
  predicate Minimal(h: BasicHeader, size: nat) {
    && (GetBasicSize(h) == PAYLOAD_SIZE_CODE_16BIT ==> size > PAYLOAD_SIZE_BASIC)
    && (GetBasicSize(h) == PAYLOAD_SIZE_CODE_64BIT ==> size > PAYLOAD_SIZE_EXTENDED)
  }

  lemma SizeForm(h: BasicHeader, e: seq<byte>)
    requires |e| >= GetMaskingKeyOffset(h) && Minimal(h, GetPayloadSize(h, e))
    ensures var size := GetPayloadSize(h, e);
      && size < SIZE_LIMIT && GetBasicSize(h) == BasicSize(size) && GetMaskingKeyOffset(h) == SizeLen(size)
      && ToBigEndian(size, SizeLen(size)) == e[..SizeLen(size)]
  {
    hide BigEndian, ToBigEndian, Pow256;
    NoOctets();
    OctetLimits();
    ToBigEndianOf(e[..GetMaskingKeyOffset(h)]);
  }

  lemma NoOctets()
    ensures forall n :: ToBigEndian(n, 0) == []
  {
  }

  lemma OctetLimits()
    ensures Pow256(2) == PAYLOAD_SIZE_EXTENDED + 1 && Pow256(8) == SIZE_LIMIT
  {
  }

  lemma BasicForm(h: BasicHeader, size: nat)
    requires !GetRsv1(h) && !GetRsv2(h) && !GetRsv3(h) && GetBasicSize(h) == BasicSize(size)
    ensures h == MakeBasic(GetOpcode(h), size, GetFin(h), GetMasked(h))
  {
  }

  /** A header without reserved bits whose length is minimal is the one built from its own fields. */
  lemma HeaderIsBuilt(h: BasicHeader, e: seq<byte>)
    requires |e| == ExtendedLen(h) && !GetRsv1(h) && !GetRsv2(h) && !GetRsv3(h)
    requires Minimal(h, GetPayloadSize(h, e))
    ensures var size := GetPayloadSize(h, e);
      && size < SIZE_LIMIT && h == MakeBasic(GetOpcode(h), size, GetFin(h), GetMasked(h))
      && e == MakeExtended(size, if GetMasked(h) then Some(GetMaskingKey(h, e)) else None)
  {
    hide BigEndian, ToBigEndian, MakeBasic, GetRsv1, GetRsv2, GetRsv3, GetOpcode, GetFin;
    hide GetPayloadSize, Minimal, BasicSize;
    SizeForm(h, e);
    BasicForm(h, GetPayloadSize(h, e));
    var n := GetMaskingKeyOffset(h);
    assert e == e[..n] + e[n..];
  }
}
