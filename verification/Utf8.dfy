/**
 UTF-8 validation (utf8_validator.hpp): a table-driven automaton fed one byte at a time. The reference it is
 proved against is the encoding of section 3 of RFC 3629.
 */
module Utf8 {
  import opened Bytes

  const ACCEPT := 0
  const REJECT := 1

  /** The lookup table `utf8d`, in rows of sixteen: the class of each byte, then one row per state. */
  const UTF8D: seq<seq<nat>> := [
    [0, 0, 0, 0, 0, 0, 0, 0, 0, 0, 0, 0, 0, 0, 0, 0], [0, 0, 0, 0, 0, 0, 0, 0, 0, 0, 0, 0, 0, 0, 0, 0], // 00..1f
    [0, 0, 0, 0, 0, 0, 0, 0, 0, 0, 0, 0, 0, 0, 0, 0], [0, 0, 0, 0, 0, 0, 0, 0, 0, 0, 0, 0, 0, 0, 0, 0], // 20..3f
    [0, 0, 0, 0, 0, 0, 0, 0, 0, 0, 0, 0, 0, 0, 0, 0], [0, 0, 0, 0, 0, 0, 0, 0, 0, 0, 0, 0, 0, 0, 0, 0], // 40..5f
    [0, 0, 0, 0, 0, 0, 0, 0, 0, 0, 0, 0, 0, 0, 0, 0], [0, 0, 0, 0, 0, 0, 0, 0, 0, 0, 0, 0, 0, 0, 0, 0], // 60..7f
    [1, 1, 1, 1, 1, 1, 1, 1, 1, 1, 1, 1, 1, 1, 1, 1], [9, 9, 9, 9, 9, 9, 9, 9, 9, 9, 9, 9, 9, 9, 9, 9], // 80..9f
    [7, 7, 7, 7, 7, 7, 7, 7, 7, 7, 7, 7, 7, 7, 7, 7], [7, 7, 7, 7, 7, 7, 7, 7, 7, 7, 7, 7, 7, 7, 7, 7], // a0..bf
    [8, 8, 2, 2, 2, 2, 2, 2, 2, 2, 2, 2, 2, 2, 2, 2], [2, 2, 2, 2, 2, 2, 2, 2, 2, 2, 2, 2, 2, 2, 2, 2], // c0..df
    [10, 3, 3, 3, 3, 3, 3, 3, 3, 3, 3, 3, 3, 4, 3, 3], [11, 6, 6, 6, 5, 8, 8, 8, 8, 8, 8, 8, 8, 8, 8, 8], // e0..ff
    [0, 1, 2, 3, 5, 8, 7, 1, 1, 1, 4, 6, 1, 1, 1, 1],                                                   // s0
    [1, 1, 1, 1, 1, 1, 1, 1, 1, 1, 1, 1, 1, 1, 1, 1], [1, 0, 1, 1, 1, 1, 1, 0, 1, 0, 1, 1, 1, 1, 1, 1], // s1..s2
    [1, 2, 1, 1, 1, 1, 1, 2, 1, 2, 1, 1, 1, 1, 1, 1], [1, 1, 1, 1, 1, 1, 1, 2, 1, 1, 1, 1, 1, 1, 1, 1], // s3..s4
    [1, 2, 1, 1, 1, 1, 1, 1, 1, 2, 1, 1, 1, 1, 1, 1], [1, 1, 1, 1, 1, 1, 1, 3, 1, 3, 1, 1, 1, 1, 1, 1], // s5..s6
    [1, 3, 1, 1, 1, 1, 1, 3, 1, 3, 1, 1, 1, 1, 1, 1], [1, 3, 1, 1, 1, 1, 1, 1, 1, 1, 1, 1, 1, 1, 1, 1]  // s7..s8
  ]

  lemma RowsOfSixteen(i: nat)
    requires i < 25
    ensures |UTF8D| == 25 && |UTF8D[i]| == 16
  {}

  function Utf8d(i: nat): nat
    requires i < 400
  {
    RowsOfSixteen(i / 16);
    UTF8D[i / 16][i % 16]
  }

  //
  // The automaton, read off the table
  //

  /** The class of a byte. */
  function Class(b: byte): (c: nat)
    ensures c <= 11
  {
    if b < 0x80 then 0
    else if b < 0x90 then 1
    else if b < 0xA0 then 9
    else if b < 0xC0 then 7
    else if b < 0xC2 then 8
    else if b < 0xE0 then 2
    else if b == 0xE0 then 10
    else if b == 0xED then 4
    else if b < 0xF0 then 3
    else if b == 0xF0 then 11
    else if b < 0xF4 then 6
    else if b == 0xF4 then 5
    else 8
  }

  /**
   Where a byte of class `c` leads. States: 0 between characters, 1 rejected, 2 and 3 one and two continuation
   bytes to come, 4 and 5 after E0 and ED, 6 after F0, 7 after F1..F3, 8 after F4.
   */
  function Next(s: nat, c: nat): (t: nat)
    ensures t <= 8
  {
    match s
    case 0 =>
      (match c
       case 0 => 0
       case 2 => 2
       case 3 => 3
       case 4 => 5
       case 5 => 8
       case 6 => 7
       case 10 => 4
       case 11 => 6
       case _ => 1)
    case 2 => if c == 1 || c == 7 || c == 9 then 0 else 1
    case 3 => if c == 1 || c == 7 || c == 9 then 2 else 1
    case 4 => if c == 7 then 2 else 1
    case 5 => if c == 1 || c == 9 then 2 else 1
    case 6 => if c == 7 || c == 9 then 3 else 1
    case 7 => if c == 1 || c == 7 || c == 9 then 3 else 1
    case 8 => if c == 1 then 3 else 1
    case _ => 1
  }

  lemma TableClassLow(b: byte)
    requires b < 0xC0
    ensures Utf8d(b) == Class(b)
  {}

  lemma TableClassHigh(b: byte)
    requires 0xC0 <= b
    ensures Utf8d(b) == Class(b)
  {}

  lemma TableNext(s: nat, c: nat)
    requires s <= 8 && c <= 11
    ensures Utf8d(256 + s * 16 + c) == Next(s, c)
  {
    assert (256 + s * 16 + c) / 16 == 16 + s && (256 + s * 16 + c) % 16 == c;
  }

  datatype Decoder = Decoder(state: nat, codep: nat)

  const FRESH := Decoder(ACCEPT, 0)

  /** `(0xff >> c) & b` */
  function LeadBits(c: nat, b: byte): nat {
    if c <= 8 then b % Pow2(8 - c) else 0
  }

  /** One byte. `(b & 0x3f) | (codep << 6)` on 32-bit words: the operands of `|` share no bits. */
  function Step(d: Decoder, b: byte): Decoder {
    Decoder(Next(d.state, Class(b)),
            if d.state != ACCEPT then b % 64 + d.codep * 64 % 0x1_0000_0000 else LeadBits(Class(b), b))
  }

  function Run(d: Decoder, s: seq<byte>): Decoder
    decreases s
  {
    if s == [] then d else Run(Step(d, s[0]), s[1..])
  }

  lemma {:induction false} RunConcat(d: Decoder, a: seq<byte>, b: seq<byte>)
    ensures Run(d, a + b) == Run(Run(d, a), b)
    decreases a
  {
    if a == [] {
      assert a + b == b;
    } else {
      assert (a + b)[1..] == a[1..] + b;
      RunConcat(Step(d, a[0]), a[1..], b);
    }
  }

  lemma {:induction false} RejectAbsorbs(d: Decoder, s: seq<byte>)
    requires d.state == REJECT
    ensures Run(d, s).state == REJECT
    decreases s
  {
    if s != [] {
      RejectAbsorbs(Step(d, s[0]), s[1..]);
    }
  }

  lemma {:induction false} RunStates(d: Decoder, s: seq<byte>)
    requires d.state <= 8
    ensures Run(d, s).state <= 8
    decreases s
  {
    if s != [] {
      RunStates(Step(d, s[0]), s[1..]);
    }
  }

  //
  // RFC 3629
  //

  /** A Unicode scalar value. */
  predicate Scalar(v: nat) {
    v <= 0x10FFFF && !(0xD800 <= v <= 0xDFFF)
  }

  /** Section 3 of RFC 3629. */
  function Encode(v: nat): seq<byte>
    requires Scalar(v)
  {
    if v < 0x80 then [v]
    else if v < 0x800 then [0xC0 + v / 0x40, 0x80 + v % 0x40]
    else if v < 0x10000 then [0xE0 + v / 0x1000, 0x80 + v / 0x40 % 0x40, 0x80 + v % 0x40]
    else [0xF0 + v / 0x40000, 0x80 + v / 0x1000 % 0x40, 0x80 + v / 0x40 % 0x40, 0x80 + v % 0x40]
  }

  predicate AllScalar(vs: seq<nat>) {
    forall i :: 0 <= i < |vs| ==> Scalar(vs[i])
  }

  function EncodeAll(vs: seq<nat>): seq<byte>
    requires AllScalar(vs)
  {
    if vs == [] then [] else Encode(vs[0]) + EncodeAll(vs[1..])
  }

  ghost predicate WellFormed(s: seq<byte>) {
    exists vs: seq<nat> :: AllScalar(vs) && EncodeAll(vs) == s
  }

  /** The code points at which the automaton returns to its accepting state. */
  function Codepoints(d: Decoder, s: seq<byte>): seq<nat>
    decreases s
  {
    if s == [] then []
    else
      var e := Step(d, s[0]);
      (if e.state == ACCEPT then [e.codep] else []) + Codepoints(e, s[1..])
  }

  lemma {:induction false} CodepointsConcat(d: Decoder, a: seq<byte>, b: seq<byte>)
    ensures Codepoints(d, a + b) == Codepoints(d, a) + Codepoints(Run(d, a), b)
    decreases a
  {
    if a == [] {
      assert a + b == b;
    } else {
      assert (a + b)[1..] == a[1..] + b;
      CodepointsConcat(Step(d, a[0]), a[1..], b);
    }
  }

  //
  // One character
  //

  /** How many bytes the character whose first byte leads to state `s` takes. */
  function Width(s: nat): nat {
    if s <= 1 then 1 else if s == 2 then 2 else if s <= 5 then 3 else 4
  }

  /** What it means for `s` to be read from `d` as the one character `v`. */
  ghost predicate Reads(d: Decoder, s: seq<byte>, v: nat) {
    Scalar(v) && s == Encode(v) && Run(d, s) == Decoder(ACCEPT, v) && Codepoints(d, s) == [v]
  }

  lemma Unroll(d: Decoder, a: byte, t: seq<byte>)
    ensures Run(d, [a] + t) == Run(Step(d, a), t)
    ensures Step(d, a).state != ACCEPT ==> Codepoints(d, [a] + t) == Codepoints(Step(d, a), t)
    ensures Step(d, a).state == REJECT ==> Run(d, [a] + t).state == REJECT
  {
    assert ([a] + t)[1..] == t;
    if Step(d, a).state == REJECT {
      RejectAbsorbs(Step(d, a), t);
    }
  }

  /** The bytes that may follow in state `s` of a character that is not yet down to its last byte. */
  predicate Follows(s: nat, b: byte) {
    match s
    case 4 => 0xA0 <= b < 0xC0
    case 5 => 0x80 <= b < 0xA0
    case 6 => 0x90 <= b < 0xC0
    case 8 => 0x80 <= b < 0x90
    case _ => 0x80 <= b < 0xC0
  }

  lemma Continue(d: Decoder, b: byte)
    requires 2 <= d.state <= 8 && d.codep < 0x400_0000
    ensures Step(d, b) == Decoder(if !Follows(d.state, b) then REJECT else if d.state == 2 then ACCEPT
                                  else if d.state <= 5 then 2 else 3, d.codep * 64 + b % 64)
  {}

  lemma LastByte(d: Decoder, b: byte)
    requires d.state == 2 && d.codep < 0x400_0000
    ensures var v := d.codep * 64 + b % 64;
      if Follows(2, b) then Run(d, [b]) == Decoder(ACCEPT, v) && Codepoints(d, [b]) == [v]
      else Run(d, [b]).state == REJECT
  {
  }

  lemma LastTwo(d: Decoder, b: byte, c: byte)
    requires 3 <= d.state <= 5 && d.codep < 0x10_0000
    ensures var v := d.codep * 4096 + b % 64 * 64 + c % 64;
      if Follows(d.state, b) && Follows(2, c) then Run(d, [b, c]) == Decoder(ACCEPT, v) && Codepoints(d, [b, c]) == [v]
      else Run(d, [b, c]).state == REJECT
  {
    hide Run, Codepoints, Step;
    Unroll(d, b, [c]);
    assert [b] + [c] == [b, c];
    Continue(d, b);
    if Follows(d.state, b) {
      LastByte(Step(d, b), c);
    }
  }

  lemma LastThree(d: Decoder, b: byte, c: byte, e: byte)
    requires 6 <= d.state <= 8 && d.codep < 8
    ensures var v := d.codep * 262144 + b % 64 * 4096 + c % 64 * 64 + e % 64;
      if Follows(d.state, b) && Follows(2, c) && Follows(2, e)
      then Run(d, [b, c, e]) == Decoder(ACCEPT, v) && Codepoints(d, [b, c, e]) == [v]
      else Run(d, [b, c, e]).state == REJECT
  {
    hide Run, Codepoints, Step;
    Unroll(d, b, [c, e]);
    Continue(d, b);
    assert [b] + [c, e] == [b, c, e];
    if Follows(d.state, b) {
      LastTwo(Step(d, b), c, e);
    }
  }

  lemma FirstByte(d: Decoder, a: byte)
    requires d.state == ACCEPT
    ensures var s := Next(ACCEPT, Class(a));
      && Step(d, a).state == s
      && (s == ACCEPT ==> Step(d, a).codep == a < 0x80)
      && (s == 2 ==> Step(d, a).codep == a - 0xC0 && 0xC2 <= a < 0xE0)
      && (3 <= s <= 5 ==> Step(d, a).codep == a - 0xE0 && 0xE0 <= a < 0xF0)
      && (s == 4 <==> a == 0xE0) && (s == 5 <==> a == 0xED)
      && (6 <= s <= 8 ==> Step(d, a).codep == a - 0xF0 && 0xF0 <= a < 0xF5)
      && (s == 6 <==> a == 0xF0) && (s == 8 <==> a == 0xF4)
  {
    assert Pow2(8) == 256 && Pow2(6) == 64 && Pow2(5) == 32 && Pow2(4) == 16 && Pow2(3) == 8;
    assert Pow2(2) == 4 && Pow2(7) == 128;
  }

  lemma OneByte(d: Decoder, a: byte)
    requires d.state == ACCEPT && Next(ACCEPT, Class(a)) == ACCEPT
    ensures Reads(d, [a], a)
  {
  }

  lemma EncodesTwo(x: nat, b: nat)
    requires 2 <= x < 32 && b < 64
    ensures Scalar(x * 64 + b) && Encode(x * 64 + b) == [0xC0 + x, 0x80 + b]
  {}

  lemma EncodesThree(x: nat, b: nat, c: nat)
    requires x < 16 && b < 64 && c < 64 && (x == 0 ==> b >= 32) && (x == 13 ==> b < 32)
    ensures var v := x * 4096 + b * 64 + c; Scalar(v) && Encode(v) == [0xE0 + x, 0x80 + b, 0x80 + c]
  {
    var v := x * 4096 + b * 64 + c;
    assert v / 4096 == x && v / 64 == x * 64 + b && v % 64 == c;
    assert (x * 64 + b) % 64 == b;
  }

  lemma EncodesFour(x: nat, b: nat, c: nat, e: nat)
    requires x < 5 && b < 64 && c < 64 && e < 64 && (x == 0 ==> b >= 16) && (x == 4 ==> b < 16)
    ensures var v := x * 262144 + b * 4096 + c * 64 + e;
      Scalar(v) && Encode(v) == [0xF0 + x, 0x80 + b, 0x80 + c, 0x80 + e]
  {
    var v := x * 262144 + b * 4096 + c * 64 + e;
    assert v / 262144 == x && v / 4096 == x * 64 + b && v / 64 == x * 4096 + b * 64 + c && v % 64 == e;
    assert (x * 64 + b) % 64 == b && (x * 4096 + b * 64 + c) % 64 == c;
  }

  lemma TwoBytes(d: Decoder, a: byte, b: byte)
    requires d.state == ACCEPT && Next(ACCEPT, Class(a)) == 2
    ensures if Follows(2, b) then Reads(d, [a, b], (a - 0xC0) * 64 + b % 64) else Run(d, [a, b]).state == REJECT
  {
    hide Run, Codepoints, Step, Next, Class, Encode;
    FirstByte(d, a);
    Unroll(d, a, [b]);
    assert [a] + [b] == [a, b];
    LastByte(Step(d, a), b);
    if Follows(2, b) {
      EncodesTwo(a - 0xC0, b % 64);
    }
  }

  lemma ThreeBytes(d: Decoder, a: byte, b: byte, c: byte)
    requires d.state == ACCEPT && 3 <= Next(ACCEPT, Class(a)) <= 5
    ensures if Follows(Next(ACCEPT, Class(a)), b) && Follows(2, c)
      then Reads(d, [a, b, c], (a - 0xE0) * 4096 + b % 64 * 64 + c % 64) else Run(d, [a, b, c]).state == REJECT
  {
    hide Run, Codepoints, Step, Next, Class, Encode;
    FirstByte(d, a);
    Unroll(d, a, [b, c]);
    assert [a] + [b, c] == [a, b, c];
    LastTwo(Step(d, a), b, c);
    if Follows(Next(ACCEPT, Class(a)), b) && Follows(2, c) {
      EncodesThree(a - 0xE0, b % 64, c % 64);
    }
  }

  lemma FourBytes(d: Decoder, a: byte, b: byte, c: byte, e: byte)
    requires d.state == ACCEPT && 6 <= Next(ACCEPT, Class(a)) <= 8
    ensures if Follows(Next(ACCEPT, Class(a)), b) && Follows(2, c) && Follows(2, e)
      then Reads(d, [a, b, c, e], (a - 0xF0) * 262144 + b % 64 * 4096 + c % 64 * 64 + e % 64)
      else Run(d, [a, b, c, e]).state == REJECT
  {
    hide Run, Codepoints, Step, Next, Class, Encode;
    FirstByte(d, a);
    Unroll(d, a, [b, c, e]);
    assert [a] + [b, c, e] == [a, b, c, e];
    LastThree(Step(d, a), b, c, e);
    if Follows(Next(ACCEPT, Class(a)), b) && Follows(2, c) && Follows(2, e) {
      EncodesFour(a - 0xF0, b % 64, c % 64, e % 64);
    }
  }

  /** A character cut short leaves the automaton between states 2 and 8, or rejecting. */
  lemma Unfinished(d: Decoder, s: seq<byte>)
    requires d.state == ACCEPT && 1 <= |s| < Width(Next(ACCEPT, Class(s[0])))
    ensures Run(d, s).state != ACCEPT
  {
    hide Class, Next;
    FirstByte(d, s[0]);
    Unroll(d, s[0], s[1..]);
    assert [s[0]] + s[1..] == s;
    var e := Step(d, s[0]);
    if |s| >= 2 {
      hide Step, Run;
      Continue(e, s[1]);
      Unroll(e, s[1], s[2..]);
      assert [s[1]] + s[2..] == s[1..];
      if |s| == 3 && Follows(e.state, s[1]) {
        Continue(Step(e, s[1]), s[2]);
        Unroll(Step(e, s[1]), s[2], []);
        assert [s[2]] + [] == s[2..];
        RunEmpty(Step(Step(e, s[1]), s[2]));
      } else if |s| == 2 {
        RunEmpty(Step(e, s[1]));
      }
    }
  }

  lemma RunEmpty(d: Decoder)
    ensures Run(d, []) == d
  {}

  /** A string the automaton does not reject starts with a whole character or is a character cut short. */
  lemma FirstCharacter(d: Decoder, s: seq<byte>)
    requires d.state == ACCEPT && s != [] && Run(d, s).state != REJECT
    ensures var w := Width(Next(ACCEPT, Class(s[0])));
      if w <= |s| then Reads(d, s[..w], Run(d, s[..w]).codep) else Run(d, s).state != ACCEPT
  {
    hide Run, Codepoints, Step, Encode;
    var n := Next(ACCEPT, Class(s[0]));
    var w := Width(n);
    if w > |s| {
      Unfinished(d, s);
    } else {
      RunConcat(d, s[..w], s[w..]);
      assert s[..w] + s[w..] == s;
      if Run(d, s[..w]).state == REJECT {
        RejectAbsorbs(Run(d, s[..w]), s[w..]);
      }
      FirstByte(d, s[0]);
      Unroll(d, s[0], s[1..]);
      assert [s[0]] + s[1..] == s;
      if n == ACCEPT {
        assert s[..1] == [s[0]];
        OneByte(d, s[0]);
      } else if n == 2 {
        assert s[..2] == [s[0], s[1]];
        TwoBytes(d, s[0], s[1]);
      } else if n <= 5 {
        assert s[..3] == [s[0], s[1], s[2]];
        ThreeBytes(d, s[0], s[1], s[2]);
      } else if n > 5 {
        assert s[..4] == [s[0], s[1], s[2], s[3]];
        FourBytes(d, s[0], s[1], s[2], s[3]);
      }
    }
  }

  /** Every scalar value's encoding is read back as that value. */
  lemma ReadsEncoding(d: Decoder, v: nat)
    requires d.state == ACCEPT && Scalar(v)
    ensures Reads(d, Encode(v), v)
  {
    hide Run, Codepoints, Step, Encode, Class, Next;
    if v < 0x80 {
      LeadByte(v);
      OneByte(d, v);
    } else if v < 0x800 {
      ReadsTwo(d, v / 0x40, v % 0x40);
    } else if v < 0x10000 {
      Digits(v);
      ReadsThree(d, v / 0x1000, v / 0x40 % 0x40, v % 0x40);
    } else {
      Digits(v);
      ReadsFour(d, v / 0x40000, v / 0x1000 % 0x40, v / 0x40 % 0x40, v % 0x40);
    }
  }

  lemma Digits(v: nat)
    ensures v == v / 0x1000 * 4096 + v / 0x40 % 0x40 * 64 + v % 0x40
    ensures v / 0x1000 == v / 0x40000 * 64 + v / 0x1000 % 0x40
  {
  }

  lemma ReadsTwo(d: Decoder, x: nat, b: nat)
    requires d.state == ACCEPT && 2 <= x < 32 && b < 64
    ensures Reads(d, Encode(x * 64 + b), x * 64 + b)
  {
    hide Run, Codepoints, Step, Encode, Class, Next;
    LeadByte(0xC0 + x);
    TwoBytes(d, 0xC0 + x, 0x80 + b);
  }

  lemma ReadsThree(d: Decoder, x: nat, b: nat, c: nat)
    requires d.state == ACCEPT && x < 16 && b < 64 && c < 64 && (x == 0 ==> b >= 32) && (x == 13 ==> b < 32)
    ensures var v := x * 4096 + b * 64 + c; Scalar(v) && Reads(d, Encode(v), v)
  {
    hide Run, Codepoints, Step, Encode, Class, Next;
    LeadByte(0xE0 + x);
    ThreeBytes(d, 0xE0 + x, 0x80 + b, 0x80 + c);
  }

  lemma ReadsFour(d: Decoder, x: nat, b: nat, c: nat, e: nat)
    requires d.state == ACCEPT && x < 5 && b < 64 && c < 64 && e < 64 && (x == 0 ==> b >= 16) && (x == 4 ==> b < 16)
    ensures var v := x * 262144 + b * 4096 + c * 64 + e; Scalar(v) && Reads(d, Encode(v), v)
  {
    hide Run, Codepoints, Step, Encode, Class, Next;
    LeadByte(0xF0 + x);
    FourBytes(d, 0xF0 + x, 0x80 + b, 0x80 + c, 0x80 + e);
  }

  /** The state each possible first byte leads to. */
  lemma LeadByte(a: byte)
    ensures a < 0x80 ==> Next(ACCEPT, Class(a)) == ACCEPT
    ensures 0xC2 <= a < 0xE0 ==> Next(ACCEPT, Class(a)) == 2
    ensures 0xE0 <= a < 0xF0 ==> Next(ACCEPT, Class(a)) == if a == 0xE0 then 4 else if a == 0xED then 5 else 3
    ensures 0xF0 <= a < 0xF5 ==> Next(ACCEPT, Class(a)) == if a == 0xF0 then 6 else if a == 0xF4 then 8 else 7
  {}

  //
  // Strings
  //

  /** Encodings are accepted, and the code points read are the values encoded. */
  lemma {:induction false} AcceptsEncodings(d: Decoder, vs: seq<nat>)
    requires d.state == ACCEPT && AllScalar(vs)
    ensures Run(d, EncodeAll(vs)).state == ACCEPT
    ensures Codepoints(d, EncodeAll(vs)) == vs
    decreases vs
  {
    hide Encode, Step;
    if vs != [] {
      ReadsEncoding(d, vs[0]);
      RunConcat(d, Encode(vs[0]), EncodeAll(vs[1..]));
      CodepointsConcat(d, Encode(vs[0]), EncodeAll(vs[1..]));
      AcceptsEncodings(Run(d, Encode(vs[0])), vs[1..]);
    }
  }

  /** What is accepted is the encoding of the code points read. */
  lemma {:induction false} AcceptedIsEncoding(d: Decoder, s: seq<byte>)
    requires d.state == ACCEPT && Run(d, s).state == ACCEPT
    ensures AllScalar(Codepoints(d, s)) && EncodeAll(Codepoints(d, s)) == s
    decreases s
  {
    hide Step;
    if s != [] {
      FirstCharacter(d, s);
      hide Encode, Class, Next;
      var w := Width(Next(ACCEPT, Class(s[0])));
      var head, tail := s[..w], s[w..];
      assert head + tail == s;
      RunConcat(d, head, tail);
      CodepointsConcat(d, head, tail);
      AcceptedIsEncoding(Run(d, head), tail);
      var vs := Codepoints(d, s);
      assert vs[1..] == Codepoints(Run(d, head), tail);
    }
  }

  /** The automaton accepts exactly the well-formed strings of RFC 3629. */
  lemma AcceptsExactlyWellFormed(s: seq<byte>)
    ensures Run(FRESH, s).state == ACCEPT <==> WellFormed(s)
  {
    if Run(FRESH, s).state == ACCEPT {
      AcceptedIsEncoding(FRESH, s);
    }
    forall vs: seq<nat> | AllScalar(vs) && EncodeAll(vs) == s ensures Run(FRESH, s).state == ACCEPT {
      AcceptsEncodings(FRESH, vs);
    }
  }

  /** Bytes that complete the character begun in state `s`. */
  function Completion(s: nat): seq<byte> {
    match s
    case 2 => [0x80]
    case 3 => [0x80, 0x80]
    case 4 => [0xA0, 0x80]
    case 5 => [0x80, 0x80]
    case 6 => [0x90, 0x80, 0x80]
    case 7 => [0x80, 0x80, 0x80]
    case 8 => [0x80, 0x80, 0x80]
    case _ => []
  }

  lemma CompletionCompletes(d: Decoder)
    requires d.state <= 8 && d.state != REJECT
    ensures Run(d, Completion(d.state)).state == ACCEPT
  {
    hide Run;
    var s := Completion(d.state);
    RunEmpty(d);
    if s != [] {
      var e := Step(d, s[0]);
      assert s == [s[0]] + s[1..];
      Unroll(d, s[0], s[1..]);
      RunEmpty(e);
      if |s| >= 2 {
        assert s[1..] == [s[1]] + s[2..];
        Unroll(e, s[1], s[2..]);
        RunEmpty(Step(e, s[1]));
        if |s| >= 3 {
          assert s[2..] == [s[2]] + [];
          Unroll(Step(e, s[1]), s[2], []);
          RunEmpty(Step(Step(e, s[1]), s[2]));
        }
      }
    }
  }

  /** A string is not yet rejected exactly when it is the beginning of a well-formed one. */
  lemma NotRejectedIsPrefix(s: seq<byte>)
    ensures Run(FRESH, s).state != REJECT <==> exists t: seq<byte> :: WellFormed(s + t)
  {
    hide Step;
    if Run(FRESH, s).state != REJECT {
      var t := Completion(Run(FRESH, s).state);
      RunStates(FRESH, s);
      CompletionCompletes(Run(FRESH, s));
      RunConcat(FRESH, s, t);
      AcceptsExactlyWellFormed(s + t);
    }
    forall t: seq<byte> | WellFormed(s + t) ensures Run(FRESH, s).state != REJECT {
      AcceptsExactlyWellFormed(s + t);
      RunConcat(FRESH, s, t);
      if Run(FRESH, s).state == REJECT {
        RejectAbsorbs(Run(FRESH, s), t);
      }
    }
  }

  /** No byte of a string that is not rejected is one UTF-8 never uses. */
  lemma {:induction false} NeverRejectedBytes(d: Decoder, s: seq<byte>)
    requires Run(d, s).state != REJECT
    ensures forall i :: 0 <= i < |s| ==> s[i] < 0xF5
    decreases s
  {
    if s != [] {
      if Step(d, s[0]).state == REJECT {
        RejectAbsorbs(Step(d, s[0]), s[1..]);
      }
      NeverRejectedBytes(Step(d, s[0]), s[1..]);
    }
  }

  //
  // The validator object
  //

  class Validator {
    var state: nat
    var codepoint: nat

    constructor ()
      ensures Abs() == FRESH
    {
      state, codepoint := ACCEPT, 0;
    }

    function Abs(): Decoder
      reads this
    {
      Decoder(state, codepoint)
    }

    /** One byte through the table. */
    method ConsumeByte(b: byte) returns (result: nat)
      requires state <= 8
      modifies this
      ensures Abs() == Step(old(Abs()), b) && result == state <= 8
    {
      var c := Utf8d(b);
      if b < 0xC0 { TableClassLow(b); } else { TableClassHigh(b); }
      TableNext(state, c);
      codepoint := if state != ACCEPT then b % 64 + codepoint * 64 % 0x1_0000_0000 else LeadBits(c, b);
      state := Utf8d(256 + state * 16 + c);
      result := state;
    }

    /** A range of bytes; stops at the first one rejected. */
    method Decode(s: seq<byte>) returns (ok: bool)
      requires state <= 8
      modifies this
      ensures ok <==> s == [] || Run(old(Abs()), s).state != REJECT
      ensures ok ==> Abs() == Run(old(Abs()), s)
      ensures state <= 8
    {
      hide Step, Run, Utf8d;
      RunEmpty(Abs());
      for i := 0 to |s|
        invariant state <= 8
        invariant Abs() == Run(old(Abs()), s[..i])
        invariant i > 0 ==> state != REJECT
      {
        var result := ConsumeByte(s[i]);
        RunSnoc(old(Abs()), s[..i], s[i]);
        assert s[..i] + [s[i]] == s[..i + 1];
        if result == REJECT {
          RunConcat(old(Abs()), s[..i + 1], s[i + 1..]);
          assert s[..i + 1] + s[i + 1..] == s;
          RejectAbsorbs(Abs(), s[i + 1..]);
          return false;
        }
      }
      assert s[..|s|] == s;
      return true;
    }
  }

  lemma RunSnoc(d: Decoder, s: seq<byte>, b: byte)
    ensures Run(d, s + [b]) == Step(Run(d, s), b)
  {
    RunConcat(d, s, [b]);
  }

  method Validate(s: seq<byte>) returns (ok: bool)
    ensures ok <==> WellFormed(s)
  {
    var v := new Validator();
    AcceptsExactlyWellFormed(s);
    ok := v.Decode(s);
    if !ok { return false; }
    return v.state == ACCEPT;
  }
}
