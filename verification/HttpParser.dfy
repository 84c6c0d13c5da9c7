/**
 What every HTTP message has (http/parser.hpp, http/impl/parser.hpp, http/constants.hpp): headers, body, and the
 scanning of linear white space. Text is a sequence of character codes; exceptions are values.
 */
module HttpParser {
  import opened Bytes
  import opened Wrappers

  type Text = seq<byte>

  const TAB: byte := 9
  const LF: byte := 10
  const CR: byte := 13
  const SP: byte := 32
  const COLON: byte := 58

  const MAX_HEADER_SIZE := 16000
  const MAX_BODY_SIZE := 32000000

  /** "Host", "Content-Length" and ", " */
  const HOST: Text := [72, 111, 115, 116]
  const CONTENT_LENGTH: Text := [67, 111, 110, 116, 101, 110, 116, 45, 76, 101, 110, 103, 116, 104]
  const COMMA: Text := [44, 32]

  datatype Error =
    | HeaderTooLarge | InvalidMethod | InvalidRequestLine | InvalidHeaderName | InvalidHeaderLine
    | IncompleteRequest | BodyTooLarge | LengthError

  /** The characters of a token: `header_token`. */
  predicate IsToken(c: byte) {
    c == 33 || 35 <= c <= 39 || c == 42 || c == 43 || c == 45 || c == 46 ||
    48 <= c <= 57 || 65 <= c <= 90 || 94 <= c <= 122 ||
    c == 124 || c == 126
  }

  predicate Token(s: Text) {
    forall c :: c in s ==> IsToken(c)
  }

  /** Section 2.2 of RFC 2616: any character but controls and separators. */
  lemma TokenCharacters(c: byte)
    ensures IsToken(c) <==> 32 < c < 127 && (c as int as char) !in "()<>@,;:\\\"/[]?={}"
  {
  }

  predicate IsSpace(c: byte) {
    c == TAB || c == SP
  }

  //
  // Searching
  //

  /** Where `c` is first found, or the length. */
  function IndexOf(s: Text, c: byte): (k: nat)
    ensures k <= |s|
    ensures k < |s| ==> s[k] == c
    ensures c !in s[..k]
  {
    if s == [] || s[0] == c then 0
    else
      var k := IndexOf(s[1..], c);
      assert s[..k + 1] == [s[0]] + s[1..][..k];
      k + 1
  }

  /** Where a line ends, or the length. */
  function LineEnd(s: Text): (k: nat)
    ensures k <= |s|
    ensures k < |s| ==> k + 1 < |s| && s[k] == CR && s[k + 1] == LF
  {
    if |s| < 2 then |s| else if s[0] == CR && s[1] == LF then 0 else LineEnd(s[1..]) + 1
  }

  //
  // White space
  //

  /** One unit of linear white space: how much of `s` it takes. */
  function Lws(s: Text): (n: nat)
    ensures n <= |s|
  {
    if |s| > 2 && s[0] == CR && s[1] == LF && IsSpace(s[2]) then 3 + Spaces(s[3..]) else Spaces(s)
  }

  function Spaces(s: Text): (n: nat)
    ensures n <= |s|
  {
    if s == [] || !IsSpace(s[0]) then 0 else 1 + Spaces(s[1..])
  }

  function AllLws(s: Text): (n: nat)
    ensures n <= |s|
  {
    var n := Lws(s);
    if n == 0 || n == |s| then n else n + AllLws(s[n..])
  }

  function Reverse(s: Text): (r: Text)
    ensures |r| == |s|
  {
    seq(|s|, i requires 0 <= i < |s| => s[|s| - 1 - i])
  }

  /** White space stripped from both ends; the ends found may cross, which no string constructor accepts. */
  function Strip(s: Text): Option<Text> {
    var begin := AllLws(s);
    if begin == |s| then Some([])
    else
      var end := |s| - AllLws(Reverse(s));
      if begin <= end then Some(s[begin..end]) else None
  }

  //
  // Headers: a map ordered by the lower-case form of the names
  //

  function ToLower(c: byte): byte {
    if 65 <= c <= 90 then c + 32 else c
  }

  /** `ci_less` */
  predicate Less(a: Text, b: Text) {
    b != [] && (a == [] || ToLower(a[0]) < ToLower(b[0]) || (ToLower(a[0]) == ToLower(b[0]) && Less(a[1..], b[1..])))
  }

  predicate Same(a: Text, b: Text) {
    !Less(a, b) && !Less(b, a)
  }

  /** The same character, or the two cases of one letter. */
  predicate SameLetter(c: byte, d: byte) {
    c == d || (65 <= c <= 90 && d == c + 32) || (65 <= d <= 90 && c == d + 32)
  }

  /** Names are compared without regard to case, and to nothing else. */
  lemma {:induction false} SameIff(a: Text, b: Text)
    ensures Same(a, b) <==> |a| == |b| && forall i :: 0 <= i < |a| ==> SameLetter(a[i], b[i])
  {
    if a != [] && b != [] {
      SameIff(a[1..], b[1..]);
      assert Same(a, b) <==> SameLetter(a[0], b[0]) && Same(a[1..], b[1..]);
      hide Same, SameLetter;
      assert a == [a[0]] + a[1..] && b == [b[0]] + b[1..];
    }
  }

  datatype Header = Header(name: Text, value: Text)

  predicate Sorted(hs: seq<Header>) {
    forall i, j :: 0 <= i < j < |hs| ==> Less(hs[i].name, hs[j].name)
  }

  function Get(hs: seq<Header>, name: Text): Text {
    if hs == [] then [] else if Same(hs[0].name, name) then hs[0].value else Get(hs[1..], name)
  }

  /** Sets a value, under the name already there if there is one. */
  function Put(hs: seq<Header>, name: Text, value: Text): seq<Header> {
    if hs == [] || Less(name, hs[0].name) then [Header(name, value)] + hs
    else if Same(hs[0].name, name) then [Header(hs[0].name, value)] + hs[1..]
    else [hs[0]] + Put(hs[1..], name, value)
  }

  function Remove(hs: seq<Header>, name: Text): seq<Header> {
    if hs == [] then [] else if Same(hs[0].name, name) then hs[1..] else [hs[0]] + Remove(hs[1..], name)
  }

  function Append(hs: seq<Header>, name: Text, value: Text): seq<Header> {
    var old_ := Get(hs, name);
    Put(hs, name, if old_ == [] then value else old_ + COMMA + value)
  }

  //
  // Numbers
  //

  const ULONG_MAX := 0xFFFF_FFFF_FFFF_FFFF

  predicate IsDigit(c: byte) {
    48 <= c <= 57
  }

  function DigitsValue(s: Text, acc: nat): nat
    decreases s
  {
    if s == [] || !IsDigit(s[0]) then acc else DigitsValue(s[1..], 10 * acc + (s[0] - 48) as nat)
  }

  function SkipSpace(s: Text): Text {
    if s != [] && (9 <= s[0] <= 13 || s[0] == 32) then SkipSpace(s[1..]) else s
  }

  /**
   `strtoul`, base 10: white space, a sign, digits; too large a number is the largest, and a minus sign negates modulo
   2^64.
   */
  function Strtoul(s: Text): nat {
    var t := SkipSpace(s);
    var negative := t != [] && t[0] == 45;
    var v := DigitsValue(if t != [] && (t[0] == 43 || t[0] == 45) then t[1..] else t, 0);
    if v > ULONG_MAX then ULONG_MAX else if negative && v > 0 then ULONG_MAX + 1 - v else v
  }

  function Decimal(n: nat): (s: Text)
    ensures s != []
  {
    if n < 10 then [48 + n] else Decimal(n / 10) + [48 + n % 10]
  }

  lemma {:induction false} DigitsValueConcat(a: Text, b: Text, acc: nat)
    requires forall c :: c in a ==> IsDigit(c)
    ensures DigitsValue(a + b, acc) == DigitsValue(b, DigitsValue(a, acc))
    decreases a
  {
    if a == [] {
      assert a + b == b;
    } else {
      assert (a + b)[1..] == a[1..] + b && a[0] in a;
      DigitsValueConcat(a[1..], b, 10 * acc + (a[0] - 48) as nat);
    }
  }

  lemma {:induction false} DecimalDigits(n: nat)
    ensures forall c :: c in Decimal(n) ==> IsDigit(c)
    ensures DigitsValue(Decimal(n), 0) == n
  {
    if n >= 10 {
      DecimalDigits(n / 10);
      DigitsValueConcat(Decimal(n / 10), [48 + n % 10], 0);
      assert [48 + n % 10][1..] == [];
    }
  }

  /**
   A number with or without a sign, whatever follows it: negated modulo 2^64 after a minus sign, and the largest if it
   does not fit.
   */
  lemma StrtoulReads(sign: Text, n: nat, rest: Text)
    requires (sign == [] || sign == [43] || sign == [45]) && (rest == [] || !(48 <= rest[0] <= 57))
    ensures Strtoul(sign + Decimal(n) + rest) ==
      if n >= 0x1_0000_0000_0000_0000 then 0xFFFF_FFFF_FFFF_FFFF
      else if sign == [45] && n > 0 then 0x1_0000_0000_0000_0000 - n else n
  {
    DecimalDigits(n);
    var d := Decimal(n);
    assert d[0] in d;
    DigitsValueConcat(d, rest, 0);
    var s := sign + d + rest;
    assert s[|sign|..] == d + rest;
    assert DigitsValue(rest, n) == n;
    hide Decimal, DigitsValue;
    assert s[0] == (if sign == [] then d[0] else sign[0]);
    assert s[0..] == s;
  }

  /** A number written out is read back, if it fits. */
  lemma StrtoulDecimal(n: nat)
    requires n <= ULONG_MAX
    ensures Strtoul(Decimal(n)) == n
  {
    StrtoulReads([], n, []);
    assert [] + Decimal(n) + [] == Decimal(n);
  }
}
