/**
 Base64 (base64.hpp, section 4 of RFC 4648). Text is a sequence of character codes.
 */
module Base64 {
  import opened Bytes

  /** '=' */
  const PAD: byte := 61

  /** The alphabet of table 1: A to Z, a to z, 0 to 9, + and /. */
  function Char(v: nat): byte
    requires v < 64
  {
    if v < 26 then 65 + v
    else if v < 52 then 97 + (v - 26)
    else if v < 62 then 48 + (v - 52)
    else if v == 62 then 43 else 47
  }

  predicate IsBase64(c: byte) {
    c == 43 || 47 <= c <= 57 || 65 <= c <= 90 || 97 <= c <= 122
  }

  /** The position of a character in the alphabet; one that is not there ends up as 255. */
  function Find(c: byte): byte {
    if 65 <= c <= 90 then c - 65 else if 97 <= c <= 122 then c - 71 else if 48 <= c <= 57 then c + 4
    else if c == 43 then 62 else if c == 47 then 63 else 255
  }

  lemma FindChar(v: nat)
    requires v < 64
    ensures Find(Char(v)) == v && IsBase64(Char(v)) && Char(v) != PAD
  {
  }

  lemma CharFind(c: byte)
    ensures IsBase64(c) <==> Find(c) < 64
    ensures IsBase64(c) ==> Char(Find(c)) == c
  {
  }

  /** The four digits in base 64 of three bytes taken as one number. */
  function Digits(a: byte, b: byte, c: byte): (d: seq<nat>)
    ensures |d| == 4 && forall i :: 0 <= i < 4 ==> d[i] < 64
  {
    var n := a as nat * 65536 + b as nat * 256 + c as nat;
    [n / 262144, n / 4096 % 64, n / 64 % 64, n % 64]
  }

  function Chars(d: seq<nat>): (r: seq<byte>)
    requires forall i :: 0 <= i < |d| ==> d[i] < 64
    ensures |r| == |d|
  {
    seq(|d|, i requires 0 <= i < |d| => Char(d[i]))
  }

  function Encode(x: seq<byte>): seq<byte> {
    if |x| == 0 then []
    else if |x| == 1 then Chars(Digits(x[0], 0, 0)[..2]) + [PAD, PAD]
    else if |x| == 2 then Chars(Digits(x[0], x[1], 0)[..3]) + [PAD]
    else Chars(Digits(x[0], x[1], x[2])) + Encode(x[3..])
  }

  lemma {:induction false} EncodeLength(x: seq<byte>)
    ensures |Encode(x)| == 4 * ((|x| + 2) / 3)
  {
    hide Chars, Digits;
    if |x| >= 3 {
      EncodeLength(x[3..]);
    }
  }

  /** The characters read: up to the first that is not of the alphabet. */
  function Accepted(s: seq<byte>): (t: seq<byte>)
    ensures forall c :: c in t ==> IsBase64(c)
  {
    if s == [] || s[0] == PAD || !IsBase64(s[0]) then [] else [s[0]] + Accepted(s[1..])
  }

  function First(a: byte, b: byte): byte
    requires IsBase64(a) && IsBase64(b)
  {
    CharFind(a);
    CharFind(b);
    Find(a) as nat * 4 + Find(b) / 16
  }

  function Second(b: byte, c: byte): byte
    requires IsBase64(b) && IsBase64(c)
  {
    CharFind(c);
    Find(b) as nat % 16 * 16 + Find(c) / 4
  }

  function Third(c: byte, d: byte): byte
    requires IsBase64(c) && IsBase64(d)
  {
    CharFind(d);
    Find(c) as nat % 4 * 64 + Find(d)
  }

  /** What characters of the alphabet stand for; two or three left over stand for one byte less, and one for none. */
  function Values(t: seq<byte>): seq<byte>
    requires forall c :: c in t ==> IsBase64(c)
  {
    if |t| <= 1 then []
    else if |t| == 2 then [First(t[0], t[1])]
    else if |t| == 3 then [First(t[0], t[1]), Second(t[1], t[2])]
    else [First(t[0], t[1]), Second(t[1], t[2]), Third(t[2], t[3])] + Values(t[4..])
  }

  function Decode(s: seq<byte>): seq<byte> {
    Values(Accepted(s))
  }

  /** "f", "fo" and "foo" are "Zg==", "Zm8=" and "Zm9v": section 10 of RFC 4648. */
  lemma TestVectors()
    ensures Encode([102]) == [90, 103, 61, 61]
    ensures Encode([102, 111]) == [90, 109, 56, 61]
    ensures Encode([102, 111, 111]) == [90, 109, 57, 118]
  {
    EncodeNothing();
    assert [102, 111, 111][3..] == [];
    assert Digits(102, 0, 0) == [25, 32, 0, 0];
    assert Digits(102, 111, 0) == [25, 38, 60, 0];
    assert Digits(102, 111, 111) == [25, 38, 61, 47];
    hide Digits;
    assert Chars([25, 32]) == [90, 103];
    assert Chars([25, 38, 60]) == [90, 109, 56];
    assert Chars([25, 38, 61, 47]) == [90, 109, 57, 118];
  }

  /** The bytes of a group come back, from as many digits as they need. */
  lemma GroupBack(a: byte, b: byte, c: byte)
    ensures var t := Chars(Digits(a, b, c));
      && (forall i :: 0 <= i < 4 ==> IsBase64(t[i]) && t[i] != PAD)
      && First(t[0], t[1]) == a && Second(t[1], t[2]) == b && Third(t[2], t[3]) == c
  {
    var d := Digits(a, b, c);
    forall i | 0 <= i < 4 ensures Find(Char(d[i])) == d[i] && IsBase64(Char(d[i])) && Char(d[i]) != PAD {
      FindChar(d[i]);
    }
    DigitsByHand(a, b, c);
    hide Find, Char, IsBase64, Digits;
    assert d[0] * 4 + d[1] / 16 == a;
  }

  /** The digits as the code takes them from the bytes. */
  lemma DigitsByHand(a: byte, b: byte, c: byte)
    ensures Digits(a, b, c) == [a / 4, a % 4 * 16 + b / 16, b % 16 * 4 + c / 64, c % 64]
  {
    var n := a as nat * 65536 + b as nat * 256 + c as nat;
    DivMod(n, 262144, a / 4, a % 4 * 65536 + b as nat * 256 + c);
    DivMod(n, 4096, a as nat * 16 + b / 16, b % 16 * 256 + c);
    DivMod(a as nat * 16 + b / 16, 64, a / 4, a % 4 * 16 + b / 16);
    DivMod(n, 64, a as nat * 1024 + b as nat * 4 + c / 64, c % 64);
    DivMod(a as nat * 1024 + b as nat * 4 + c / 64, 64, a as nat * 16 + b / 16, b % 16 * 4 + c / 64);
  }

  /** Reading stops only at the padding. */
  lemma {:induction false} AcceptedAll(t: seq<byte>, s: seq<byte>)
    requires forall i :: 0 <= i < |t| ==> IsBase64(t[i]) && t[i] != PAD
    ensures Accepted(t + s) == t + Accepted(s)
  {
    if t == [] {
      assert t + s == s;
    } else {
      assert (t + s)[1..] == t[1..] + s;
      AcceptedAll(t[1..], s);
    }
  }

  lemma ShortRoundTrip(a: byte, b: byte)
    ensures Decode(Encode([a])) == [a] && Decode(Encode([a, b])) == [a, b]
  {
    GroupBack(a, 0, 0);
    var t := Chars(Digits(a, 0, 0));
    assert Chars(Digits(a, 0, 0)[..2]) == t[..2];
    AcceptedAll(t[..2], [PAD, PAD]);
    GroupBack(a, b, 0);
    var u := Chars(Digits(a, b, 0));
    assert Chars(Digits(a, b, 0)[..3]) == u[..3];
    AcceptedAll(u[..3], [PAD]);
    hide Digits, Chars, First, Second, Third;
  }

  lemma DecodeGroup(a: byte, b: byte, c: byte, rest: seq<byte>)
    ensures Decode(Chars(Digits(a, b, c)) + rest) == [a, b, c] + Decode(rest)
  {
    GroupBack(a, b, c);
    var t := Chars(Digits(a, b, c));
    AcceptedAll(t, rest);
    hide Digits, Chars, First, Second, Third, Accepted;
    assert (t + Accepted(rest))[4..] == Accepted(rest);
  }

  lemma GroupRoundTrip(a: byte, b: byte, c: byte, rest: seq<byte>)
    requires Decode(Encode(rest)) == rest
    ensures Decode(Encode([a, b, c] + rest)) == [a, b, c] + rest
  {
    hide Digits, Chars, Decode, Encode;
    EncodeGroup(a, b, c, rest);
    DecodeGroup(a, b, c, Encode(rest));
  }

  /** Decoding undoes encoding, for every sequence of bytes. */
  lemma {:induction false} RoundTrip(x: seq<byte>)
    ensures Decode(Encode(x)) == x
  {
    if |x| == 0 {
    } else if |x| == 1 {
      hide Decode, Encode;
      ShortRoundTrip(x[0], 0);
      assert x == [x[0]];
    } else if |x| == 2 {
      hide Decode, Encode;
      ShortRoundTrip(x[0], x[1]);
      assert x == [x[0], x[1]];
    } else {
      hide Decode, Encode;
      RoundTrip(x[3..]);
      GroupRoundTrip(x[0], x[1], x[2], x[3..]);
      assert x == [x[0], x[1], x[2]] + x[3..];
    }
  }

  //
  // The loops
  //

  /** The four digits of the three bytes collected. */
  method Split(three: array<byte>, four: array<byte>)
    requires three.Length == 3 && four.Length == 4 && three != four
    modifies four
    ensures four[..] == Digits(three[0], three[1], three[2])
  {
    DigitsByHand(three[0], three[1], three[2]);
    four[0] := three[0] / 4;
    four[1] := three[0] % 4 * 16 + three[1] / 16;
    four[2] := three[1] % 16 * 4 + three[2] / 64;
    four[3] := three[2] % 64;
  }

  method AppendChars(ret: seq<byte>, four: array<byte>, n: nat) returns (r: seq<byte>)
    requires n <= four.Length && forall k :: 0 <= k < n ==> four[k] < 64
    ensures r == ret + Chars(four[..n])
  {
    r := ret;
    for j := 0 to n
      invariant r == ret + Chars(four[..j])
    {
      r := r + [Char(four[j])];
    }
  }

  /** A whole group, and then the rest. */
  lemma EncodeGroup(a: byte, b: byte, c: byte, rest: seq<byte>)
    ensures Encode([a, b, c] + rest) == Chars(Digits(a, b, c)) + Encode(rest)
  {
  }

  /** One or two bytes left over. */
  method EncodeTail(ret: seq<byte>, three: array<byte>, four: array<byte>, n: nat) returns (r: seq<byte>)
    requires three.Length == 3 && four.Length == 4 && three != four && 0 < n < 3
    modifies three, four
    ensures r == ret + Encode(old(three[..n]))
  {
    hide Digits, Chars, Char;
    ghost var left := three[..n];
    for j := n to 3
      invariant three[..n] == left && forall k :: n <= k < j ==> three[k] == 0
    {
      three[j] := 0;
    }
    Split(three, four);
    assert four[..n + 1] == four[..][..n + 1];
    r := AppendChars(ret, four, n + 1);
    ghost var unpadded := r;
    var i := n;
    while i < 3
      invariant n <= i <= 3 && r == unpadded + seq(i - n, _ => PAD)
    {
      r := r + [PAD];
      i := i + 1;
    }
    assert n == 1 ==> seq(2, _ => PAD) == [PAD, PAD];
    assert n == 2 ==> seq(1, _ => PAD) == [PAD];
  }

  method Base64Encode(input: seq<byte>) returns (ret: seq<byte>)
    ensures ret == Encode(input)
  {
    hide Digits, Chars, Char, Encode;
    ret := [];
    var i, pos := 0, 0;
    var three, four := new byte[3], new byte[4];
    assert three[..0] + input[0..] == input;
    while pos < |input|
      invariant pos <= |input| && i < 3
      invariant ret + Encode(three[..i] + input[pos..]) == Encode(input)
    {
      ghost var todo := three[..i] + input[pos..];
      three[i] := input[pos];
      i, pos := i + 1, pos + 1;
      assert three[..i] + input[pos..] == todo;
      if i == 3 {
        EncodeGroup(three[0], three[1], three[2], input[pos..]);
        assert todo == [three[0], three[1], three[2]] + input[pos..];
        Split(three, four);
        assert four[..4] == four[..];
        ret := AppendChars(ret, four, 4);
        i := 0;
        assert three[..0] + input[pos..] == input[pos..];
      }
    }
    assert three[..i] + input[pos..] == three[..i];
    if i != 0 {
      ret := EncodeTail(ret, three, four, i);
    } else {
      EncodeNothing();
    }
  }

  lemma EncodeNothing()
    ensures Encode([]) == []
  {
  }

  /** Joins the low bits of one value to the high bits of the next, in 8-bit arithmetic. */
  function Join(high: nat, low: nat): byte {
    (high + low) % 256
  }

  lemma JoinSmall(high: nat, low: nat)
    requires high + low < 256
    ensures Join(high, low) == high + low
  {
  }

  lemma JoinFour(v: seq<byte>)
    requires |v| == 4
    ensures v[0] < 64 && v[1] < 64 ==> Join(v[0] as nat * 4, v[1] % 64 / 16) == v[0] as nat * 4 + v[1] / 16
    ensures v[2] < 64 ==> Join(v[1] as nat % 16 * 16, v[2] % 64 / 4) == v[1] as nat % 16 * 16 + v[2] / 4
    ensures v[3] < 64 ==> Join(v[2] as nat % 4 * 64, v[3]) == v[2] as nat % 4 * 64 + v[3]
  {
    hide Join;
    if v[0] < 64 && v[1] < 64 { JoinSmall(v[0] as nat * 4, v[1] % 64 / 16); }
    if v[2] < 64 { JoinSmall(v[1] as nat % 16 * 16, v[2] % 64 / 4); }
    if v[3] < 64 { JoinSmall(v[2] as nat % 4 * 64, v[3]); }
  }

  /** The three bytes of four values. */
  method Combine(four: array<byte>, three: array<byte>)
    requires three.Length == 3 && four.Length == 4 && three != four
    modifies three
    ensures four[0] < 64 && four[1] < 64 ==> three[0] == four[0] as nat * 4 + four[1] / 16
    ensures four[2] < 64 ==> three[1] == four[1] as nat % 16 * 16 + four[2] / 4
    ensures four[3] < 64 ==> three[2] == four[2] as nat % 4 * 64 + four[3]
  {
    JoinFour(four[..]);
    hide Join;
    three[0] := Join(four[0] as nat * 4, four[1] % 64 / 16);
    three[1] := Join(four[1] as nat % 16 * 16, four[2] % 64 / 4);
    three[2] := Join(four[2] as nat % 4 * 64, four[3]);
  }

  method FindAll(four: array<byte>)
    requires four.Length == 4
    modifies four
    ensures forall k :: 0 <= k < 4 ==> four[k] == Find(old(four[k]))
  {
    for j := 0 to 4
      invariant forall k :: 0 <= k < j ==> four[k] == Find(old(four[k]))
      invariant forall k :: j <= k < 4 ==> four[k] == old(four[k])
    {
      four[j] := Find(four[j]);
    }
  }

  /** The values of up to four characters; the places beyond `n` hold junk, which does not get into the bytes taken. */
  method Decoded(four: array<byte>, three: array<byte>, n: nat)
    requires three.Length == 3 && four.Length == 4 && three != four && 0 < n <= 4
    requires forall c :: c in four[..n] ==> IsBase64(c)
    modifies four, three
    ensures three[..n - 1] == Values(old(four[..n]))
  {
    ghost var t := four[..n];
    forall k | 0 <= k < n ensures Find(t[k]) < 64 {
      assert t[k] in t;
      CharFind(t[k]);
    }
    FindAll(four);
    Combine(four, three);
    hide Find, IsBase64;
    assert n == 4 ==> t[4..] == [] && Values([]) == [];
  }

  lemma ValuesGroup(t: seq<byte>, rest: seq<byte>)
    requires |t| == 4 && (forall c :: c in t ==> IsBase64(c)) && (forall c :: c in rest ==> IsBase64(c))
    ensures Values(t + rest) == Values(t) + Values(rest)
  {
  }

  /** Reading goes on at the next character, or ends. */
  lemma AcceptedNext(input: seq<byte>, k: nat)
    requires k <= |input|
    ensures Accepted(input[k..]) ==
      if k == |input| || input[k] == PAD || !IsBase64(input[k]) then [] else [input[k]] + Accepted(input[k + 1..])
  {
    if k < |input| {
      assert input[k..][1..] == input[k + 1..];
    }
  }

  method Base64Decode(input: seq<byte>) returns (ret: seq<byte>)
    ensures ret == Decode(input)
  {
    hide Find, IsBase64, Values, Accepted;
    var in_, i := 0, 0;
    var three, four := new byte[3], new byte[4];
    ret := [];
    assert four[..0] + Accepted(input[0..]) == Accepted(input) by { assert input[0..] == input; }
    while in_ < |input| && input[in_] != PAD && IsBase64(input[in_])
      invariant in_ <= |input| && i < 4
      invariant forall c :: c in four[..i] ==> IsBase64(c)
      invariant ret + Values(four[..i] + Accepted(input[in_..])) == Decode(input)
    {
      ghost var todo := four[..i] + Accepted(input[in_..]);
      AcceptedNext(input, in_);
      four[i] := input[in_];
      i, in_ := i + 1, in_ + 1;
      assert four[..i] + Accepted(input[in_..]) == todo;
      if i == 4 {
        ValuesGroup(four[..4], Accepted(input[in_..]));
        Decoded(four, three, 4);
        ret := ret + three[..];
        assert three[..] == three[..3];
        i := 0;
        assert four[..0] + Accepted(input[in_..]) == Accepted(input[in_..]);
      }
    }
    AcceptedNext(input, in_);
    assert four[..i] + [] == four[..i];
    if i != 0 {
      ghost var t := four[..i];
      for j := i to 4
        invariant four[..i] == t
      {
        four[j] := 0;
      }
      Decoded(four, three, i);
      ret := ret + three[..i - 1];
    } else {
      ValuesNothing();
    }
  }

  lemma ValuesNothing()
    ensures Values([]) == []
  {
  }
}
