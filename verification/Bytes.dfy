/**
 Bytes and the machine words made of them. Words are little-endian naturals; `xor` is written out bit by bit.
 */
module Bytes {
  type byte = x: int | 0 <= x < 256

  const TWO32 := 0x1_0000_0000

  /** A 32-bit word. */
  type word = x: int | 0 <= x < TWO32

  /** Addition of 32-bit words. */
  function Add(a: nat, b: nat): word {
    (a + b) % TWO32
  }

  function Zeros(n: nat): (z: seq<byte>)
    ensures |z| == n && forall i :: 0 <= i < n ==> z[i] == 0
  {
    seq(n, _ => 0)
  }

  /** A text in ASCII. */
  function Ascii(s: string): (b: seq<byte>)
    ensures |b| == |s|
  {
    seq(|s|, i requires 0 <= i < |s| => if s[i] < 128 as char then s[i] as byte else 0)
  }

  function Flatten<T>(chunks: seq<seq<T>>): seq<T> {
    if chunks == [] then [] else chunks[0] + Flatten(chunks[1..])
  }

  function Pow2(n: nat): (p: nat)
    ensures p > 0
  {
    if n == 0 then 1 else 2 * Pow2(n - 1)
  }

  function Pow256(n: nat): (p: nat)
    ensures p > 0
  {
    if n == 0 then 1 else 256 * Pow256(n - 1)
  }

  /** A buffer that still holds, from `n` on, what it held at first, does so further on. */
  lemma HoldsMore(first: seq<byte>, now: seq<byte>, n: nat, m: nat)
    requires n <= m <= |first| == |now| && now[n..] == first[n..]
    ensures now[m..] == first[m..]
  {
    assert now[m..] == now[n..][m - n..] && first[m..] == first[n..][m - n..];
  }

  lemma FourOctets()
    ensures Pow256(4) == TWO32
  {
  }

  //
  // Exclusive or
  //

  /** The exclusive or of the low `n` bits. */
  function XorBits(a: nat, b: nat, n: nat): (r: nat)
    ensures r < Pow2(n)
  {
    if n == 0 then 0 else (a + b) % 2 + 2 * XorBits(a / 2, b / 2, n - 1)
  }

  lemma {:induction false} XorBitsTwice(a: nat, k: nat, n: nat)
    requires a < Pow2(n)
    ensures XorBits(XorBits(a, k, n), k, n) == a
  {
    if n > 0 {
      XorBitsTwice(a / 2, k / 2, n - 1);
      XorStep(a, k, n);
      XorStep(XorBits(a, k, n), k, n);
      hide XorBits;
      Parity(a, k, XorBits(a / 2, k / 2, n - 1));
    }
  }

  lemma XorStep(a: nat, b: nat, n: nat)
    requires n > 0
    ensures XorBits(a, b, n) == (a + b) % 2 + 2 * XorBits(a / 2, b / 2, n - 1)
  {}

  lemma Parity(a: nat, k: nat, rest: nat)
    ensures ((a + k) % 2 + 2 * rest) / 2 == rest
    ensures ((a + k) % 2 + 2 * rest + k) % 2 == a % 2
  {}

  function Xor(a: byte, b: byte): byte {
    XorByteBound(a, b);
    XorBits(a, b, 8)
  }

  lemma XorByteBound(a: byte, b: byte)
    ensures XorBits(a, b, 8) < 256
  {
  }

  lemma XorTwice(a: byte, k: byte)
    ensures Xor(Xor(a, k), k) == a
  {
    assert Pow2(8) == 256;
    XorBitsTwice(a, k, 8);
  }

  /** The exclusive or of two words of `n` octets. */
  function XorWord(a: nat, b: nat, n: nat): nat {
    XorBits(a, b, 8 * n)
  }

  //
  // Little-endian words
  //

  /** The word stored in these octets. */
  function Word(b: seq<byte>): nat {
    if b == [] then 0 else b[0] + 256 * Word(b[1..])
  }

  /** The low `n` octets of a word, as stored. */
  function Octets(w: nat, n: nat): (b: seq<byte>)
    ensures |b| == n
  {
    if n == 0 then [] else [w % 256] + Octets(w / 256, n - 1)
  }

  lemma {:induction false} OctetsOfWord(b: seq<byte>)
    ensures Octets(Word(b), |b|) == b
  {
    if b != [] {
      OctetsOfWord(b[1..]);
      DivMod(Word(b), 256, Word(b[1..]), b[0]);
      assert b == [b[0]] + b[1..];
    }
  }

  lemma {:induction false} WordOfOctets(w: nat, n: nat)
    requires w < Pow256(n)
    ensures Word(Octets(w, n)) == w
  {
    if n > 0 {
      WordOfOctets(w / 256, n - 1);
    }
  }

  lemma {:induction false} OctetsConcat(a: nat, m: nat, b: nat, n: nat)
    requires a < Pow256(m)
    ensures Octets(a + Pow256(m) * b, m + n) == Octets(a, m) + Octets(b, n)
  {
    if m > 0 {
      MulSwap(256, Pow256(m - 1), b);
      var w := a + Pow256(m) * b;
      DivMod(w, 256, a / 256 + Pow256(m - 1) * b, a % 256);
      OctetsConcat(a / 256, m - 1, b, n);
    }
  }

  lemma WordOfFour(a: byte, b: byte, c: byte, d: byte)
    ensures Word([a, b, c, d]) == a + 0x100 * b as nat + 0x1_0000 * c as nat + 0x100_0000 * d as nat
  {
    var s: seq<byte> := [a, b, c, d];
    assert s[1..] == [b, c, d] && s[2..] == [c, d] && s[3..] == [d] && s[4..] == [];
    assert s[1..][1..] == s[2..] && s[2..][1..] == s[3..] && s[3..][1..] == s[4..];
    assert Word(s[3..]) == d as nat;
    assert Word(s[2..]) == c as nat + 256 * d as nat;
    assert Word(s[1..]) == b as nat + 256 * Word(s[2..]);
  }

  lemma {:induction false} WordBound(b: seq<byte>)
    ensures Word(b) < Pow256(|b|)
  {
    if b != [] {
      WordBound(b[1..]);
    }
  }

  lemma {:induction false} WordConcat(a: seq<byte>, b: seq<byte>)
    ensures Word(a + b) == Word(a) + Pow256(|a|) * Word(b)
  {
    if a == [] {
      assert a + b == b;
    } else {
      WordConcat(a[1..], b);
      assert (a + b)[1..] == a[1..] + b;
      MulSwap(256, Pow256(|a| - 1), Word(b));
    }
  }

  //
  // Bits
  //

  /** Bit `i` of a word. */
  function Bit(w: nat, i: nat): nat {
    w / Pow2(i) % 2
  }

  /** Dividing by 2 and then by `m`. */
  lemma HalveTwice(n: nat, m: nat)
    requires m > 0
    ensures n / (2 * m) == n / 2 / m
  {
    var q, r := n / 2 / m, n / 2 % m;
    assert n / 2 == q * m + r;
    MulSwap(q, 2, m);
    DivMod(n, 2 * m, q, 2 * r + n % 2);
  }

  lemma BitHalf(w: nat, i: nat)
    requires i > 0
    ensures Bit(w, i) == Bit(w / 2, i - 1)
  {
    HalveTwice(w, Pow2(i - 1));
  }

  lemma XorParts(a: nat, b: nat, n: nat)
    requires n > 0
    ensures XorBits(a, b, n) % 2 == (if a % 2 != b % 2 then 1 else 0)
    ensures XorBits(a, b, n) / 2 == XorBits(a / 2, b / 2, n - 1)
  {
    XorStep(a, b, n);
    hide XorBits;
    SumParity(a, b, XorBits(a / 2, b / 2, n - 1));
  }

  lemma SumParity(a: nat, b: nat, rest: nat)
    ensures ((a + b) % 2 + 2 * rest) % 2 == (if a % 2 != b % 2 then 1 else 0)
    ensures ((a + b) % 2 + 2 * rest) / 2 == rest
  {
  }

  lemma {:induction false} XorBit(a: nat, b: nat, n: nat, i: nat)
    requires i < n
    ensures Bit(XorBits(a, b, n), i) == if Bit(a, i) != Bit(b, i) then 1 else 0
  {
    hide XorBits;
    XorParts(a, b, n);
    if i > 0 {
      hide Bit;
      BitHalf(a, i);
      BitHalf(b, i);
      BitHalf(XorBits(a, b, n), i);
      XorBit(a / 2, b / 2, n - 1, i - 1);
    }
  }

  /** Exclusive or sets exactly the bits set in one of the two. */
  lemma XorAt(a: byte, b: byte, i: nat)
    requires i < 8
    ensures Bit(Xor(a, b), i) == if Bit(a, i) != Bit(b, i) then 1 else 0
  {
    hide Bit, XorBits;
    XorBit(a, b, 8, i);
  }

  /** The bits of two words laid side by side. */
  lemma {:induction false} BitJoined(high: nat, low: nat, n: nat, i: nat)
    requires low < Pow2(n)
    ensures Bit(Pow2(n) * high + low, i) == if i < n then Bit(low, i) else Bit(high, i - n)
  {
    if n > 0 {
      var p := Pow2(n - 1);
      MulSwap(2, p, high);
      assert (Pow2(n) * high + low) / 2 == p * high + low / 2 && (Pow2(n) * high + low) % 2 == low % 2;
      if i > 0 {
        hide Bit;
        BitHalf(Pow2(n) * high + low, i);
        BitHalf(low, i);
        BitJoined(high, low / 2, n - 1, i - 1);
      }
    }
  }

  function XorAll(a: seq<byte>, b: seq<byte>): (r: seq<byte>)
    requires |a| == |b|
    ensures |r| == |a|
  {
    seq(|a|, i requires 0 <= i < |a| => Xor(a[i], b[i]))
  }

  /** XORing words is XORing their octets. */
  lemma {:induction false} XorWords(a: seq<byte>, b: seq<byte>)
    requires |a| == |b|
    ensures XorWord(Word(a), Word(b), |a|) == Word(XorAll(a, b))
  {
    hide XorBits;
    if a == [] {
      XorNone(0, 0);
    } else {
      XorWords(a[1..], b[1..]);
      XorSplit(a[0], Word(a[1..]), b[0], Word(b[1..]), 8 * (|a| - 1));
      assert XorAll(a, b)[1..] == XorAll(a[1..], b[1..]);
    }
  }

  lemma XorNone(a: nat, b: nat)
    ensures XorBits(a, b, 0) == 0
  {}

  lemma XorSplit(x: byte, a: nat, y: byte, b: nat, n: nat)
    ensures XorBits(x + 256 * a, y + 256 * b, 8 + n) == XorBits(x, y, 8) + 256 * XorBits(a, b, n)
  {
    assert Pow2(8) == 256;
    hide XorBits;
    ShiftByte(a);
    ShiftByte(b);
    ShiftByte(XorBits(a, b, n));
    XorSplitBits(x, a, y, b, 8, n);
  }

  /** `a` shifted left by `m` bits. */
  function Shift(a: nat, m: nat): nat {
    if m == 0 then a else 2 * Shift(a, m - 1)
  }

  lemma ShiftByte(a: nat)
    ensures Shift(a, 8) == 256 * a
  {
    assert Shift(a, 1) == 2 * a;
    assert Shift(a, 3) == 8 * a;
    assert Shift(a, 5) == 32 * a;
    assert Shift(a, 7) == 128 * a;
  }

  lemma {:induction false} XorSplitBits(x: nat, a: nat, y: nat, b: nat, m: nat, n: nat)
    requires x < Pow2(m) && y < Pow2(m)
    ensures XorBits(x + Shift(a, m), y + Shift(b, m), m + n) == XorBits(x, y, m) + Shift(XorBits(a, b, n), m)
    decreases m
  {
    hide XorBits;
    if m == 0 {
      XorNone(x, y);
    } else {
      XorSplitBits(x / 2, a, y / 2, b, m - 1, n);
      XorStep(x, y, m);
      XorHalves(x, Shift(a, m - 1), y, Shift(b, m - 1), m + n);
    }
  }

  lemma XorHalves(x: nat, a: nat, y: nat, b: nat, n: nat)
    requires n > 0
    ensures XorBits(x + 2 * a, y + 2 * b, n) == (x + y) % 2 + 2 * XorBits(x / 2 + a, y / 2 + b, n - 1)
  {
    hide XorBits;
    XorStep(x + 2 * a, y + 2 * b, n);
    Halve(x, a);
    Halve(y, b);
    Halve(x + y, a + b);
    assert x + 2 * a + (y + 2 * b) == x + y + 2 * (a + b);
  }

  lemma Halve(x: nat, a: nat)
    ensures (x + 2 * a) / 2 == x / 2 + a && (x + 2 * a) % 2 == x % 2
  {}

  //
  // Arithmetic
  //

  lemma MulSwap(a: int, b: int, c: int)
    ensures (a * b) * c == a * (b * c)
    ensures a * b * c == (a * c) * b
  {}

  lemma MulLess(a: nat, b: nat, c: nat)
    requires a < b && c > 0
    ensures a * c < b * c
  {}

  lemma {:induction false} PowSum(m: nat, n: nat)
    ensures Pow256(m + n) == Pow256(m) * Pow256(n)
  {
    if m > 0 {
      PowSum(m - 1, n);
      MulSwap(256, Pow256(m - 1), Pow256(n));
    }
  }

  lemma DivMod(x: nat, d: nat, q: nat, r: nat)
    requires d > 0 && r < d && x == d * q + r
    ensures x / d == q && x % d == r
  {
    Multiple(d, q - x / d);
    MulSub(d, q, x / d);
  }

  /** Dividing by 256 and then by `m`. */
  lemma DivTwice(n: nat, m: nat)
    requires m > 0
    ensures n / (256 * m) == n / 256 / m
  {
    var q, r := n / 256 / m, n / 256 % m;
    assert n / 256 == q * m + r;
    MulSwap(q, 256, m);
    DivMod(n, 256 * m, q, 256 * r + n % 256);
  }

  lemma Multiple(d: int, k: int)
    requires d > 0
    ensures k >= 1 ==> d * k >= d
    ensures k <= -1 ==> d * k <= -d
  {}

  lemma MulSub(d: int, a: int, b: int)
    ensures d * (a - b) == d * a - d * b
  {}
}
