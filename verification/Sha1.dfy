/**
 SHA-1 (sha1.hpp), against sections 5.1.1 and 6.1.2 of FIPS 180-4. Words are 32 bits; `|` and `<<` of separate bytes
 are sums and products, and the logical operations are defined bit by bit.
 */
module Sha1 {
  import opened Bytes
  import opened Frame

  const BLOCK := 64

  type Hash = h: seq<word> | |h| == 5 witness [0, 0, 0, 0, 0]

  const INIT: Hash := [0x67452301, 0xefcdab89, 0x98badcfe, 0x10325476, 0xc3d2e1f0]

  //
  // Words
  //

  /** Bit by bit, over the low `n` bits. */
  function AndBits(a: nat, b: nat, n: nat): (r: nat)
    ensures r < Pow2(n)
  {
    if n == 0 then 0 else (if a % 2 == 1 then b % 2 else 0) + 2 * AndBits(a / 2, b / 2, n - 1)
  }

  function OrBits(a: nat, b: nat, n: nat): (r: nat)
    ensures r < Pow2(n)
  {
    if n == 0 then 0 else (if a % 2 == 0 then b % 2 else 1) + 2 * OrBits(a / 2, b / 2, n - 1)
  }

  function NotBits(a: nat, n: nat): (r: nat)
    ensures r < Pow2(n)
  {
    if n == 0 then 0 else 1 - a % 2 + 2 * NotBits(a / 2, n - 1)
  }

  function And(a: word, b: word): word {
    WordBits();
    AndBits(a, b, 32)
  }

  function Or(a: word, b: word): word {
    WordBits();
    OrBits(a, b, 32)
  }

  function Xor(a: word, b: word): word {
    WordBits();
    XorBits(a, b, 32)
  }

  function Not(a: word): word {
    WordBits();
    NotBits(a, 32)
  }

  lemma WordBits()
    ensures Pow2(32) == TWO32
  {
    assert Pow2(8) == 256;
    assert Pow2(16) == 0x1_0000;
    assert Pow2(24) == 0x100_0000;
  }

  /** Rotation to the left, by the amounts used. */
  function Rol(a: word, n: nat): word
    requires n == 1 || n == 5 || n == 30
  {
    match n
    case 1 => Add(2 * a % TWO32, a / 0x8000_0000)
    case 5 => Add(32 * a % TWO32, a / 0x800_0000)
    case _ => Add(0x4000_0000 * a % TWO32, a / 4)
  }

  lemma PowerValues()
    ensures Pow2(1) == 2 && Pow2(2) == 4 && Pow2(5) == 32 && Pow2(27) == 0x800_0000
    ensures Pow2(30) == 0x4000_0000 && Pow2(31) == 0x8000_0000
  {
    assert Pow2(8) == 256 && Pow2(16) == 0x1_0000 && Pow2(24) == 0x100_0000;
  }

  lemma RolOne(a: word)
    ensures Rol(a, 1) == 2 * (a % 0x8000_0000) + a / 0x8000_0000
  {
    DivMod(2 * a, TWO32, a / 0x8000_0000, 2 * (a % 0x8000_0000));
  }

  lemma RolFive(a: word)
    ensures Rol(a, 5) == 32 * (a % 0x800_0000) + a / 0x800_0000
  {
    DivMod(32 * a, TWO32, a / 0x800_0000, 32 * (a % 0x800_0000));
  }

  lemma RolThirty(a: word)
    ensures Rol(a, 30) == 0x4000_0000 * (a % 4) + a / 4
  {
    DivMod(0x4000_0000 * a, TWO32, a / 4, 0x4000_0000 * (a % 4));
  }

  /** The low bits of a word moved up, and the high bits in their place. */
  lemma RolParts(a: word, n: nat) returns (high: nat, low: nat)
    requires n == 1 || n == 5 || n == 30
    ensures low < Pow2(32 - n) && high < Pow2(n)
    ensures a == Pow2(32 - n) * high + low && Rol(a, n) == Pow2(n) * low + high
  {
    PowerValues();
    hide Pow2, Rol;
    match n
    case 1 => high, low := a / 0x8000_0000, a % 0x8000_0000; RolOne(a);
    case 5 => high, low := a / 0x800_0000, a % 0x800_0000; RolFive(a);
    case _ => high, low := a / 4, a % 4; RolThirty(a);
  }

  /** Rotation moves bit `i` to bit `i + n`, modulo 32. */
  lemma RolBit(a: word, n: nat, i: nat)
    requires (n == 1 || n == 5 || n == 30) && i < 32
    ensures Bit(Rol(a, n), (i + n) % 32) == Bit(a, i)
  {
    hide Bit, Pow2, Rol;
    var high, low := RolParts(a, n);
    BitJoined(high, low, 32 - n, i);
    BitJoined(low, high, n, (i + n) % 32);
  }

  lemma {:induction false} AndBit(a: nat, b: nat, n: nat, i: nat)
    requires i < n
    ensures Bit(AndBits(a, b, n), i) == if Bit(a, i) == 1 && Bit(b, i) == 1 then 1 else 0
  {
    AndHalves(a, b, n);
    hide AndBits;
    if i > 0 {
      hide Bit;
      BitHalf(a, i);
      BitHalf(b, i);
      BitHalf(AndBits(a, b, n), i);
      AndBit(a / 2, b / 2, n - 1, i - 1);
    }
  }

  lemma {:induction false} OrBit(a: nat, b: nat, n: nat, i: nat)
    requires i < n
    ensures Bit(OrBits(a, b, n), i) == if Bit(a, i) == 1 || Bit(b, i) == 1 then 1 else 0
  {
    OrHalves(a, b, n);
    hide OrBits;
    if i > 0 {
      hide Bit;
      BitHalf(a, i);
      BitHalf(b, i);
      BitHalf(OrBits(a, b, n), i);
      OrBit(a / 2, b / 2, n - 1, i - 1);
    }
  }

  lemma {:induction false} NotBit(a: nat, n: nat, i: nat)
    requires i < n
    ensures Bit(NotBits(a, n), i) == 1 - Bit(a, i)
  {
    NotHalves(a, n);
    hide NotBits;
    if i > 0 {
      hide Bit;
      BitHalf(a, i);
      BitHalf(NotBits(a, n), i);
      NotBit(a / 2, n - 1, i - 1);
    }
  }

  /** The logical operations, one bit at a time. */
  lemma LogicBits(a: word, b: word, i: nat)
    requires i < 32
    ensures Bit(And(a, b), i) == if Bit(a, i) == 1 && Bit(b, i) == 1 then 1 else 0
    ensures Bit(Or(a, b), i) == if Bit(a, i) == 1 || Bit(b, i) == 1 then 1 else 0
    ensures Bit(Xor(a, b), i) == if Bit(a, i) != Bit(b, i) then 1 else 0
    ensures Bit(Not(a), i) == 1 - Bit(a, i)
  {
    hide Bit, AndBits, OrBits, NotBits, XorBits;
    AndBit(a, b, 32, i);
    OrBit(a, b, 32, i);
    XorBit(a, b, 32, i);
    NotBit(a, 32, i);
  }

  function AndLow(p: nat, q: nat): nat {
    if p == 1 then q else 0
  }

  function OrLow(p: nat, q: nat): nat {
    if p == 0 then q else 1
  }

  function XorLow(p: nat, q: nat): nat {
    if p == q then 0 else 1
  }

  /** The lowest bit of a result, and the others. */
  lemma AndHalves(a: nat, b: nat, n: nat)
    requires n > 0
    ensures AndBits(a, b, n) % 2 == AndLow(a % 2, b % 2) && AndBits(a, b, n) / 2 == AndBits(a / 2, b / 2, n - 1)
  {
  }

  lemma NotHalves(a: nat, n: nat)
    requires n > 0
    ensures NotBits(a, n) % 2 == XorLow(a % 2, 1) && NotBits(a, n) / 2 == NotBits(a / 2, n - 1)
  {
  }

  lemma OrHalves(a: nat, b: nat, n: nat)
    requires n > 0
    ensures OrBits(a, b, n) % 2 == OrLow(a % 2, b % 2) && OrBits(a, b, n) / 2 == OrBits(a / 2, b / 2, n - 1)
  {
  }

  lemma XorHalves(a: nat, b: nat, n: nat)
    requires n > 0
    ensures XorBits(a, b, n) % 2 == XorLow(a % 2, b % 2) && XorBits(a, b, n) / 2 == XorBits(a / 2, b / 2, n - 1)
  {
    hide XorBits;
    XorParts(a, b, n);
  }

  lemma MajorityLow(p: nat, q: nat, r: nat)
    requires p < 2 && q < 2 && r < 2
    ensures OrLow(OrLow(AndLow(p, q), AndLow(p, r)), AndLow(q, r))
      == XorLow(XorLow(AndLow(p, q), AndLow(p, r)), AndLow(q, r))
  {
  }

  lemma SameHalves(x: nat, y: nat)
    requires x % 2 == y % 2 && x / 2 == y / 2
    ensures x == y
  {
  }

  /** Where no bit is set in both, "or" and "exclusive or" agree. */
  lemma {:induction false} DisjointBits(a: nat, b: nat, n: nat)
    requires AndBits(a, b, n) == 0
    ensures OrBits(a, b, n) == XorBits(a, b, n)
  {
    if n > 0 {
      DisjointBits(a / 2, b / 2, n - 1);
    }
  }

  lemma {:induction false} ChooseBits(b: nat, c: nat, d: nat, n: nat)
    ensures AndBits(AndBits(b, c, n), AndBits(NotBits(b, n), d, n), n) == 0
  {
    if n > 0 {
      ChooseBits(b / 2, c / 2, d / 2, n - 1);
      var x, y := AndBits(b, c, n), AndBits(NotBits(b, n), d, n);
      AndHalves(b, c, n);
      NotHalves(b, n);
      AndHalves(NotBits(b, n), d, n);
      AndHalves(x, y, n);
      hide AndBits, NotBits, OrBits, XorBits;
    }
  }

  lemma {:induction false} MajorityBits(b: nat, c: nat, d: nat, n: nat)
    ensures OrBits(OrBits(AndBits(b, c, n), AndBits(b, d, n), n), AndBits(c, d, n), n) ==
      XorBits(XorBits(AndBits(b, c, n), AndBits(b, d, n), n), AndBits(c, d, n), n)
  {
    if n > 0 {
      hide AndBits, NotBits, OrBits, XorBits, AndLow, OrLow, XorLow;
      MajorityBits(b / 2, c / 2, d / 2, n - 1);
      var x, y, z := AndBits(b, c, n), AndBits(b, d, n), AndBits(c, d, n);
      AndHalves(b, c, n);
      AndHalves(b, d, n);
      AndHalves(c, d, n);
      OrHalves(x, y, n);
      OrHalves(OrBits(x, y, n), z, n);
      XorHalves(x, y, n);
      XorHalves(XorBits(x, y, n), z, n);
      MajorityLow(b % 2, c % 2, d % 2);
      SameHalves(OrBits(OrBits(x, y, n), z, n), XorBits(XorBits(x, y, n), z, n));
    }
  }

  /** The two ways of writing "b chooses between c and d". */
  lemma ChooseForms(b: word, c: word, d: word)
    ensures Or(And(b, c), And(Not(b), d)) == Choose(b, c, d)
  {
    hide AndBits, OrBits, NotBits, XorBits;
    ChooseBits(b, c, d, 32);
    DisjointBits(And(b, c), And(Not(b), d), 32);
  }

  /** The two ways of writing a majority. */
  lemma MajorityForms(b: word, c: word, d: word)
    ensures Or(Or(And(b, c), And(b, d)), And(c, d)) == Majority(b, c, d)
  {
    hide AndBits, OrBits, NotBits, XorBits;
    MajorityBits(b, c, d, 32);
  }

  //
  // The hash computation of section 6.1.2
  //

  /** Section 4.1.1. */
  function Choose(x: word, y: word, z: word): word {
    Xor(And(x, y), And(Not(x), z))
  }

  function Parity(x: word, y: word, z: word): word {
    Xor(Xor(x, y), z)
  }

  function Majority(x: word, y: word, z: word): word {
    Xor(Xor(And(x, y), And(x, z)), And(y, z))
  }

  function F(t: nat, x: word, y: word, z: word): word {
    if t < 20 then Choose(x, y, z)
    else if t < 40 then Parity(x, y, z)
    else if t < 60 then Majority(x, y, z) else Parity(x, y, z)
  }

  function K(t: nat): word {
    if t < 20 then 0x5a827999 else if t < 40 then 0x6ed9eba1 else if t < 60 then 0x8f1bbcdc else 0xca62c1d6
  }

  /** The constants of section 4.2.1 are the square roots of 2, 3, 5 and 10, times 2^30. */
  lemma RoundConstants(t: nat)
    requires t < 80
    ensures var n := if t < 20 then 2 else if t < 40 then 3 else if t < 60 then 5 else 10;
      K(t) as nat * K(t) as nat <= 0x1000_0000_0000_0000 * n < (K(t) as nat + 1) * (K(t) as nat + 1)
  {
  }

  /** The initial hash value of section 5.3.1, octet by octet from the low end. */
  lemma InitialHash()
    ensures INIT[0] == Word([0x01, 0x23, 0x45, 0x67]) && INIT[1] == Word([0x89, 0xAB, 0xCD, 0xEF])
    ensures INIT[2] == Word([0xFE, 0xDC, 0xBA, 0x98]) && INIT[3] == Word([0x76, 0x54, 0x32, 0x10])
    ensures INIT[4] == Word([0xF0, 0xE1, 0xD2, 0xC3])
  {
    WordOfFour(0x01, 0x23, 0x45, 0x67);
    WordOfFour(0x89, 0xAB, 0xCD, 0xEF);
    WordOfFour(0xFE, 0xDC, 0xBA, 0x98);
    WordOfFour(0x76, 0x54, 0x32, 0x10);
    WordOfFour(0xF0, 0xE1, 0xD2, 0xC3);
    hide Word;
  }

  /** The message schedule. */
  function W(m: seq<word>, t: nat): word
    requires |m| == 16
  {
    if t < 16 then m[t] else Rol(Xor(Xor(Xor(W(m, t - 3), W(m, t - 8)), W(m, t - 14)), W(m, t - 16)), 1)
  }

  function Step(v: Hash, f: word, k: word, w: word): Hash {
    [(Rol(v[0], 5) + f + v[4] + k + w) % TWO32, v[0], Rol(v[1], 30), v[2], v[3]]
  }

  /** The working variables after `t` rounds. */
  function Rounds(h: Hash, m: seq<word>, t: nat): Hash
    requires |m| == 16
  {
    if t == 0 then h
    else
      var v := Rounds(h, m, t - 1);
      Step(v, F(t - 1, v[1], v[2], v[3]), K(t - 1), W(m, t - 1))
  }

  function Sum(h: Hash, v: Hash): Hash {
    [Add(h[0], v[0]), Add(h[1], v[1]), Add(h[2], v[2]), Add(h[3], v[3]), Add(h[4], v[4])]
  }

  /**
   Eighty rounds, five for each word of the block; with the number written as a product the verifier does not unfold
   them all.
   */
  function Compress(h: Hash, m: seq<word>): Hash
    requires |m| == 16
  {
    Sum(h, Rounds(h, m, 5 * |m|))
  }

  //
  // One block, in place
  //

  method Mix(a: word, b: word, c: word, d: word, e: word, func: word, val: word, w: word)
    returns (a': word, b': word, c': word, d': word, e': word)
    ensures [a', b', c', d', e'] == Step([a, b, c, d, e], func, val, w)
  {
    var t: word := (Rol(a, 5) + func + e + val + w) % TWO32;
    e' := d;
    d' := c;
    c' := Rol(b, 30);
    b' := a;
    a' := t;
  }

  method Extend(w: array<word>, round: nat)
    requires w.Length == 80 && 16 <= round < 80
    modifies w
    ensures w[..] == old(w[..])[round :=
      Rol(Xor(Xor(Xor(old(w[round - 3]), old(w[round - 8])), old(w[round - 14])), old(w[round - 16])), 1)]
  {
    w[round] := Rol(Xor(Xor(Xor(w[round - 3], w[round - 8]), w[round - 14]), w[round - 16]), 1);
  }

  /** Words computed so far. */
  ghost predicate Scheduled(m: seq<word>, w: seq<word>, n: nat) {
    |m| == 16 && n <= |w| && forall t :: 0 <= t < n ==> w[t] == W(m, t)
  }

  method InnerHash(result: array<word>, w: array<word>)
    requires result.Length == 5 && w.Length == 80 && result != w
    modifies result, w
    ensures result[..] == Compress(old(result[..]), old(w[..16]))
  {
    hide Step, Rol, Choose, Majority, And, Or, Xor, Not;
    ghost var h, m := result[..], w[..16];
    var a, b, c, d, e := result[0], result[1], result[2], result[3], result[4];
    var round := 0;
    while round < 16
      invariant round <= 16 && result[..] == h && Scheduled(m, w[..], 16)
      invariant [a, b, c, d, e] == Rounds(h, m, round)
    {
      ChooseForms(b, c, d);
      a, b, c, d, e := Mix(a, b, c, d, e, Or(And(b, c), And(Not(b), d)), 0x5a827999, w[round]);
      round := round + 1;
    }
    while round < 20
      invariant 16 <= round <= 20 && result[..] == h && Scheduled(m, w[..], round)
      invariant [a, b, c, d, e] == Rounds(h, m, round)
    {
      Extend(w, round);
      ChooseForms(b, c, d);
      a, b, c, d, e := Mix(a, b, c, d, e, Or(And(b, c), And(Not(b), d)), 0x5a827999, w[round]);
      round := round + 1;
    }
    while round < 40
      invariant 20 <= round <= 40 && result[..] == h && Scheduled(m, w[..], round)
      invariant [a, b, c, d, e] == Rounds(h, m, round)
    {
      Extend(w, round);
      a, b, c, d, e := Mix(a, b, c, d, e, Xor(Xor(b, c), d), 0x6ed9eba1, w[round]);
      round := round + 1;
    }
    while round < 60
      invariant 40 <= round <= 60 && result[..] == h && Scheduled(m, w[..], round)
      invariant [a, b, c, d, e] == Rounds(h, m, round)
    {
      Extend(w, round);
      MajorityForms(b, c, d);
      a, b, c, d, e := Mix(a, b, c, d, e, Or(Or(And(b, c), And(b, d)), And(c, d)), 0x8f1bbcdc, w[round]);
      round := round + 1;
    }
    while round < 80
      invariant 60 <= round <= 80 && result[..] == h && Scheduled(m, w[..], round)
      invariant [a, b, c, d, e] == Rounds(h, m, round)
    {
      Extend(w, round);
      a, b, c, d, e := Mix(a, b, c, d, e, Xor(Xor(b, c), d), 0xca62c1d6, w[round]);
      round := round + 1;
    }
    result[0] := Add(result[0], a);
    result[1] := Add(result[1], b);
    result[2] := Add(result[2], c);
    result[3] := Add(result[3], d);
    result[4] := Add(result[4], e);
  }

  //
  // Messages
  //

  function WordAt(b: seq<byte>, i: nat): word
    requires i + 4 <= |b|
  {
    b[i] as nat * 0x100_0000 + b[i + 1] as nat * 0x1_0000 + b[i + 2] as nat * 0x100 + b[i + 3] as nat
  }

  function BlockWords(block: seq<byte>): (m: seq<word>)
    requires |block| == BLOCK
    ensures |m| == 16
  {
    seq(16, j requires 0 <= j < 16 => WordAt(block, 4 * j))
  }

  /** All whole blocks of a message, one after the other. */
  function Fold(h: Hash, msg: seq<byte>): Hash
    decreases |msg|
  {
    if |msg| < BLOCK then h else Fold(Compress(h, BlockWords(msg[..BLOCK])), msg[BLOCK..])
  }

  /** What `calc` compresses: the length is kept in 32 bits. */
  function SourcePadded(msg: seq<byte>): seq<byte> {
    var r := |msg| % BLOCK;
    msg + [0x80] + Zeros(if r < 56 then 59 - r else 123 - r) + ToBigEndian(8 * |msg| % TWO32, 4)
  }

  /** Section 5.1.1 of FIPS 180-4: a one bit, the fewest zero bits that leave room, and the length in 64 bits. */
  function Padded(msg: seq<byte>): seq<byte> {
    msg + [0x80] + Zeros((55 - |msg|) % BLOCK) + ToBigEndian(8 * |msg|, 8)
  }

  lemma {:induction false} BigEndianSplit(high: nat, low: nat, m: nat, k: nat)
    requires low < Pow256(k)
    ensures ToBigEndian(low + Pow256(k) * high, m + k) == ToBigEndian(high, m) + ToBigEndian(low, k)
    decreases k
  {
    if k > 0 {
      var n, p := low + Pow256(k) * high, Pow256(k - 1);
      MulSwap(256, p, high);
      DivMod(n, 256, low / 256 + p * high, low % 256);
      BigEndianSplit(high, low / 256, m, k - 1);
      hide Pow256;
      assert ToBigEndian(n, m + k) == ToBigEndian(low / 256 + p * high, m + (k - 1)) + [low % 256];
    }
  }

  lemma ZeroOctets(n: nat)
    requires n < TWO32
    ensures ToBigEndian(n, 4) == Zeros(4) <==> n == 0
  {
    assert Pow256(4) == TWO32;
    BigEndianRoundTrip(n, 4);
    BigEndianRoundTrip(0, 4);
    assert ToBigEndian(0, 4) == Zeros(4);
  }

  lemma SameZeros(n: nat)
    ensures var r := n % BLOCK; (if r < 56 then 59 - r else 123 - r) == (55 - n) % BLOCK + 4
  {
  }

  /** `calc` pads a message as the standard says exactly if the message is shorter than 2^29 bytes. */
  lemma PaddedIff(msg: seq<byte>)
    requires |msg| < 0x2000_0000_0000_0000
    ensures SourcePadded(msg) == Padded(msg) <==> |msg| < 0x2000_0000
  {
    var n, start := 8 * |msg|, msg + [0x80] + Zeros((55 - |msg|) % BLOCK);
    var high, low := ToBigEndian(n / TWO32, 4), ToBigEndian(n % TWO32, 4);
    LengthSplits(msg);
    SourceSplits(msg);
    ZeroOctets(n / TWO32);
    hide ToBigEndian, Zeros, Padded, SourcePadded;
    Middle(start, high, Zeros(4), low);
  }

  lemma LengthSplits(msg: seq<byte>)
    ensures var n := 8 * |msg|;
      Padded(msg) ==
        (msg + [0x80] + Zeros((55 - |msg|) % BLOCK)) + ToBigEndian(n / TWO32, 4) + ToBigEndian(n % TWO32, 4)
  {
    hide ToBigEndian, Zeros;
    var n := 8 * |msg|;
    FourOctets();
    BigEndianSplit(n / TWO32, n % TWO32, 4, 4);
    assert n == n % TWO32 + TWO32 * (n / TWO32);
  }

  lemma SourceZeros(msg: seq<byte>, z: nat)
    requires z + 4 == var r := |msg| % BLOCK; if r < 56 then 59 - r else 123 - r
    ensures SourcePadded(msg) == (msg + [0x80] + Zeros(z)) + Zeros(4) + ToBigEndian(8 * |msg| % TWO32, 4)
  {
    hide ToBigEndian, Zeros;
    ZerosAdd(z);
    Regroup(msg + [0x80], Zeros(z), Zeros(4));
  }

  lemma SourceSplits(msg: seq<byte>)
    ensures SourcePadded(msg)
         == (msg + [0x80] + Zeros((55 - |msg|) % BLOCK)) + Zeros(4) + ToBigEndian(8 * |msg| % TWO32, 4)
  {
    SameZeros(|msg|);
    hide ToBigEndian, Zeros;
    SourceZeros(msg, (55 - |msg|) % BLOCK);
  }

  lemma ZerosAdd(z: nat)
    ensures Zeros(z + 4) == Zeros(z) + Zeros(4)
  {
  }

  lemma Regroup(a: seq<byte>, b: seq<byte>, c: seq<byte>)
    ensures a + (b + c) == a + b + c
  {
  }

  lemma Middle(a: seq<byte>, b: seq<byte>, c: seq<byte>, d: seq<byte>)
    requires |b| == |c|
    ensures a + b + d == a + c + d <==> b == c
  {
    if a + b + d == a + c + d {
      assert b == (a + b + d)[|a|..|a| + |b|];
      assert c == (a + c + d)[|a|..|a| + |c|];
    }
  }

  //
  // The block driver
  //

  method ClearW(w: array<word>)
    requires w.Length == 80
    modifies w
    ensures w[..16] == BlockWords(Zeros(BLOCK))
  {
    for pos := 0 to 16
      invariant forall i :: 0 <= i < pos ==> w[i] == 0
    {
      w[pos] := 0;
    }
  }

  method LoadBlock(src: seq<byte>, currentBlock: nat, w: array<word>)
    requires w.Length == 80 && currentBlock + BLOCK <= |src|
    modifies w
    ensures w[..16] == BlockWords(src[currentBlock..currentBlock + BLOCK])
  {
    ghost var block := src[currentBlock..currentBlock + BLOCK];
    var roundPos := 0;
    while roundPos < 16
      invariant roundPos <= 16
      invariant forall i :: 0 <= i < roundPos ==> w[i] == WordAt(block, 4 * i)
    {
      var at := currentBlock + 4 * roundPos;
      w[roundPos] := src[at + 3] + src[at + 2] as nat * 0x100 + src[at + 1] as nat * 0x1_0000
        + src[at] as nat * 0x100_0000;
      roundPos := roundPos + 1;
    }
  }

  /** What a byte adds to the word it is in. */
  lemma PutWord(x: seq<byte>, i: nat, b: byte)
    requires |x| == BLOCK && i < BLOCK && x[i] == 0
    ensures BlockWords(x)[i / 4] + b * Pow256(3 - i % 4) < TWO32
    ensures BlockWords(x[i := b]) == BlockWords(x)[i / 4 := BlockWords(x)[i / 4] + b * Pow256(3 - i % 4)]
  {
    var y, j := x[i := b], i / 4;
    assert Pow256(0) == 1 && Pow256(1) == 0x100 && Pow256(2) == 0x1_0000 && Pow256(3) == 0x100_0000;
    assert WordAt(y, 4 * j) == WordAt(x, 4 * j) + b * Pow256(3 - i % 4);
    forall k | 0 <= k < 16 && k != j ensures WordAt(y, 4 * k) == WordAt(x, 4 * k) {
    }
  }

  method PutByte(w: array<word>, i: nat, b: byte, ghost x: seq<byte>)
    requires w.Length == 80 && |x| == BLOCK && i < BLOCK && x[i] == 0
    requires w[..16] == BlockWords(x)
    modifies w
    ensures w[..16] == BlockWords(x[i := b])
  {
    PutWord(x, i, b);
    assert w[i / 4] == w[..16][i / 4];
    w[i / 4] := w[i / 4] + b * Pow256(3 - i % 4);
  }

  /** The length, in the last word of a block that is zero there. */
  lemma LengthWord(x: seq<byte>, n: word)
    requires |x| == 60
    ensures BlockWords(x + ToBigEndian(n, 4)) == BlockWords(x + Zeros(4))[15 := n]
  {
    var y := x + ToBigEndian(n, 4);
    FourOctets();
    BigEndianRoundTrip(n, 4);
    FourBigEndian(y[60..]);
    forall k | 0 <= k < 15 ensures WordAt(y, 4 * k) == WordAt(x + Zeros(4), 4 * k) {
    }
  }

  lemma FourBigEndian(b: seq<byte>)
    requires |b| == 4
    ensures BigEndian(b) == WordAt(b, 0)
  {
    assert b[..3][..2] == b[..2] && b[..2][..1] == b[..1] && b[..1][..0] == [];
    assert BigEndian(b[..1]) == b[0];
    assert BigEndian(b[..2]) == b[0] as nat * 256 + b[1];
    assert BigEndian(b[..3]) == BigEndian(b[..2]) * 256 + b[2];
  }

  /** What is left after the whole blocks, up to the one bit. */
  function Rest(src: seq<byte>, currentBlock: nat): (t: seq<byte>)
    requires currentBlock <= |src| < currentBlock + BLOCK
    ensures |t| <= BLOCK
  {
    src[currentBlock..] + [0x80]
  }

  lemma FoldOne(h: Hash, block: seq<byte>)
    requires |block| == BLOCK
    ensures Fold(h, block) == Compress(h, BlockWords(block))
  {
    assert block[..BLOCK] == block && block[BLOCK..] == [];
    hide Compress, BlockWords;
  }

  /** The end of the padded message: one block if the rest leaves room for the length, else two. */
  lemma FoldLast(h: Hash, src: seq<byte>, currentBlock: nat)
    requires currentBlock <= |src| < currentBlock + BLOCK && currentBlock % BLOCK == 0
    ensures var n: word := 8 * |src| % TWO32;
      var t := Rest(src, currentBlock);
      var first := BlockWords(t + Zeros(BLOCK - |t|));
      Fold(h, SourcePadded(src)[currentBlock..]) ==
        if |t| <= 56 then Compress(h, first[15 := n])
        else Compress(Compress(h, first), BlockWords(Zeros(BLOCK))[15 := n])
  {
    var n: word := 8 * |src| % TWO32;
    var t, p := Rest(src, currentBlock), SourcePadded(src)[currentBlock..];
    var r := |src| % BLOCK;
    assert r == |t| - 1 by { Remainder(|src|, currentBlock, |t| - 1); }
    var length := ToBigEndian(n, 4);
    hide ToBigEndian, Zeros, BlockWords, Compress;
    if |t| <= 56 {
      var x := t + Zeros(60 - |t|);
      assert p == x + length;
      assert x + Zeros(4) == t + Zeros(BLOCK - |t|);
      LengthWord(x, n);
      FoldOne(h, p);
    } else {
      assert p[..BLOCK] == t + Zeros(BLOCK - |t|);
      assert p[BLOCK..] == Zeros(60) + length;
      assert Zeros(60) + Zeros(4) == Zeros(BLOCK);
      LengthWord(Zeros(60), n);
      FoldOne(Compress(h, BlockWords(p[..BLOCK])), p[BLOCK..]);
    }
  }

  lemma Remainder(n: nat, q: nat, r: nat)
    requires n == q + r && q % BLOCK == 0 && r < BLOCK
    ensures n % BLOCK == r
  {
  }

  function HashBytes(h: Hash): seq<byte> {
    ToBigEndian(h[0], 4) + ToBigEndian(h[1], 4) + ToBigEndian(h[2], 4) + ToBigEndian(h[3], 4) + ToBigEndian(h[4], 4)
  }

  /** Fills the round buffer with the rest of the message and the one bit. */
  method LoadRest(src: seq<byte>, currentBlock: nat, w: array<word>) returns (lastBlockBytes: nat)
    requires w.Length == 80 && currentBlock <= |src| < currentBlock + BLOCK
    modifies w
    ensures lastBlockBytes == |src| - currentBlock
    ensures var t := Rest(src, currentBlock); w[..16] == BlockWords(t + Zeros(BLOCK - |t|))
  {
    hide BlockWords;
    ClearW(w);
    lastBlockBytes := 0;
    ghost var x := Zeros(BLOCK);
    while lastBlockBytes < |src| - currentBlock
      invariant lastBlockBytes <= |src| - currentBlock
      invariant x == src[currentBlock..currentBlock + lastBlockBytes] + Zeros(BLOCK - lastBlockBytes)
      invariant w[..16] == BlockWords(x)
    {
      PutByte(w, lastBlockBytes, src[currentBlock + lastBlockBytes], x);
      x := x[lastBlockBytes := src[currentBlock + lastBlockBytes]];
      lastBlockBytes := lastBlockBytes + 1;
    }
    PutByte(w, lastBlockBytes, 0x80, x);
    assert x[lastBlockBytes := 0x80] == Rest(src, currentBlock) + Zeros(BLOCK - lastBlockBytes - 1);
  }

  lemma FoldBlock(h: Hash, src: seq<byte>, p: seq<byte>, i: nat)
    requires src <= p && i + BLOCK <= |src|
    ensures Fold(h, p[i..]) == Fold(Compress(h, BlockWords(src[i..i + BLOCK])), p[i + BLOCK..])
  {
    assert p[i..][..BLOCK] == src[i..i + BLOCK];
    assert p[i..][BLOCK..] == p[i + BLOCK..];
    hide BlockWords, Compress;
  }

  /** Every whole block of the message; `p` is the message padded. */
  method FullBlocks(src: seq<byte>, result: array<word>, w: array<word>, ghost p: seq<byte>) returns (currentBlock: nat)
    requires result.Length == 5 && w.Length == 80 && result != w && src <= p
    modifies result, w
    ensures currentBlock <= |src| < currentBlock + BLOCK && currentBlock % BLOCK == 0
    ensures Fold(result[..], p[currentBlock..]) == Fold(old(result[..]), p)
  {
    hide BlockWords, Compress, Fold;
    currentBlock := 0;
    assert p[0..] == p;
    if |src| >= BLOCK {
      var endOfFullBlocks := |src| - BLOCK;
      while currentBlock <= endOfFullBlocks
        invariant currentBlock <= |src| && currentBlock % BLOCK == 0
        invariant Fold(result[..], p[currentBlock..]) == Fold(old(result[..]), p)
      {
        FoldBlock(result[..], src, p, currentBlock);
        LoadBlock(src, currentBlock, w);
        currentBlock := currentBlock + BLOCK;
        InnerHash(result, w);
      }
    }
  }

  /** The hash value, high-order byte of each word first. */
  method WriteHash(result: array<word>, hash: array<byte>)
    requires result.Length == 5 && hash.Length >= 20
    modifies hash
    ensures hash[..20] == HashBytes(result[..])
  {
    var hashByte := 20;
    while hashByte > 0
      invariant 0 <= hashByte <= 20
      invariant hash[hashByte..20] == HashBytes(result[..])[hashByte..]
    {
      hashByte := hashByte - 1;
      HashByte(result[..], hashByte);
      hash[hashByte] := result[hashByte / 4] / Pow256(3 - hashByte % 4) % 256;
    }
  }

  lemma HashByte(h: Hash, i: nat)
    requires i < 20
    ensures |HashBytes(h)| == 20 && HashBytes(h)[i] == h[i / 4] / Pow256(3 - i % 4) % 256
  {
    assert HashBytes(h)[i] == ToBigEndian(h[i / 4], 4)[i % 4];
    OctetAt(h[i / 4], 4, i % 4);
  }

  lemma {:induction false} OctetAt(n: nat, k: nat, i: nat)
    requires i < k
    ensures ToBigEndian(n, k)[i] == n / Pow256(k - 1 - i) % 256
  {
    if i < k - 1 {
      OctetAt(n / 256, k - 1, i);
      DivDiv(n, Pow256(k - 2 - i));
    }
  }

  lemma DivDiv(n: nat, p: nat)
    requires p > 0
    ensures n / 256 / p == n / (256 * p)
  {
    var m := n / 256;
    RemainderRoom(m % p, p, n % 256);
    MulSwap(256, p, m / p);
    DivMod(n, 256 * p, m / p, 256 * (m % p) + n % 256);
  }

  lemma RemainderRoom(r: nat, p: nat, low: nat)
    requires r < p && low < 256
    ensures 256 * r + low < 256 * p
  {
  }

  lemma PaddedStarts(msg: seq<byte>)
    ensures msg <= SourcePadded(msg)
  {
  }

  method Calc(src: seq<byte>, hash: array<byte>)
    requires hash.Length >= 20
    modifies hash
    ensures hash[..20] == HashBytes(Fold(INIT, SourcePadded(src)))
  {
    hide Fold, SourcePadded, BlockWords, Compress, HashBytes;
    var result := new word[5][0x67452301, 0xefcdab89, 0x98badcfe, 0x10325476, 0xc3d2e1f0];
    assert result[..] == INIT;
    var w := new word[80];
    PaddedStarts(src);
    var currentBlock := FullBlocks(src, result, w, SourcePadded(src));
    FoldLast(result[..], src, currentBlock);
    var endCurrentBlock := LoadRest(src, currentBlock, w);
    if endCurrentBlock >= 56 {
      InnerHash(result, w);
      ClearW(w);
    }
    ghost var words := w[..16];
    var length: word := 8 * |src| % TWO32;
    w[15] := length;
    assert w[..16] == words[15 := length];
    InnerHash(result, w);
    WriteHash(result, hash);
  }

  /**
   For messages shorter than 2^29 bytes this is the hash value of the standard; for all others some other message is
   hashed.
   */
  lemma CalcIsStandard(msg: seq<byte>)
    requires |msg| < 0x2000_0000
    ensures HashBytes(Fold(INIT, SourcePadded(msg))) == HashBytes(Fold(INIT, Padded(msg))) && |Padded(msg)| % BLOCK == 0
  {
    PaddedIff(msg);
    WholeBlocks(|msg|);
  }

  lemma WholeBlocks(n: nat)
    ensures (n + 1 + (55 - n) % BLOCK + 8) % BLOCK == 0
  {
  }
}
