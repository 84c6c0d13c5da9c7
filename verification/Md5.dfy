/**
 The streaming half of MD5 (md5.hpp, sections 3.1 and 3.2 of RFC 1321). The compression of one block is a parameter.
 */
module Md5 {
  import opened Bytes

  const BLOCK := 64
  const TWO61 := 0x2000_0000_0000_0000
  const TWO64 := 0x1_0000_0000_0000_0000

  type Digest = d: seq<word> | |d| == 4 witness [0, 0, 0, 0]

  type Compression = (Digest, seq<byte>) -> Digest

  const INIT: Digest := [0x67452301, 0xefcdab89, 0x98badcfe, 0x10325476]

  /** The initial words of section 3.3 of RFC 1321, given there octet by octet from the low end. */
  lemma InitialWords()
    ensures INIT[0] == Word([0x01, 0x23, 0x45, 0x67]) && INIT[1] == Word([0x89, 0xAB, 0xCD, 0xEF])
    ensures INIT[2] == Word([0xFE, 0xDC, 0xBA, 0x98]) && INIT[3] == Word([0x76, 0x54, 0x32, 0x10])
  {
    WordOfFour(0x01, 0x23, 0x45, 0x67);
    WordOfFour(0x89, 0xAB, 0xCD, 0xEF);
    WordOfFour(0xFE, 0xDC, 0xBA, 0x98);
    WordOfFour(0x76, 0x54, 0x32, 0x10);
    hide Word;
  }

  /** All whole blocks of a message, one after the other. */
  function Compress(process: Compression, d: Digest, msg: seq<byte>): Digest
    decreases |msg|
  {
    if |msg| < BLOCK then d else Compress(process, process(d, msg[..BLOCK]), msg[BLOCK..])
  }

  /** What is left after them. */
  function Tail(msg: seq<byte>): (t: seq<byte>)
    ensures |t| == |msg| % BLOCK
    decreases |msg|
  {
    if |msg| < BLOCK then msg else Tail(msg[BLOCK..])
  }

  /** The part of the state that matters: bits counted, digest words, and the partial block. */
  datatype State = State(bits: nat, digest: Digest, partial: seq<byte>) {
    predicate Valid() {
      bits < TWO64 && bits % 8 == 0 && |partial| == bits / 8 % BLOCK
    }
  }

  const FRESH := State(0, INIT, [])

  /** The bit count after `n` more bytes. */
  function CountBits(bits: nat, n: nat): nat {
    (bits + 8 * n) % TWO64
  }

  function Appended(process: Compression, s: State, data: seq<byte>): State {
    State(CountBits(s.bits, |data|), Compress(process, s.digest, s.partial + data), Tail(s.partial + data))
  }

  function AppendAll(process: Compression, s: State, pieces: seq<seq<byte>>): State
    decreases pieces
  {
    if pieces == [] then s else AppendAll(process, Appended(process, s, pieces[0]), pieces[1..])
  }

  //
  // Pieces
  //

  lemma {:induction false} CompressConcat(process: Compression, d: Digest, a: seq<byte>, b: seq<byte>)
    ensures Compress(process, d, a + b) == Compress(process, Compress(process, d, a), Tail(a) + b)
    ensures Tail(a + b) == Tail(Tail(a) + b)
    decreases |a|
  {
    if |a| >= BLOCK {
      assert (a + b)[..BLOCK] == a[..BLOCK] && (a + b)[BLOCK..] == a[BLOCK..] + b;
      CompressConcat(process, process(d, a[..BLOCK]), a[BLOCK..], b);
    }
  }

  lemma AppendedConcat(process: Compression, s: State, a: seq<byte>, b: seq<byte>)
    ensures Appended(process, Appended(process, s, a), b) == Appended(process, s, a + b)
  {
    assert s.partial + (a + b) == (s.partial + a) + b;
    CompressConcat(process, s.digest, s.partial + a, b);
    ModAdd(s.bits + 8 * |a|, 8 * |b|);
  }

  lemma ModAdd(a: nat, b: nat)
    ensures (a % TWO64 + b) % TWO64 == (a + b) % TWO64
  {
  }

  /** Appending a message in pieces leaves the same live state as appending it whole, however it is cut. */
  lemma {:induction false} AppendPieces(process: Compression, s: State, pieces: seq<seq<byte>>)
    requires s.Valid()
    ensures AppendAll(process, s, pieces) == Appended(process, s, Flatten(pieces))
    decreases pieces
  {
    if pieces == [] {
      assert s.partial + [] == s.partial;
    } else {
      AppendedValid(process, s, pieces[0]);
      AppendPieces(process, Appended(process, s, pieces[0]), pieces[1..]);
      AppendedConcat(process, s, pieces[0], Flatten(pieces[1..]));
    }
  }

  lemma AppendedNothing(process: Compression, s: State)
    requires s.Valid()
    ensures Appended(process, s, []) == s
  {
  }

  lemma AppendedValid(process: Compression, s: State, data: seq<byte>)
    requires s.Valid()
    ensures Appended(process, s, data).Valid()
  {
    BitsOffset(s.bits, |s.partial|, |data|);
  }

  /** The bit count, wrapped to 64 bits, still tells how full the buffer is. */
  lemma BitsOffset(bits: nat, partial: nat, n: nat)
    requires bits < TWO64 && bits % 8 == 0 && partial == bits / 8 % BLOCK
    ensures var r := (bits + 8 * n) % TWO64; r % 8 == 0 && r / 8 % BLOCK == (partial + n) % BLOCK
  {
    var total := bits / 8 + n;
    var q, t := total / TWO61, total % TWO61;
    assert bits + 8 * n == q * TWO64 + 8 * t;
    DivMod(bits + 8 * n, TWO64, q, 8 * t);
    assert total == BLOCK * (q * (TWO61 / BLOCK)) + t;
    SameRemainder(total, t, q * (TWO61 / BLOCK));
    SameRemainder(total, partial + n, bits / 8 / BLOCK);
  }

  lemma SameRemainder(a: nat, b: nat, k: nat)
    requires a == BLOCK * k + b
    ensures a % BLOCK == b % BLOCK
  {
  }

  //
  // Finishing
  //

  /** What is appended to a message of `n` bytes before its length. */
  function Padding(n: nat): seq<byte> {
    [0x80] + Zeros((55 - n) % BLOCK)
  }

  /** Section 3.1 of RFC 1321: a one bit, and then no more zero bits than make the length 448 modulo 512 bits. */
  lemma PaddingIsShortest(n: nat)
    ensures (n + |Padding(n)|) % BLOCK == 56
    ensures 1 <= |Padding(n)| <= BLOCK && Padding(n)[0] == 0x80
    ensures forall i :: 1 <= i < |Padding(n)| ==> Padding(n)[i] == 0
  {
  }

  lemma PaddingPeriod(a: nat, b: nat)
    requires a % BLOCK == b % BLOCK
    ensures Padding(a) == Padding(b)
  {
    var k := a / BLOCK - b / BLOCK;
    assert 55 - a == 55 - b - BLOCK * k;
    Euclid(55 - b, k);
  }

  lemma Euclid(x: int, k: int)
    ensures (x - BLOCK * k) % BLOCK == x % BLOCK
  {
  }

  /** The padded message: sections 3.1 and 3.2. */
  function Padded(msg: seq<byte>): seq<byte> {
    msg + Padding(|msg|) + Octets(8 * |msg| % TWO64, 8)
  }

  function Finished(process: Compression, s: State): State {
    Appended(process, Appended(process, s, Padding(s.bits / 8)), Octets(s.bits, 8))
  }

  /** Finishing compresses exactly the blocks of the padded message, and leaves none over. */
  lemma FinishHashes(process: Compression, msg: seq<byte>)
    ensures var r := Finished(process, Appended(process, FRESH, msg));
      r.digest == Compress(process, INIT, Padded(msg)) && r.partial == [] && |Padded(msg)| % BLOCK == 0
  {
    var s := Appended(process, FRESH, msg);
    AppendedValid(process, FRESH, msg);
    FreshLength(process, msg);
    FreshBits(|msg|);
    PaddingIsShortest(|msg|);
    PaddingPeriod(s.bits / 8, |msg|);
    var pad, len := Padding(|msg|), Octets(s.bits, 8);
    hide Compress, Tail, Octets, Padding, CountBits, Appended;
    AppendedConcat(process, s, pad, len);
    AppendedConcat(process, FRESH, msg, pad + len);
    assert msg + (pad + len) == Padded(msg) && [] + Padded(msg) == Padded(msg);
    LastBlock(|msg| + |pad|);
  }

  lemma FreshLength(process: Compression, msg: seq<byte>)
    ensures var s := Appended(process, FRESH, msg);
      s.bits == CountBits(0, |msg|) && s.digest == Compress(process, INIT, msg)
  {
    assert [] + msg == msg;
    hide CountBits, Compress, Tail;
  }

  lemma FreshBits(n: nat)
    ensures CountBits(0, n) == 8 * n % TWO64
    ensures CountBits(0, n) / 8 % BLOCK == n % BLOCK
  {
    BitsOffset(0, 0, n);
  }

  lemma LastBlock(n: nat)
    requires n % BLOCK == 56
    ensures (n + 8) % BLOCK == 0
  {
  }

  lemma CountAdds(c0: word, c1: word, n: nat)
    ensures
      var nbits := 8 * n % TWO32;
      var s0, s1 := Add(c0, nbits), Add(c1, n / 0x2000_0000);
      s0 + TWO32 * (if s0 < nbits then Add(s1, 1) else s1) == (c0 + TWO32 * c1 + 8 * n) % TWO64
  {
    var q, r := n / 0x2000_0000, n % 0x2000_0000;
    DivMod(8 * n, TWO32, q, 8 * r);
    var nbits := 8 * r;
    var s0 := (c0 + nbits) % TWO32;
    var carry := if c0 + nbits < TWO32 then 0 else 1;
    assert c0 + nbits == TWO32 * carry + s0;
    assert s0 < nbits <==> carry == 1;
    var high := c1 + q + carry;
    var k, low := high / TWO32, high % TWO32;
    DivMod(c0 + TWO32 * c1 + 8 * n, TWO64, k, s0 + TWO32 * low);
    AddAssoc(c1 + q, carry);
  }

  lemma BitsKeep(c0: word, n: nat)
    requires c0 % 8 == 0
    ensures Add(c0, 8 * n % TWO32) % 8 == 0
  {
    var q, r := n / 0x2000_0000, n % 0x2000_0000;
    DivMod(8 * n, TWO32, q, 8 * r);
    var total := c0 / 8 + r;
    DivMod(8 * total, TWO32, total / 0x2000_0000, 8 * (total % 0x2000_0000));
  }

  lemma AddAssoc(a: nat, b: nat)
    ensures (a % TWO32 + b) % TWO32 == (a + b) % TWO32
  {
  }

  lemma CountOctets(c0: word, c1: word)
    ensures Octets(c0, 4) + Octets(c1, 4) == Octets(c0 + TWO32 * c1, 8)
  {
    FourOctets();
    OctetsConcat(c0, 4, c1, 4);
  }

  lemma Offset(c0: word, c1: word)
    requires c0 % 8 == 0
    ensures (c0 + TWO32 * c1) / 8 % BLOCK == c0 / 8 % BLOCK && (c0 + TWO32 * c1) % 8 == 0
  {
    var t := c0 / 8;
    DivMod(c0 + TWO32 * c1, 8, t + 0x2000_0000 * c1, 0);
    SameRemainder(t + 0x2000_0000 * c1, t, 0x80_0000 * c1);
  }

  //
  // The state in memory
  //

  class Md5State {
    const process: Compression
    const buf: array<byte>
    var count0: word
    var count1: word
    var abcd: Digest

    ghost predicate Valid()
      reads this
    {
      buf.Length == BLOCK && count0 % 8 == 0
    }

    ghost function Abs(): State
      requires Valid()
      reads this, buf
    {
      State(count0 + TWO32 * count1, abcd, buf[..count0 / 8 % BLOCK])
    }

    constructor (process: Compression)
      ensures Valid() && fresh(buf) && this.process == process && Abs() == FRESH
    {
      this.process := process;
      buf := new byte[BLOCK];
      count0, count1 := 0, 0;
      abcd := [0x67452301, 0xFFFFFFFF - 0x10325476, 0xFFFFFFFF - 0x67452301, 0x10325476];
    }

    /** Adds to the 64-bit count, kept in two words. */
    method AddBits(nbytes: nat)
      requires Valid()
      modifies this`count0, this`count1
      ensures Valid()
      ensures count0 + TWO32 * count1 == (old(count0) + TWO32 * old(count1) + 8 * nbytes) % TWO64
    {
      CountAdds(count0, count1, nbytes);
      BitsKeep(count0, nbytes);
      hide Add;
      var nbits: word := 8 * nbytes % TWO32;
      count1 := Add(count1, nbytes / 0x2000_0000);
      count0 := Add(count0, nbits);
      if count0 < nbits {
        count1 := Add(count1, 1);
      }
    }

    method CopyIn(offset: nat, data: seq<byte>)
      requires offset + |data| <= buf.Length
      modifies buf
      ensures buf[..] == old(buf[..offset]) + data + old(buf[offset + |data|..])
    {
      forall i | 0 <= i < |data| {
        buf[offset + i] := data[i];
      }
    }

    /** Compresses every whole block of `data` from `start` on, and keeps the rest. */
    method Blocks(data: seq<byte>, start: nat)
      requires buf.Length == BLOCK && start <= |data|
      modifies this`abcd, buf
      ensures abcd == Compress(process, old(abcd), data[start..])
      ensures buf[..|data[start..]| % BLOCK] == Tail(data[start..])
    {
      var p := start;
      while |data| - p >= BLOCK
        invariant start <= p <= |data|
        invariant Compress(process, abcd, data[p..]) == Compress(process, old(abcd), data[start..])
        invariant Tail(data[p..]) == Tail(data[start..])
      {
        assert data[p..][..BLOCK] == data[p..p + BLOCK] && data[p..][BLOCK..] == data[p + BLOCK..];
        abcd := process(abcd, data[p..p + BLOCK]);
        p := p + BLOCK;
      }
      if p < |data| {
        CopyIn(0, data[p..]);
      }
      assert buf[..|data| - p] == data[p..];
    }

    /** Completes the partial block in the buffer first. */
    method Feed(offset: nat, data: seq<byte>)
      requires buf.Length == BLOCK && offset < BLOCK
      modifies this`abcd, buf
      ensures abcd == Compress(process, old(abcd), old(buf[..offset]) + data)
      ensures buf[..(offset + |data|) % BLOCK] == Tail(old(buf[..offset]) + data)
    {
      ghost var all := buf[..offset] + data;
      var p := 0;
      if offset != 0 {
        var copy := if offset + |data| > BLOCK then BLOCK - offset else |data|;
        CopyIn(offset, data[..copy]);
        assert buf[..offset + copy] == all[..offset + copy];
        if offset + copy < BLOCK { return; }
        p := copy;
        assert all[..BLOCK] == buf[..] && all[BLOCK..] == data[p..];
        abcd := process(abcd, buf[..]);
      } else {
        assert all == data[p..];
      }
      Blocks(data, p);
    }

    method Append(data: seq<byte>)
      requires Valid() && BLOCK + |data| <= TWO64
      modifies this`count0, this`count1, this`abcd, buf
      ensures Valid() && Abs() == Appended(process, old(Abs()), data)
    {
      Offset(count0, count1);
      AppendedValid(process, Abs(), data);
      AppendedNothing(process, Abs());
      hide Compress, Tail;
      if |data| == 0 { return; }
      var offset := count0 / 8 % BLOCK;
      AddBits(|data|);
      Offset(count0, count1);
      Feed(offset, data);
    }

    /** The digest, low-order byte of each word first. */
    method Finish() returns (digest: seq<byte>)
      requires Valid()
      modifies this`count0, this`count1, this`abcd, buf
      ensures Valid() && Abs() == Finished(process, old(Abs()))
      ensures |digest| == 16 && forall j :: 0 <= j < 4 ==> Word(digest[4 * j..4 * j + 4]) == Abs().digest[j]
    {
      hide Compress, Tail, Octets, Padding, Appended, Word;
      var data := Octets(count0, 4) + Octets(count1, 4);
      CountOctets(count0, count1);
      Offset(count0, count1);
      PaddingPeriod(Abs().bits / 8, count0 / 8);
      PaddingIsShortest(count0 / 8);
      Append(Padding(count0 / 8));
      Append(data);
      digest := Octets(abcd[0], 4) + Octets(abcd[1], 4) + Octets(abcd[2], 4) + Octets(abcd[3], 4);
      FourOctets();
      forall j | 0 <= j < 4 ensures Word(digest[4 * j..4 * j + 4]) == abcd[j] {
        assert digest[4 * j..4 * j + 4] == Octets(abcd[j], 4);
        WordOfOctets(abcd[j], 4);
      }
    }
  }
}
