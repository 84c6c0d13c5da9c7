/**
 Payload masking (frame.hpp). The word-at-a-time routines run on 64-bit little-endian machine words; the
 reference they are proved against is the byte-at-a-time rule of section 5.3 of RFC 6455: octet i of the
 payload is XORed with octet i modulo 4 of the key.
 */
module Masking {
  import opened Bytes

  /** A four-octet masking key, in wire order (the `c` view of `uint32_converter`). */
  type Key = k: seq<byte> | |k| == 4 witness [0, 0, 0, 0]

  //
  // The reference definition
  //

  /** Section 5.3 of RFC 6455, starting at octet `offset` of the payload. */
  function Mask(data: seq<byte>, key: Key, offset: nat := 0): (r: seq<byte>)
    ensures |r| == |data|
  {
    seq(|data|, i requires 0 <= i < |data| => Xor(data[i], key[(offset + i) % 4]))
  }

  /** The key as seen from `n` octets further into the payload. */
  function Rotate(key: Key, n: nat): Key {
    key[n % 4..] + key[..n % 4]
  }

  lemma MaskInvolution(data: seq<byte>, key: Key, offset: nat)
    ensures Mask(Mask(data, key, offset), key, offset) == data
  {
    hide Xor;
    forall i | 0 <= i < |data| ensures Mask(Mask(data, key, offset), key, offset)[i] == data[i] {
      XorTwice(data[i], key[(offset + i) % 4]);
    }
  }

  lemma ModAdd(m: nat, n: nat)
    ensures (m % 4 + n % 4) % 4 == (m + n) % 4
  {}

  lemma RotateAt(key: Key, n: nat, i: nat)
    ensures Rotate(key, n)[i % 4] == key[(n + i) % 4]
  {
  }

  lemma RotateRotate(key: Key, m: nat, n: nat)
    ensures Rotate(Rotate(key, m), n) == Rotate(key, m + n)
  {
    hide Rotate;
    forall i | 0 <= i < 4 ensures Rotate(Rotate(key, m), n)[i] == Rotate(key, m + n)[i] {
      RotateAt(Rotate(key, m), n, i);
      RotateAt(key, m, n + i);
      RotateAt(key, m + n, i);
    }
  }

  lemma RotateWhole(key: Key, i: nat)
    ensures Rotate(key, 4 * i) == key
  {}

  lemma MaskOffset(data: seq<byte>, key: Key, offset: nat)
    ensures Mask(data, key, offset) == Mask(data, Rotate(key, offset))
  {
    hide Xor, Rotate;
    forall i | 0 <= i < |data| ensures key[(offset + i) % 4] == Rotate(key, offset)[i % 4] {
      RotateAt(key, offset, i);
    }
  }

  lemma MaskConcat(a: seq<byte>, b: seq<byte>, key: Key)
    ensures Mask(a + b, key) == Mask(a, key) + Mask(b, Rotate(key, |a|))
  {
    hide Xor, Rotate;
    MaskOffset(b, key, |a|);
  }

  //
  // Machine words
  //

  /** The `i` field of a `uint32_converter` whose `c` field holds the key. */
  function KeyWord(key: Key): nat {
    Word(key)
  }

  /** `high << 32 | low` with both halves equal to `i`. */
  function PrepareMaskingKey(i: nat): nat {
    i * 0x1_0000_0000 + i
  }

  /** A prepared key holds the masking key twice over. */
  function Prepared(key: Key): nat {
    Word(key + key)
  }

  lemma PrepareMaskingKeyRepeats(key: Key)
    ensures PrepareMaskingKey(KeyWord(key)) == Prepared(key)
  {
    WordConcat(key, key);
  }

  lemma PreparedOctets(key: Key)
    ensures Octets(Prepared(key), 8) == key + key
    ensures Octets(Prepared(key) % 0x1_0000_0000, 4) == key
  {
    hide Word, Octets;
    OctetsOfWord(key + key);
    OctetsOfWord(key);
    WordConcat(key, key);
    WordBound(key);
    assert Pow256(4) == 0x1_0000_0000;
  }

  /** Rotates a 64-bit word right by `offset` octets; the two shifted parts share no bits, so `|` is a sum. */
  function CircshiftPreparedKey(w: nat, offset: nat): nat
    requires offset < 8
  {
    w / Pow256(offset) + w * Pow256(8 - offset) % Pow256(8)
  }

  /** Shifting a word circularly by whole octets rotates its octets. */
  lemma CircshiftRotates(b: seq<byte>, offset: nat)
    requires |b| == 8 && offset < 8
    ensures CircshiftPreparedKey(Word(b), offset) == Word(b[offset..] + b[..offset])
  {
    hide Word, Pow256;
    var lo, hi := b[..offset], b[offset..];
    assert b == lo + hi;
    WordConcat(lo, hi);
    WordConcat(hi, lo);
    WordBound(lo);
    PowSum(offset, 8 - offset);
    ShiftParts(Word(lo), Word(hi), Pow256(offset), Pow256(8 - offset));
  }

  lemma ShiftParts(lo: nat, hi: nat, p: nat, q: nat)
    requires lo < p && q > 0
    ensures p * q > 0
    ensures (lo + p * hi) / p == hi
    ensures (lo + p * hi) * q % (p * q) == q * lo
  {
    DivMod(lo + p * hi, p, hi, lo);
    MulLess(lo, p, q);
    MulSwap(p, hi, q);
    DivMod((lo + p * hi) * q, p * q, hi, lo * q);
  }

  lemma TwiceRotated(key: Key, o: nat)
    requires o < 8
    ensures (key + key)[o..] + (key + key)[..o] == Rotate(key, o) + Rotate(key, o)
  {
  }

  /** So the prepared key a streaming routine returns is the prepared form of the rotated key. */
  lemma CircshiftIsRotate(key: Key, n: nat)
    ensures CircshiftPreparedKey(Prepared(key), n % 8) == Prepared(Rotate(key, n))
    ensures CircshiftPreparedKey(Prepared(key), n % 4) == Prepared(Rotate(key, n))
  {
    hide CircshiftPreparedKey, Word;
    CircshiftRotates(key + key, n % 8);
    CircshiftRotates(key + key, n % 4);
    TwiceRotated(key, n % 8);
    TwiceRotated(key, n % 4);
  }

  //
  // The masking routines. Buffers are arrays; `off` is how far the caller has advanced its pointer.
  //

  /** The state of an output buffer once octets `[off .. off + n]` hold masked input. */
  ghost predicate MaskedUpTo(before: seq<byte>, input: seq<byte>, after: seq<byte>, off: nat, n: nat, key: Key)
    requires off + n <= |input| && off + n <= |before| == |after|
  {
    && (forall j :: off <= j < off + n ==> after[j] == Xor(input[j], key[(j - off) % 4]))
    && (forall j :: 0 <= j < |after| && !(off <= j < off + n) ==> after[j] == before[j])
  }

  /** What every routine promises: the range is masked per RFC 6455 and the rest of the buffer is untouched. */
  lemma MaskedRange(before: seq<byte>, input: seq<byte>, after: seq<byte>, off: nat, n: nat, key: Key)
    requires off + n <= |input| && off + n <= |before| == |after|
    requires MaskedUpTo(before, input, after, off, n, key)
    ensures after == before[..off] + Mask(input[off..off + n], key) + before[off + n..]
  {
  }

  lemma TailKey(key: Key, n: nat, i: nat)
    requires i < 8
    ensures (key + key)[i] == Rotate(key, n * 8 + i)[0]
  {}

  lemma MaskedMore(before: seq<byte>, input: seq<byte>, mid: seq<byte>, rest: seq<byte>, after: seq<byte>,
                   off: nat, n: nat, m: nat, key: Key)
    requires off + n + m <= |input| == |rest| && off + n + m <= |before| == |mid| == |after|
    requires MaskedUpTo(before, input, mid, off, n, key)
    requires rest[off + n..] == input[off + n..]
    requires MaskedUpTo(mid, rest, after, off + n, m, Rotate(key, n))
    ensures MaskedUpTo(before, input, after, off, n + m, key)
  {
    hide Xor, Rotate;
    forall j | off + n <= j < off + n + m ensures after[j] == Xor(input[j], key[(j - off) % 4]) {
      RotateAt(key, n, j - off - n);
      assert rest[j] == rest[off + n..][j - off - n];
    }
  }

  lemma WordHead(x: seq<byte>, i: nat)
    requires i < |x|
    ensures Word(x[i..]) % 256 == x[i] && Word(x[i..]) / 256 == Word(x[i + 1..])
  {
    assert x[i..][1..] == x[i + 1..];
    var w := Word(x[i + 1..]);
    assert Word(x[i..]) == x[i] + 256 * w;
    DivMod(Word(x[i..]), 256, w, x[i]);
  }

  /** A masked word, octet by octet. */
  lemma MaskedWord(bytes: seq<byte>, key: Key) returns (x: seq<byte>)
    requires |bytes| == 8
    ensures |x| == 8 && XorWord(Word(bytes), Prepared(key), 8) == Word(x)
    ensures forall j :: 0 <= j < 8 ==> x[j] == Xor(bytes[j], key[j % 4])
  {
    hide Xor, XorWord, Word;
    XorWords(bytes, key + key);
    x := XorAll(bytes, key + key);
  }

  /** One iteration of the word loops: load, XOR, store. */
  method MaskWord(input: array<byte>, output: array<byte>, o: nat, prepared: nat, ghost key: Key)
    requires o + 8 <= input.Length && o + 8 <= output.Length
    requires prepared == Prepared(key)
    modifies output
    ensures MaskedUpTo(old(output[..]), old(input[..]), output[..], o, 8, key)
    ensures input[..][o + 8..] == old(input[..])[o + 8..]
  {
    hide Xor, XorWord, Word, Prepared;
    ghost var bytes := input[o..o + 8];
    var word := XorWord(Word(input[o..o + 8]), prepared, 8);
    ghost var x := MaskedWord(bytes, key);
    assert x[0..] == x;
    for i := 0 to 8
      invariant word == Word(x[i..])
      invariant forall j :: o <= j < o + i ==> output[j] == x[j - o]
      invariant forall j :: 0 <= j < output.Length && !(o <= j < o + i) ==> output[j] == old(output[j])
    {
      WordHead(x, i);
      output[o + i], word := word % 256, word / 256;
    }
  }

  /** The word loops: `n` whole words from `off` on. */
  method MaskWords(input: array<byte>, output: array<byte>, off: nat, n: nat, prepared: nat, ghost key: Key)
    requires off + n * 8 <= input.Length && off + n * 8 <= output.Length
    requires prepared == Prepared(key)
    modifies output
    ensures MaskedUpTo(old(output[..]), old(input[..]), output[..], off, n * 8, key)
    ensures input[..][off + n * 8..] == old(input[..])[off + n * 8..]
  {
    hide Xor, Rotate, Prepared, MaskedUpTo;
    NothingMasked(output[..], input[..], off, key);
    for i := 0 to n
      invariant MaskedUpTo(old(output[..]), old(input[..]), output[..], off, i * 8, key)
      invariant input[..][off + i * 8..] == old(input[..])[off + i * 8..]
    {
      ghost var mid, rest := output[..], input[..];
      RotateWhole(key, 2 * i);
      HoldsMore(old(input[..]), rest, off + i * 8, off + i * 8 + 8);
      MaskWord(input, output, off + i * 8, prepared, key);
      MaskedMore(old(output[..]), old(input[..]), mid, rest, output[..], off, i * 8, 8, key);
    }
  }

  /** One iteration of the byte loops. */
  method MaskByte(input: array<byte>, output: array<byte>, o: nat, k: byte, ghost key: Key)
    requires o < input.Length && o < output.Length
    requires k == key[0]
    modifies output
    ensures MaskedUpTo(old(output[..]), old(input[..]), output[..], o, 1, key)
    ensures input[..][o + 1..] == old(input[..])[o + 1..]
  {
    hide Xor;
    output[o] := Xor(input[o], k);
  }

  /** Streaming masking: the returned key continues where this chunk ended. */
  method WordMaskCirc(input: array<byte>, output: array<byte>, off: nat, length: nat, prepared: nat, ghost key: Key)
    returns (next: nat)
    requires off + length <= input.Length && off + length <= output.Length
    requires prepared == Prepared(key)
    modifies output
    ensures output[..] == old(output[..off]) + Mask(old(input[off..off + length]), key) + old(output[off + length..])
    ensures next == Prepared(Rotate(key, length))
  {
    hide CircshiftPreparedKey, Xor, Rotate, Prepared, MaskedUpTo;
    var n := length / 8;
    var l := length - n * 8;
    MaskWords(input, output, off, n, prepared, key);
    var start := n * 8;
    var byteKey := Octets(prepared, 8);
    PreparedOctets(key);
    for i := 0 to l
      invariant MaskedUpTo(old(output[..]), old(input[..]), output[..], off, start + i, key)
      invariant input[..][off + start + i..] == old(input[..])[off + start + i..]
    {
      ghost var mid, rest := output[..], input[..];
      TailKey(key, n, i);
      HoldsMore(old(input[..]), rest, off + start + i, off + start + i + 1);
      MaskByte(input, output, off + start + i, byteKey[i], Rotate(key, start + i));
      MaskedMore(old(output[..]), old(input[..]), mid, rest, output[..], off, start + i, 1, key);
    }
    MaskedRange(old(output[..]), old(input[..]), output[..], off, length, key);
    CircshiftIsRotate(key, length);
    next := CircshiftPreparedKey(prepared, l);
  }

  /** One-shot masking of a whole message. */
  method WordMaskExact(input: array<byte>, output: array<byte>, length: nat, key: Key)
    requires length <= input.Length && length <= output.Length
    modifies output
    ensures output[..] == Mask(old(input[..length]), key) + old(output[length..])
  {
    hide Xor, Prepared, PrepareMaskingKey, MaskedUpTo, Rotate;
    var prepared := PrepareMaskingKey(KeyWord(key));
    PrepareMaskingKeyRepeats(key);
    var n := length / 8;
    MaskWords(input, output, 0, n, prepared, key);
    for i := n * 8 to length
      invariant MaskedUpTo(old(output[..]), old(input[..]), output[..], 0, i, key)
      invariant input[..][i..] == old(input[..])[i..]
    {
      ghost var mid, rest := output[..], input[..];
      RotateAt(key, i, 0);
      HoldsMore(old(input[..]), rest, i, i + 1);
      MaskByte(input, output, i, key[i % 4], Rotate(key, i));
      MaskedMore(old(output[..]), old(input[..]), mid, rest, output[..], 0, i, 1, key);
    }
    MaskedRange(old(output[..]), old(input[..]), output[..], 0, length, key);
  }

  /** The strict-masking build's streaming routine: only the low half of the prepared key is used. */
  method ByteMaskCirc(input: array<byte>, output: array<byte>, off: nat, length: nat, prepared: nat, ghost key: Key)
    returns (next: nat)
    requires off + length <= input.Length && off + length <= output.Length
    requires prepared == Prepared(key)
    modifies output
    ensures output[..] == old(output[..off]) + Mask(old(input[off..off + length]), key) + old(output[off + length..])
    ensures next == Prepared(Rotate(key, length))
  {
    hide CircshiftPreparedKey, Xor, Rotate, Prepared, MaskedUpTo;
    var c := Octets(prepared % 0x1_0000_0000, 4);
    PreparedOctets(key);
    NothingMasked(output[..], input[..], off, key);
    for i := 0 to length
      invariant MaskedUpTo(old(output[..]), old(input[..]), output[..], off, i, key)
      invariant input[..][off + i..] == old(input[..])[off + i..]
    {
      ghost var mid, rest := output[..], input[..];
      RotateAt(key, i, 0);
      HoldsMore(old(input[..]), rest, off + i, off + i + 1);
      MaskByte(input, output, off + i, c[i % 4], Rotate(key, i));
      MaskedMore(old(output[..]), old(input[..]), mid, rest, output[..], off, i, 1, key);
    }
    MaskedRange(old(output[..]), old(input[..]), output[..], off, length, key);
    CircshiftIsRotate(key, length);
    next := CircshiftPreparedKey(prepared, length % 4);
  }

  /** The slow routine the others are measured against; `result` may be `first` itself. */
  method ByteMask(first: array<byte>, result: array<byte>, length: nat, key: Key, keyOffset: nat)
    requires length <= first.Length && length <= result.Length
    modifies result
    ensures result[..] == Mask(old(first[..length]), key, keyOffset) + old(result[length..])
  {
    hide Xor, MaskedUpTo, Rotate;
    var keyIndex := keyOffset % 4;
    ghost var k := Rotate(key, keyOffset);
    NothingMasked(result[..], first[..], 0, k);
    for i := 0 to length
      invariant keyIndex == (keyOffset + i) % 4
      invariant MaskedUpTo(old(result[..]), old(first[..]), result[..], 0, i, k)
      invariant first[..][i..] == old(first[..])[i..]
    {
      ghost var mid, rest := result[..], first[..];
      RotateRotate(key, keyOffset, i);
      RotateAt(key, keyOffset + i, 0);
      HoldsMore(old(first[..]), rest, i, i + 1);
      MaskByte(first, result, i, key[keyIndex], Rotate(k, i));
      MaskedMore(old(result[..]), old(first[..]), mid, rest, result[..], 0, i, 1, k);
      keyIndex := (keyIndex + 1) % 4;
    }
    MaskedRange(old(result[..]), old(first[..]), result[..], 0, length, k);
    MaskOffset(old(first[..length]), key, keyOffset);
  }

  //
  // Streaming
  //

  /** A chunk list pushed through a streaming routine, threading the returned key. */
  function MaskChunks(chunks: seq<seq<byte>>, key: Key): seq<byte> {
    if chunks == [] then [] else Mask(chunks[0], key) + MaskChunks(chunks[1..], Rotate(key, |chunks[0]|))
  }

  /** However a payload is cut, masking the pieces is masking the whole. */
  lemma {:induction false} MaskChunksIsMask(chunks: seq<seq<byte>>, key: Key)
    ensures MaskChunks(chunks, key) == Mask(Flatten(chunks), key)
  {
    if chunks != [] {
      MaskChunksIsMask(chunks[1..], Rotate(key, |chunks[0]|));
      MaskConcat(chunks[0], Flatten(chunks[1..]), key);
    }
  }

  lemma NothingMasked(buffer: seq<byte>, input: seq<byte>, off: nat, key: Key)
    requires off <= |input| && off <= |buffer|
    ensures MaskedUpTo(buffer, input, buffer, off, 0, key)
  {}

}
