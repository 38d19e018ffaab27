/** The bit reservoir of `tinfl_decompress` (src/external/miniz.h:4183-4312, 4594-4605, 4751-4773): the low
    `numBits` bits of `bitBuf`, followed by the unread bytes, are the unread part of the bit stream. */
module Reservoir {
  import opened Bits
  import opened BitWriting
  import opened LittleEndian

  function Stream(bitBuf: nat, numBits: nat, input: seq<byte>, cur: nat): bits
    requires cur <= |input|
  {
    Enc(bitBuf, numBits) + BytesBits(input[cur..])
  }

  lemma Whole(bitBuf: nat, numBits: nat)
    requires bitBuf < Pow2(numBits)
    ensures Val(Enc(bitBuf, numBits)) == bitBuf
  {
    ValEnc(bitBuf, numBits);
  }

  /** Reading a byte: `bit_buf |= c << num_bits`. */
  lemma LoadByte(bitBuf: nat, numBits: nat, input: seq<byte>, cur: nat)
    requires bitBuf < Pow2(numBits) && cur < |input|
    ensures var b := BitOr(bitBuf, Shl(input[cur], numBits));
      b < Pow2(numBits + 8) && Stream(b, numBits + 8, input, cur + 1) == Stream(bitBuf, numBits, input, cur)
  {
    hide Enc, BitOr, Pow2, Shl;
    assert input[cur] < Pow2(8) by { Pow2Values(); }
    AppendBits(bitBuf, numBits, input[cur], 8);
    TailBytes(input, cur);
    var x, y, z := Enc(bitBuf, numBits), Enc(input[cur], 8), BytesBits(input[cur + 1..]);
    assert (x + y) + z == x + (y + z);
  }

  lemma TailBytes(input: seq<byte>, cur: nat)
    requires cur < |input|
    ensures BytesBits(input[cur..]) == Enc(input[cur], 8) + BytesBits(input[cur + 1..])
  {
    hide Enc;
    assert input[cur..][1..] == input[cur + 1..];
  }

  lemma LowByteFirst(b: byte, rest: nat, n: nat)
    requires rest < Pow2(n)
    ensures Enc(b + 256 * rest, 8 + n) == Enc(b, 8) + Enc(rest, n) && b + 256 * rest < Pow2(8 + n)
  {
    hide Enc, Pow2, Shr;
    var v := b + 256 * rest;
    Pow2Values();
    EncSplit(v, 8, n);
    ShrDiv(v, 8);
    EncMod(v, 8);
    DivModUnique(v, 256, rest, b);
    Pow2Add(8, n);
  }

  lemma Le32Bits(input: seq<byte>, cur: nat)
    requires cur + 4 <= |input|
    ensures Le32(input, cur) < Pow2(32)
    ensures BytesBits(input[cur..]) == Enc(Le32(input, cur), 32) + BytesBits(input[cur + 4..])
  {
    hide Enc, Pow2, BytesBits;
    var b0, b1, b2, b3 := input[cur], input[cur + 1], input[cur + 2], input[cur + 3];
    assert b3 < Pow2(8) by { Pow2Values(); }
    var n: nat := 8;
    LowByteFirst(b2, b3, n);
    LowByteFirst(b1, b2 + 256 * b3 as int, 8 + n);
    LowByteFirst(b0, b1 + 256 * (b2 + 256 * b3 as int), 8 + (8 + n));
    TailBytes(input, cur);
    TailBytes(input, cur + 1);
    TailBytes(input, cur + 2);
    TailBytes(input, cur + 3);
    AssocFour(Enc(b0, 8), Enc(b1, 8), Enc(b2, 8), Enc(b3, 8), BytesBits(input[cur + 4..]));
  }

  lemma AssocFour(a: bits, b: bits, c: bits, d: bits, e: bits)
    ensures a + (b + (c + (d + e))) == a + (b + (c + d)) + e
  {
  }

  /** The fast path's load of four bytes. */
  lemma LoadWord(bitBuf: nat, numBits: nat, input: seq<byte>, cur: nat)
    requires bitBuf < Pow2(numBits) && cur + 4 <= |input|
    ensures var b := BitOr(bitBuf, Shl(Le32(input, cur), numBits));
      b < Pow2(numBits + 32) && Stream(b, numBits + 32, input, cur + 4) == Stream(bitBuf, numBits, input, cur)
  {
    hide Enc, BitOr, Pow2, Shl, Le32, BytesBits;
    Le32Bits(input, cur);
    AppendBits(bitBuf, numBits, Le32(input, cur), 32);
    var x, y, z := Enc(bitBuf, numBits), Enc(Le32(input, cur), 32), BytesBits(input[cur + 4..]);
    assert (x + y) + z == x + (y + z);
  }

  /** Taking `n` bits: `bit_buf & ((1 << n) - 1)`, then `bit_buf >>= n`. */
  lemma DropBits(bitBuf: nat, numBits: nat, n: nat, input: seq<byte>, cur: nat)
    requires bitBuf < Pow2(numBits) && n <= numBits && cur <= |input|
    ensures Shr(bitBuf, n) < Pow2(numBits - n)
    ensures n <= |Stream(bitBuf, numBits, input, cur)|
    ensures bitBuf % Pow2(n) == Val(Stream(bitBuf, numBits, input, cur)[..n])
    ensures Stream(Shr(bitBuf, n), numBits - n, input, cur) == Stream(bitBuf, numBits, input, cur)[n..]
  {
    hide Enc, Pow2, Shr, BytesBits, Val;
    EncSplit(bitBuf, n, numBits - n);
    ShiftFits(bitBuf, numBits, n);
    ValEncMod(bitBuf, n);
    var a, b, c := Enc(bitBuf, n), Enc(Shr(bitBuf, n), numBits - n), BytesBits(input[cur..]);
    var s := Stream(bitBuf, numBits, input, cur);
    assert s == a + (b + c);
    assert s[..n] == a && s[n..] == b + c;
  }

  lemma ShiftFits(v: nat, m: nat, n: nat)
    requires n <= m && v < Pow2(m)
    ensures Shr(v, n) < Pow2(m - n)
  {
    hide Pow2, Shr;
    ShrDiv(v, n);
    Pow2Add(n, m - n);
    var q, r := v / Pow2(n), v % Pow2(n);
    assert v == q * Pow2(n) + r;
    MulComm(Pow2(n), Pow2(m - n));
    if q > Pow2(m - n) {
      MulGap(Pow2(m - n), q, Pow2(n));
    }
  }

  /** Putting the last byte back: it is on top of the reservoir when the stream is a suffix of one that
      begins before that byte. */
  lemma PutBack(bitBuf: nat, numBits: nat, input: seq<byte>, cur: nat, start: bits, read: nat)
    requires numBits >= 8 && 0 < cur <= |input|
    requires read <= |start + BytesBits(input)|
    requires Stream(bitBuf, numBits, input, cur) == (start + BytesBits(input))[read..]
    ensures Stream(bitBuf, numBits - 8, input, cur - 1) == Stream(bitBuf, numBits, input, cur)
  {
    hide Enc, Pow2, BytesBits, Shr;
    var n := numBits - 8;
    var s, c := Stream(bitBuf, numBits, input, cur), BytesBits(input[cur..]);
    var last := BytesBits(input[cur - 1..]);
    TailBytes(input, cur - 1);
    assert |last| == 8 + |c|;
    SuffixBytes(start, input, cur - 1, read, s);
    EncSplit(bitBuf, n, 8);
    assert s == Enc(bitBuf, n) + (Enc(Shr(bitBuf, n), 8) + c);
    assert s[n..] == last;
    assert s == s[..n] + s[n..];
    assert s[..n] == Enc(bitBuf, n);
  }

  /** Suffixes of the stream that are as long as the bytes from `k` on are those bytes. */
  lemma SuffixBytes(start: bits, input: seq<byte>, k: nat, read: nat, s: bits)
    requires k <= |input| && read <= |start + BytesBits(input)| && s == (start + BytesBits(input))[read..]
    requires |s| >= |BytesBits(input[k..])|
    ensures s[|s| - |BytesBits(input[k..])|..] == BytesBits(input[k..])
  {
    hide BytesBits;
    assert input == input[..k] + input[k..];
    BytesBitsConcat(input[..k], input[k..]);
    var a, b := start + BytesBits(input[..k]), BytesBits(input[k..]);
    assert start + BytesBits(input) == a + b;
    assert s == (a + b)[read..];
    assert s[|s| - |b|..] == b;
  }

  /** Masking with `~(~0 << num_bits)` clears what is above the reservoir. */
  lemma MaskTop(bitBuf: nat, numBits: nat, input: seq<byte>, cur: nat)
    requires cur <= |input|
    ensures bitBuf % Pow2(numBits) < Pow2(numBits)
    ensures Stream(bitBuf % Pow2(numBits), numBits, input, cur) == Stream(bitBuf, numBits, input, cur)
  {
    EncMod(bitBuf, numBits);
  }

  /** With at most 61 bits in it the buffer fits a 64-bit word. */
  lemma FitsLongWord(bitBuf: nat, numBits: nat)
    requires bitBuf < Pow2(numBits) && numBits <= 61
    ensures bitBuf < 0x1_0000_0000_0000_0000
  {
    hide Pow2;
    Pow2Mono(numBits, 64);
    Pow2Add(16, 16);
    Pow2Add(32, 32);
    Pow2Values();
  }
}
