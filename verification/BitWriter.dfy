/** `TDEFL_PUT_BITS` (src/external/miniz.h:2792-2806): bits are collected in a 32-bit buffer and leave
    it as bytes, which are dropped once the output buffer is full. */
module BitWriting {
  import opened Bits

  /** Everything the writer holds: the bytes written, then the bits still in the buffer. */
  function Pending(output: seq<byte>, bitBuffer: nat, bitsIn: nat): bits {
    BytesBits(output) + Enc(bitBuffer, bitsIn)
  }

  /** Moving the low eight bits to the output changes nothing. */
  lemma MoveByte(output: seq<byte>, bitBuffer: nat, bitsIn: nat)
    requires bitsIn >= 8
    ensures Pending(output + [bitBuffer % 256], Shr(bitBuffer, 8), bitsIn - 8) == Pending(output, bitBuffer, bitsIn)
  {
    var b: byte := bitBuffer % 256;
    BytesBitsConcat(output, [b]);
    assert BytesBits([b]) == Enc(b, 8) + BytesBits([]) == Enc(b, 8);
    LowByte(bitBuffer);
    EncSplit(bitBuffer, 8, bitsIn - 8);
    var x, y, z := BytesBits(output), Enc(bitBuffer, 8), Enc(Shr(bitBuffer, 8), bitsIn - 8);
    assert (x + y) + z == x + (y + z);
  }

  lemma LowByte(v: nat)
    ensures Enc(v % 256, 8) == Enc(v, 8)
  {
    Pow2Values();
    EncMod(v, 8);
  }

  lemma ShiftBound(v: nat, n: nat)
    requires n >= 8 && v < Pow2(n)
    ensures Shr(v, 8) < Pow2(n - 8)
  {
    ShrDiv(v, 8);
    Pow2Add(8, n - 8);
    Pow2Values();
  }

  /** `bitBuffer |= bits << bitsIn` appends the bits. */
  lemma AppendBits(bitBuffer: nat, bitsIn: nat, b: nat, len: nat)
    requires bitBuffer < Pow2(bitsIn) && b < Pow2(len)
    ensures BitOr(bitBuffer, Shl(b, bitsIn)) < Pow2(bitsIn + len)
    ensures Enc(BitOr(bitBuffer, Shl(b, bitsIn)), bitsIn + len) == Enc(bitBuffer, bitsIn) + Enc(b, len)
  {
    OrShifted(bitBuffer, b, bitsIn);
    Pow2Add(bitsIn, len);
    var p, v := Pow2(bitsIn), bitBuffer + b * Pow2(bitsIn);
    assert v < Pow2(bitsIn + len) by {
      MulGap(b, Pow2(len), p);
      MulComm(Pow2(len), p);
    }
    var e := Enc(bitBuffer, bitsIn) + Enc(b, len);
    ValEnc(bitBuffer, bitsIn);
    ValEnc(b, len);
    ValConcat(Enc(bitBuffer, bitsIn), Enc(b, len));
    MulComm(p, b);
    EncVal(e);
  }

  class Writer {
    var output: seq<byte>
    var bitBuffer: nat
    var bitsIn: nat
    const capacity: nat

    /** All bits put so far. */
    ghost var written: bits

    ghost predicate Valid()
      reads this
    {
      && bitsIn < 8 && bitBuffer < Pow2(bitsIn) && |output| <= capacity
      && bitsIn == |written| % 8 && 8 * |output| + bitsIn <= |written|
      && (|output| < capacity ==> Pending(output, bitBuffer, bitsIn) == written)
    }

    constructor (capacity: nat)
      ensures Valid() && output == [] && bitsIn == 0 && written == [] && this.capacity == capacity
    {
      this.capacity := capacity;
      output, bitBuffer, bitsIn, written := [], 0, 0, [];
    }

    /** `while (bits_in >= 8) { ... }`: complete bytes leave the buffer. */
    method DrainBytes(ghost full: bits)
      requires bitsIn < 24 && bitBuffer < Pow2(bitsIn) && |output| <= capacity && bitsIn % 8 == |full| % 8
      requires 8 * |output| + bitsIn <= |full|
      requires |output| < capacity ==> Pending(output, bitBuffer, bitsIn) == full
      modifies this
      ensures bitsIn < 8 && bitBuffer < Pow2(bitsIn) && old(output) <= output && |output| <= capacity
      ensures bitsIn == |full| % 8 && 8 * |output| + bitsIn <= |full|
      ensures |output| < capacity ==> Pending(output, bitBuffer, bitsIn) == full
      ensures written == old(written)
    {
      hide Pow2, Enc, Pending, BitOr, Shr;
      while bitsIn >= 8
        invariant bitsIn < 24 && bitBuffer < Pow2(bitsIn) && old(output) <= output && |output| <= capacity
        invariant written == old(written) && bitsIn % 8 == |full| % 8 && 8 * |output| + bitsIn <= |full|
        invariant |output| < capacity ==> Pending(output, bitBuffer, bitsIn) == full
        decreases bitsIn
      {
        MoveByte(output, bitBuffer, bitsIn);
        ShiftBound(bitBuffer, bitsIn);
        if |output| < capacity {
          output := output + [bitBuffer % 256];
        }
        bitBuffer := Shr(bitBuffer, 8);
        bitsIn := bitsIn - 8;
      }
    }

    /** Append the `len` low bits of `b`. */
    method PutBits(b: nat, len: nat)
      requires Valid() && b < Pow2(len) && len <= 16
      modifies this
      ensures Valid() && written == old(written) + Enc(b, len)
      ensures old(output) <= output
    {
      hide Pow2, Enc, Pending, BitOr, Shl;
      Put(output, bitBuffer, bitsIn, b, len);
      SamePlace(written, Enc(b, len), bitsIn);
      bitBuffer := BitOr(bitBuffer, Shl(b, bitsIn));
      bitsIn := bitsIn + len;
      assert bitBuffer < 0x1_0000_0000;
      written := written + Enc(b, len);
      DrainBytes(written);
    }

    /** Back to an earlier state (`m_pOutput_buf`, `m_bit_buffer` and `m_bits_in` saved and restored). */
    method Restore(output: seq<byte>, bitBuffer: nat, bitsIn: nat, ghost written: bits)
      requires bitsIn < 8 && bitBuffer < Pow2(bitsIn) && |output| <= capacity && bitsIn == |written| % 8
      requires 8 * |output| + bitsIn <= |written|
      requires |output| < capacity ==> Pending(output, bitBuffer, bitsIn) == written
      modifies this
      ensures Valid() && this.output == output && this.bitBuffer == bitBuffer && this.bitsIn == bitsIn
      ensures this.written == written
    {
      this.output, this.bitBuffer, this.bitsIn, this.written := output, bitBuffer, bitsIn, written;
    }

    /** Hand over the bytes written so far; the bits in the buffer stay. */
    method TakeOutput() returns (bytes: seq<byte>)
      requires Valid()
      modifies this
      ensures Valid() && output == [] && bytes == old(output)
      ensures bitBuffer == old(bitBuffer) && bitsIn == old(bitsIn)
      ensures written == Enc(bitBuffer, bitsIn)
    {
      bytes := output;
      output := [];
      written := Enc(bitBuffer, bitsIn);
      assert BytesBits([]) + written == written;
    }

    /** Zero bits up to the next byte boundary. */
    method AlignToByte()
      requires Valid()
      modifies this
      ensures Valid() && old(output) <= output
      ensures bitsIn == 0
      ensures written == old(written) + Enc(0, (8 - old(bitsIn)) % 8)
    {
      hide Pow2, Enc, Pending;
      if bitsIn > 0 {
        SamePlace(written, Enc(0, 8 - bitsIn), bitsIn);
        PutBits(0, 8 - bitsIn);
      } else {
        assert written + [] == written;
      }
    }
  }

  lemma FitsWord(n: nat)
    requires n <= 32
    ensures Pow2(n) <= 0x1_0000_0000
  {
    Pow2Mono(n, 32);
    Pow2Add(16, 16);
    Pow2Values();
  }

  lemma SamePlace(a: bits, b: bits, n: nat)
    requires n == |a| % 8
    ensures (n + |b|) % 8 == |a + b| % 8
  {
  }

  /** What `bit_buffer |= (b << bits_in)` does, in 32 bits. */
  lemma Put(output: seq<byte>, bitBuffer: nat, bitsIn: nat, b: nat, len: nat)
    requires bitBuffer < Pow2(bitsIn) && b < Pow2(len) && bitsIn + len <= 32
    ensures var v := BitOr(bitBuffer, Shl(b, bitsIn));
      && v < Pow2(bitsIn + len) <= 0x1_0000_0000
      && Pending(output, v, bitsIn + len) == Pending(output, bitBuffer, bitsIn) + Enc(b, len)
  {
    hide Pow2, Enc, Pending, BitOr, Shl;
    AppendBits(bitBuffer, bitsIn, b, len);
    FitsWord(bitsIn + len);
    PendingConcat(output, bitsIn, len, BitOr(bitBuffer, Shl(b, bitsIn)), bitBuffer, b);
  }

  lemma PendingConcat(output: seq<byte>, n: nat, len: nat, v: nat, u: nat, b: nat)
    requires Enc(v, n + len) == Enc(u, n) + Enc(b, len)
    ensures Pending(output, v, n + len) == Pending(output, u, n) + Enc(b, len)
  {
    hide Enc, BytesBits;
    var x, y, z := BytesBits(output), Enc(u, n), Enc(b, len);
    assert (x + y) + z == x + (y + z);
  }
}
