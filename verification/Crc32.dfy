/** CRC-32 (APPNOTE section 4.4.7; src/external/miniz.h:1896-1989): the loop that takes four bytes at a
    time with one table lookup per byte, against the bitwise definition.  A 32-bit word is the list of its
    bits, least significant first. */
module Crc32 {
  import opened Bits

  const WORD: nat := 32

  type word = b: bits | |b| == WORD witness seq(WORD, _ => false)

  function Zeros(n: nat): (b: bits)
    ensures |b| == n && forall i :: 0 <= i < n ==> !b[i]
  {
    seq(n, _ => false)
  }

  function Xor(a: word, b: word): (c: word)
    ensures forall i :: 0 <= i < WORD ==> c[i] == (a[i] != b[i])
  {
    seq(WORD, i requires 0 <= i < WORD => a[i] != b[i])
  }

  /** C's `~` */
  function Not(a: word): (c: word)
    ensures forall i :: 0 <= i < WORD ==> c[i] == !a[i]
  {
    seq(WORD, i requires 0 <= i < WORD => !a[i])
  }

  /** C's `>>` */
  function ShiftRight(a: word, n: nat): (c: word)
    requires n <= WORD
    ensures forall i :: 0 <= i < WORD ==> c[i] == (i + n < WORD && a[i + n])
  {
    a[n..] + Zeros(n)
  }

  /** The polynomial, bit-reversed. */
  function Poly(): word {
    Enc(0xEDB88320, WORD)
  }

  /** One step of the division. */
  function One(c: word): word {
    if c[0] then Xor(ShiftRight(c, 1), Poly()) else ShiftRight(c, 1)
  }

  function Steps(c: word, n: nat): word {
    if n == 0 then c else One(Steps(c, n - 1))
  }

  function ByteWord(b: byte): (w: word)
    ensures w[..8] == Enc(b, 8) && w[8..] == Zeros(WORD - 8)
  {
    Enc(b, 8) + Zeros(WORD - 8)
  }

  // ---------- the definition: eight steps for every byte ----------

  function Divide(c: word, data: seq<byte>): word
    decreases |data|
  {
    if |data| == 0 then c else Divide(Steps(Xor(c, ByteWord(data[0])), 8), data[1..])
  }

  /** The checksum `crc` continued over `data`. */
  function Crc(crc: word, data: seq<byte>): word {
    Not(Divide(Not(crc), data))
  }

  /** `MZ_CRC32_INIT` */
  function Init(): word {
    Zeros(WORD)
  }

  lemma {:induction false} DivideConcat(c: word, a: seq<byte>, b: seq<byte>)
    ensures Divide(c, a + b) == Divide(Divide(c, a), b)
    decreases |a|
  {
    hide Steps, Xor;
    if |a| == 0 {
      assert a + b == b;
    } else {
      assert (a + b)[1..] == a[1..] + b;
      DivideConcat(Steps(Xor(c, ByteWord(a[0])), 8), a[1..], b);
    }
  }

  /** Checksums chain: that is how an entry written in pieces gets its checksum. */
  lemma CrcConcat(crc: word, a: seq<byte>, b: seq<byte>)
    ensures Crc(crc, a + b) == Crc(Crc(crc, a), b)
  {
    hide Divide;
    DivideConcat(Not(crc), a, b);
    var d := Divide(Not(crc), a);
    assert Not(Not(d)) == d;
  }

  // ---------- the table ----------

  /** `s_crc_table[i]` */
  function Table(i: byte): word {
    Steps(ByteWord(i), 8)
  }

  lemma OneSplits(x: word, y: word)
    requires !y[0]
    ensures One(Xor(x, y)) == Xor(One(x), ShiftRight(y, 1))
  {
    hide Poly;
  }

  /** Bits that do not reach the low end only move. */
  lemma {:induction false} StepsSplit(x: word, y: word, n: nat)
    requires n <= WORD && forall i :: 0 <= i < n ==> !y[i]
    ensures Steps(Xor(x, y), n) == Xor(Steps(x, n), ShiftRight(y, n))
  {
    hide One;
    if n == 0 {
      assert ShiftRight(y, 0) == y;
    } else {
      StepsSplit(x, y, n - 1);
      OneSplits(Steps(x, n - 1), ShiftRight(y, n - 1));
      assert ShiftRight(ShiftRight(y, n - 1), 1) == ShiftRight(y, n);
    }
  }

  /** One table lookup: `(c >> 8) ^ s_crc_table[(c ^ x) & 0xFF]`. */
  function Lookup(c: word, x: byte): word {
    var low := Xor(c, ByteWord(x))[..8];
    ValBound(low);
    Pow2Values();
    Xor(ShiftRight(c, 8), Table(Val(low)))
  }

  /** It does the eight steps. */
  lemma LookupSteps(c: word, x: byte)
    ensures Lookup(c, x) == Steps(Xor(c, ByteWord(x)), 8)
  {
    hide Steps, Enc, Val, Pow2;
    var w := Xor(c, ByteWord(x));
    var low := w[..8];
    ValBound(low);
    Pow2Values();
    EncVal(low);
    var lo: word := ByteWord(Val(low));
    var hi: word := Zeros(8) + w[8..];
    assert lo[..8] == low && lo[8..] == Zeros(WORD - 8);
    forall i | 0 <= i < WORD
      ensures w[i] == (lo[i] != hi[i])
    {
      if i < 8 {
        assert lo[i] == lo[..8][i] == low[i];
      } else {
        assert !lo[8..][i - 8];
      }
    }
    assert w == Xor(lo, hi);
    StepsSplit(lo, hi, 8);
    HighKept(c, x, hi);
    assert Xor(Steps(lo, 8), ShiftRight(hi, 8)) == Xor(ShiftRight(hi, 8), Steps(lo, 8));
  }

  lemma HighKept(c: word, x: byte, hi: word)
    requires hi == Zeros(8) + Xor(c, ByteWord(x))[8..]
    ensures ShiftRight(hi, 8) == ShiftRight(c, 8)
  {
    hide Enc;
    var b := ByteWord(x);
    forall i | 8 <= i < WORD
      ensures hi[i] == c[i]
    {
      assert !b[8..][i - 8];
    }
  }

  // ---------- the loop ----------

  lemma DivideNext(c: word, data: seq<byte>, i: nat)
    requires i < |data|
    ensures Divide(c, data[..i + 1]) == Lookup(Divide(c, data[..i]), data[i])
  {
    hide Divide, Lookup, Steps;
    assert data[..i + 1] == data[..i] + [data[i]];
    DivideConcat(c, data[..i], [data[i]]);
    DivideOne(Divide(c, data[..i]), data[i]);
    LookupSteps(Divide(c, data[..i]), data[i]);
  }

  lemma DivideOne(c: word, x: byte)
    ensures Divide(c, [x]) == Steps(Xor(c, ByteWord(x)), 8)
  {
    hide Steps;
    assert [x][1..] == [];
  }

  lemma DivideNone(c: word, data: seq<byte>)
    ensures Divide(c, data[..0]) == c
  {
  }

  /** `mz_crc32` */
  method Update(crc: word, data: seq<byte>) returns (r: word)
    ensures r == Crc(crc, data)
  {
    hide Divide, Lookup;
    ghost var c0 := Not(crc);
    var c := Not(crc);
    var i := 0;
    DivideNone(c0, data);
    while |data| - i >= 4
      invariant 0 <= i <= |data| && c == Divide(c0, data[..i])
    {
      DivideNext(c0, data, i);
      DivideNext(c0, data, i + 1);
      DivideNext(c0, data, i + 2);
      DivideNext(c0, data, i + 3);
      c := Lookup(c, data[i]);
      c := Lookup(c, data[i + 1]);
      c := Lookup(c, data[i + 2]);
      c := Lookup(c, data[i + 3]);
      i := i + 4;
    }
    while i < |data|
      invariant 0 <= i <= |data| && c == Divide(c0, data[..i])
    {
      DivideNext(c0, data, i);
      c := Lookup(c, data[i]);
      i := i + 1;
    }
    assert data[..i] == data;
    r := Not(c);
  }
}
