/** What the decompressor makes of a stream of flushed blocks. */
module Streams {
  import opened Bits
  import opened Tokens
  import opened Inflate
  import opened BlockBody
  import opened DynamicHeader
  import opened Blocks
  import opened Flushing
  import opened Progress

  /** Decoding `stream`, with `rest` behind it, ends at `pc` with output `out`. */
  ghost predicate Lands(stream: bits, rest: bits, zlib: bool, pc: Pc, out: seq<byte>, adler: nat) {
    exists q :: Reaches(Initial(zlib), stream + rest, q, rest) && At(q, zlib, pc, out, adler)
  }

  ghost predicate At(q: Inflater, zlib: bool, pc: Pc, out: seq<byte>, adler: nat) {
    && Ok(q) && q.pc == pc && q.out == out && q.zlib == zlib && q.window == 0
    && (pc.Done? && zlib ==> q.zAdler == adler)
    && (zlib && !pc.ZHdr0? ==> q.zhdr0 == 0x78)
  }

  /** So it does whatever follows, as long as the whole is a byte string. */
  ghost predicate DecodesTo(stream: bits, zlib: bool, pc: Pc, out: seq<byte>, adler: nat) {
    forall rest: bits :: (|stream| + |rest|) % 8 == 0 ==> Lands(stream, rest, zlib, pc, out, adler)
  }

  lemma InitialDecodes(zlib: bool, adler: nat)
    ensures DecodesTo([], zlib, Initial(zlib).pc, [], adler)
  {
    hide At, Initial, Reaches, Ok, Lands;
    forall rest: bits | |rest| % 8 == 0
      ensures Lands([], rest, zlib, Initial(zlib).pc, [], adler)
    {
      InitialLands(zlib, adler, rest);
    }
  }

  lemma InitialLands(zlib: bool, adler: nat, rest: bits)
    ensures Lands([], rest, zlib, Initial(zlib).pc, [], adler)
  {
    hide At, Initial, Reaches, Ok;
    InitialAt(zlib, adler);
    assert [] + rest == rest;
    ReachRefl(Initial(zlib), rest);
  }

  lemma InitialAt(zlib: bool, adler: nat)
    ensures Ok(Initial(zlib)) && At(Initial(zlib), zlib, Initial(zlib).pc, [], adler)
  {
    hide SizesOk, SizesPlausible;
  }

  /** The checksum matters only at the end. */
  lemma ChecksumLater(stream: bits, zlib: bool, pc: Pc, out: seq<byte>, a: nat, b: nat)
    requires DecodesTo(stream, zlib, pc, out, a) && !pc.Done?
    ensures DecodesTo(stream, zlib, pc, out, b)
  {
    hide Ok, Reaches;
    forall rest: bits | (|stream| + |rest|) % 8 == 0
      ensures Lands(stream, rest, zlib, pc, out, b)
    {
      assert Lands(stream, rest, zlib, pc, out, a);
      var q :| Reaches(Initial(zlib), stream + rest, q, rest) && At(q, zlib, pc, out, a);
      assert At(q, zlib, pc, out, b);
    }
  }

  // ---------- one flush ----------

  lemma PaddingMod(a: nat, b: nat)
    requires a % 8 == b % 8
    ensures Padding(a) == Padding(b)
  {
  }

  /** Only the position within a byte matters. */
  lemma KindMod(b: Block, x: nat, y: nat)
    requires Proper(b) && x % 8 == y % 8
    ensures KindBits(b, x) == KindBits(b, y)
  {
    hide Enc, HeaderBits, BodyBits;
    if b.Stored? {
      PaddingMod(x + 2, y + 2);
    }
  }

  lemma TailMod(flush: Flush, zlib: bool, adler: nat, x: nat, y: nat)
    requires adler < 0x1_0000_0000 && x % 8 == y % 8
    ensures TailBits(flush, zlib, adler, x) == TailBits(flush, zlib, adler, y)
  {
    hide Enc, KindBits, BytesBits, AdlerBytes;
    PaddingMod(x, y);
    KindMod(Stored([]), x + 1, y + 1);
  }

  lemma FlushMod(z: bits, b: Block, flush: Flush, zlib: bool, adler: nat, x: nat, y: nat)
    requires Proper(b) && adler < 0x1_0000_0000 && x % 8 == y % 8
    ensures FlushBits(z, b, flush, zlib, adler, x) == FlushBits(z, b, flush, zlib, adler, y)
  {
    hide Enc, KindBits, TailBits, Proper;
    KindMod(b, x + |z| + 1, y + |z| + 1);
    var p := z + BlockBits(b, Final(flush), x + |z|);
    TailMod(flush, zlib, adler, x + |p|, y + |p|);
  }

  function PcAfter(flush: Flush): Pc {
    if flush == Finish then Done else BlockHdr
  }

  /** The prologue, if any, leads to the first block header. */
  lemma RunPrologue(q: Inflater, z: bits, rest: bits) returns (q': Inflater)
    requires Ok(q) && Prologue(z, q.pc.ZHdr0?) && (q.pc.ZHdr0? || q.pc.BlockHdr?) && q.window == 0
    requires q.zlib && !q.pc.ZHdr0? ==> q.zhdr0 == 0x78
    ensures Reaches(q, z + rest, q', rest)
    ensures Ok(q') && q'.pc.BlockHdr? && q'.out == q.out && q'.zlib == q.zlib && q'.window == 0
    ensures q.zlib ==> q'.zhdr0 == 0x78
  {
    hide Ok, Reaches, ZlibHeader, Enc;
    if q.pc.ZHdr0? {
      var flg: nat :| ZlibHeader(0x78, flg) && z == Enc(0x78, 8) + Enc(flg, 8);
      q' := RunZlibHeader(q, 0x78, flg, rest);
    } else {
      assert z + rest == rest;
      ReachRefl(q, rest);
      q' := q;
    }
  }

  /** What the flush adds behind the block. */
  lemma RunTail(q: Inflater, flush: Flush, adler: nat, at: nat, rest: bits) returns (q': Inflater)
    requires Ok(q) && q.pc == (if flush == Finish then FinalAlign else BlockHdr) && adler < 0x1_0000_0000
    requires q.window == 0
    requires q.zlib ==> q.zhdr0 == 0x78
    requires (at + |TailBits(flush, q.zlib, adler, at)| + |rest|) % 8 == 0
    ensures Reaches(q, TailBits(flush, q.zlib, adler, at) + rest, q', rest)
    ensures At(q', q.zlib, PcAfter(flush), q.out, adler)
  {
    hide Ok, Reaches, Enc, BlockBits, BytesBits, AdlerBytes;
    if flush == NoFlush {
      assert [] + rest == rest;
      ReachRefl(q, rest);
      q' := q;
    } else if flush == Finish {
      assert |rest| % 8 == 0 by { TrailerWhole(q.zlib, at, adler, rest); }
      q' := RunTrailer(q, at, adler, rest);
    } else {
      q' := RunBlock(q, Stored([]), 0, at, rest);
      assert q.out + [] == q.out;
    }
    ReachFrame(q, TailBits(flush, q.zlib, adler, at) + rest, q', rest);
  }

  lemma TrailerWhole(zlib: bool, at: nat, adler: nat, rest: bits)
    requires adler < 0x1_0000_0000 && (at + |TrailerBits(zlib, at, adler)| + |rest|) % 8 == 0
    ensures |rest| % 8 == 0
  {
    hide Enc;
  }

  /** Everything one flush sends decodes to the contents of its block. */
  lemma RunFlush(q: Inflater, z: bits, b: Block, flush: Flush, adler: nat, at: nat, rest: bits) returns (q': Inflater)
    requires Ok(q) && Prologue(z, q.pc.ZHdr0?) && (q.pc.ZHdr0? || q.pc.BlockHdr?) && q.window == 0
    requires q.zlib && !q.pc.ZHdr0? ==> q.zhdr0 == 0x78
    requires Proper(b) && Follows(b, q.out) && adler < 0x1_0000_0000
    requires (at + |FlushBits(z, b, flush, q.zlib, adler, at)| + |rest|) % 8 == 0
    ensures Reaches(q, FlushBits(z, b, flush, q.zlib, adler, at) + rest, q', rest)
    ensures At(q', q.zlib, PcAfter(flush), Contents(b, q.out), adler)
  {
    hide Ok, Reaches, BlockBits, TailBits, Prologue, Proper, Contents, Follows;
    var at1 := at + |z|;
    var k := BlockBits(b, Final(flush), at1);
    var at2 := at + |z + k|;
    var t := TailBits(flush, q.zlib, adler, at2);
    var s2, s1 := t + rest, k + (t + rest);
    Assoc3(z + k, t, rest);
    Assoc3(z, k, t + rest);
    var s := z + s1;
    var q1 := RunPrologue(q, z, s1);
    var q2 := RunBlock(q1, b, Final(flush), at1, s2);
    ReachTrans(q, s, q1, s1, q2, s2);
    ReachFrame(q1, s1, q2, s2);
    q' := RunTail(q2, flush, adler, at2, rest);
    ReachTrans(q, s, q2, s2, q', rest);
  }

  /** Appending a flush to a stream. */
  lemma FlushDecodes(stream: bits, zlib: bool, pc: Pc, out: seq<byte>, z: bits, b: Block, flush: Flush, adler: nat)
    requires DecodesTo(stream, zlib, pc, out, adler) && (pc.ZHdr0? || pc.BlockHdr?) && Prologue(z, pc.ZHdr0?)
    requires Proper(b) && Follows(b, out) && adler < 0x1_0000_0000
    ensures DecodesTo(stream + FlushBits(z, b, flush, zlib, adler, |stream|), zlib, PcAfter(flush), Contents(b, out),
      adler)
  {
    hide Ok, Reaches, FlushBits, Prologue, Proper, Contents, Follows;
    var f := FlushBits(z, b, flush, zlib, adler, |stream|);
    forall rest: bits | (|stream + f| + |rest|) % 8 == 0
      ensures Lands(stream + f, rest, zlib, PcAfter(flush), Contents(b, out), adler)
    {
      assert Lands(stream, f + rest, zlib, pc, out, adler);
      var q :| Reaches(Initial(zlib), stream + (f + rest), q, f + rest) && At(q, zlib, pc, out, adler);
      var q' := RunFlush(q, z, b, flush, adler, |stream|, rest);
      Assoc3(stream, f, rest);
      ReachTrans(Initial(zlib), stream + (f + rest), q, f + rest, q', rest);
    }
  }
}
