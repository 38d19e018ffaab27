/** `tdefl_flush_block` (src/external/miniz.h:3115-3255): one block for the tokens collected so far,
    sent raw, with the static codes or with dynamic ones, and what a flush adds to it. */
module Flushing {
  import opened Bits
  import opened Canonical
  import opened DecodeTable
  import opened Tokens
  import opened Inflate
  import opened BlockBody
  import opened BitWriting
  import opened MergeQueues
  import opened MinRedundancy
  import opened DynamicHeader
  import opened BlockSize
  import opened BlockStart
  import opened LzCodes
  import opened Blocks

  const OUT_BUF_SIZE: nat := LZ_CODE_BUF_SIZE * 13 / 10
  const OUT_CAPACITY: nat := OUT_BUF_SIZE - 16

  /** `m_flags` and what `tdefl_init` derives from it. */
  datatype Settings = Settings(
    zlib: bool, rle: bool, filter: bool, forceStatic: bool, forceRaw: bool, greedy: bool, computeAdler: bool,
    nondeterministic: bool, probes: nat)

  datatype Flush = NoFlush | SyncFlush | FullFlush | Finish

  // ---------- sizes ----------

  lemma {:induction false} BodyCount(g: seq<Token>)
    requires ValidTokens(g)
    ensures |Body(g)| >= |g|
  {
    if |g| > 0 {
      BodyCount(g[1..]);
    }
  }

  /** Eight tokens take at least nine bytes. */
  lemma {:induction false} PackCount(ts: seq<Token>)
    requires ValidTokens(ts)
    ensures 8 * |Pack(ts)| >= 9 * |ts|
  {
    hide Body, FlagByte;
    if 0 < |ts| <= 8 {
      BodyCount(ts);
    } else if |ts| > 8 {
      BodyCount(ts[..8]);
      PackCount(ts[8..]);
    }
  }

  lemma StaticEncodable(t: Token)
    requires ValidToken(t)
    ensures Encodable(StaticLit(), StaticDist(), t)
    ensures |TokenBits(StaticLit(), StaticDist(), t)| <= if t.Literal? then 9 else 31
  {
    hide LenSym, DistSymOf, LenExtraBits, DistExtraBits, LENGTH_BASE, LENGTH_EXTRA, DIST_BASE, DIST_EXTRA, Enc, Pow2;
    if t.Match? {
      LengthAgrees(t.len - MIN_MATCH_LEN);
      DistAgrees(t.dist - 1);
    }
  }

  lemma AllStaticEncodable(ts: seq<Token>)
    requires ValidTokens(ts)
    ensures AllEncodable(StaticLit(), StaticDist(), ts)
  {
    forall i | 0 <= i < |ts|
      ensures Encodable(StaticLit(), StaticDist(), ts[i])
    {
      StaticEncodable(ts[i]);
    }
  }

  lemma {:induction false} StaticGroupLength(g: seq<Token>)
    requires ValidTokens(g) && AllEncodable(StaticLit(), StaticDist(), g)
    ensures |TokensBits(StaticLit(), StaticDist(), g)| <= 10 * |Body(g)| + |g|
  {
    hide TokenBits, Encodable, StaticLit, StaticDist;
    if |g| > 0 {
      StaticEncodable(g[0]);
      StaticGroupLength(g[1..]);
    }
  }

  /** With the static codes ten bits per buffered byte are enough. */
  lemma {:induction false} StaticLength(ts: seq<Token>)
    requires ValidTokens(ts) && AllEncodable(StaticLit(), StaticDist(), ts)
    ensures |TokensBits(StaticLit(), StaticDist(), ts)| <= 10 * |Pack(ts)|
  {
    hide TokensBits, Encodable, StaticLit, StaticDist, Body, FlagByte;
    if |ts| == 0 {
      assert TokensBits(StaticLit(), StaticDist(), ts) == [] by { EmitStart(StaticLit(), StaticDist(), ts); }
    } else if |ts| <= 8 {
      StaticGroupLength(ts);
    } else {
      assert ts == ts[..8] + ts[8..];
      TokensBitsConcat(StaticLit(), StaticDist(), ts[..8], ts[8..]);
      StaticGroupLength(ts[..8]);
      StaticLength(ts[8..]);
    }
  }

  // ---------- compressed blocks ----------

  lemma CountedEncodable(sizes0: seq<nat>, sizes1: seq<nat>, count0: seq<nat>, count1: seq<nat>, ts: seq<Token>)
    requires ValidTokens(ts) && Counted(count0, count1, ts) && |sizes0| == 288 && |sizes1| == 32
    requires forall v :: 0 <= v < 288 ==> (sizes0[v] > 0 <==> v == 256 || count0[v] > 0)
    requires forall v :: 0 <= v < 32 ==> (sizes1[v] > 0 <==> count1[v] > 0)
    ensures AllEncodable(sizes0, sizes1, ts) && Uses(sizes0, 256)
  {
    hide Sum, LenSym, DistSymOf;
    forall i | 0 <= i < |ts|
      ensures Encodable(sizes0, sizes1, ts[i])
    {
      assert TokenCounted(count0, count1, ts[i]);
    }
  }

  /** Less than the output buffer holds, with room for what comes before and after the block. */
  const MAX_BLOCK_BITS: nat := 660000

  ghost predicate Short(b: Block)
    requires Proper(b)
  {
    forall at: nat :: |KindBits(b, at)| <= MAX_BLOCK_BITS
  }

  lemma DynamicShort(b: Block, count0: seq<nat>, count1: seq<nat>)
    requires b.Dynamic? && Proper(b) && ValidTokens(b.ts) && |Pack(b.ts)| <= LZ_CODE_BUF_SIZE
    requires Counted(count0, count1, b.ts) && NearlyOptimal(b.lit, b.dist, count0, count1)
    ensures Short(b)
  {
    hide HeaderBits, BodyBits, Buildable, Counted, NearlyOptimal, Pack, ItemsUse;
    BodySmall(b.lit, b.dist, count0, count1, b.ts);
    HeaderSmall(b.h);
  }

  lemma StaticShort(ts: seq<Token>)
    requires Proper(Static(ts)) && ValidTokens(ts) && |Pack(ts)| <= LZ_CODE_BUF_SIZE
    ensures Short(Static(ts))
  {
    hide KindBits, Pack, Proper;
    forall at: nat
      ensures |KindBits(Static(ts), at)| <= MAX_BLOCK_BITS
    {
      StaticSmall(Static(ts), ts, at);
    }
  }

  /** `tdefl_compress_block`.  Whatever the tokens, the block is shorter than the output buffer. */
  method CompressBlock(w: Writer, buf: array<byte>, codePos: nat, count0: seq<nat>, count1: seq<nat>, isStatic: bool,
                       ghost ts: seq<Token>)
    returns (ok: bool, ghost b: Block)
    requires w.Valid() && codePos <= buf.Length == LZ_CODE_BUF_SIZE && ValidTokens(ts) && buf[..codePos] == Pack(ts)
    requires Counted(count0, count1, ts)
    modifies w
    ensures w.Valid() && old(w.output) <= w.output
    ensures Proper(b) && !b.Stored? && b.ts == ts && (isStatic ==> b.Static?)
    ensures forall at: nat {:trigger KindBits(b, at)} :: w.written == old(w.written) + KindBits(b, at)
    ensures ok == (|w.output| < w.capacity)
    ensures Short(b)
  {
    hide HuffmanTable.NearOptimal, Short, BodyBits, Pow2, Enc, Sum, CodeWord, Pack, TokensBits, Encodable, Buildable,
      HeaderBits, AllEncodable, StaticLit, StaticDist, ItemsUse, Counted;
    ghost var was := w.written;
    if isStatic {
      AllStaticEncodable(ts);
      StaticUses256();
      var sizes0, codes0, sizes1, codes1 := StartStaticBlock(w);
      ok := CompressLzCodes(w, buf, codePos, sizes0, codes0, sizes1, codes1, ts);
      b := Static(ts);
      Assoc3(was, Enc(1, 2), BodyBits(sizes0, sizes1, ts));
      StaticKind(ts);
      StaticShort(ts);
    } else {
      CountsSmall(count0, count1, ts);
      var sizes0, codes0, sizes1, codes1, h := StartDynamicBlock(w, count0, count1);
      CountedEncodable(sizes0, sizes1, count0, count1, ts);
      ok := CompressLzCodes(w, buf, codePos, sizes0, codes0, sizes1, codes1, ts);
      b := Dynamic(h, sizes0, sizes1, ts);
      Assoc3(was, HeaderBits(h), BodyBits(sizes0, sizes1, ts));
      DynamicKind(b);
      DynamicShort(b, count0, count1);
    }
  }

  lemma StaticKind(ts: seq<Token>)
    requires AllEncodable(StaticLit(), StaticDist(), ts)
    ensures Proper(Static(ts)) && Uses(StaticLit(), 256)
    ensures forall at: nat {:trigger KindBits(Static(ts), at)} ::
      KindBits(Static(ts), at) == Enc(1, 2) + BodyBits(StaticLit(), StaticDist(), ts)
  {
    StaticUses256();
  }

  lemma DynamicKind(b: Block)
    requires b.Dynamic? && Proper(b)
    ensures forall at: nat {:trigger KindBits(b, at)} ::
      KindBits(b, at) == HeaderBits(b.h) + BodyBits(b.lit, b.dist, b.ts)
  {
    hide HeaderBits, BodyBits, Describes, Buildable;
  }

  lemma CountsSmall(count0: seq<nat>, count1: seq<nat>, ts: seq<Token>)
    requires ValidTokens(ts) && Counted(count0, count1, ts) && |Pack(ts)| <= LZ_CODE_BUF_SIZE
    ensures |count0| == 288 && |count1| == 32 && Sum(count0) + 1 < 65536 && Sum(count1) < 65536
    ensures count0[256] == count0[286] == count0[287] == 0 && count1[30] == count1[31] == 0
  {
    hide Sum, Pack;
    PackCount(ts);
  }

  // ---------- stored blocks ----------

  /** The ring holds `data` from position `p` on. */
  ghost predicate RingHolds(dict: seq<byte>, p: nat, data: seq<byte>) {
    |dict| >= LZ_DICT_SIZE && forall i :: 0 <= i < |data| ==> dict[(p + i) % LZ_DICT_SIZE] == data[i]
  }

  method PutStored(w: Writer, dict: array<byte>, dictPos: nat, total: nat, ghost data: seq<byte>)
    requires w.Valid() && total == |data| < 0x10000 && RingHolds(dict[..], dictPos, data)
    modifies w
    ensures w.Valid() && old(w.output) <= w.output
    ensures w.written == old(w.written) + StoredBits(data, |old(w.written)|)
  {
    hide Enc, Pow2, BytesBits;
    Pow2Values();
    ghost var was := w.written;
    w.PutBits(0, 2);
    w.AlignToByte();
    var n := total;
    w.PutBits(n, 16);
    n := 0xFFFF - n;
    w.PutBits(n, 16);
    n := 0xFFFF - n;
    ghost var start := w.written;
    BytesNone();
    for i := 0 to n
      invariant w.Valid() && old(w.output) <= w.output
      invariant w.written == start + BytesBits(data[..i])
    {
      BytesSnoc(data, i);
      Assoc3(start, BytesBits(data[..i]), Enc(data[i], 8));
      w.PutBits(dict[(dictPos + i) % LZ_DICT_SIZE], 8);
    }
    assert data[..n] == data;
    StoredLeft(was, Enc(0, 2), Enc(0, Padding(|was| + 2)), Enc(total, 16), Enc(0xFFFF - total, 16), BytesBits(data));
  }

  lemma BytesNone()
    ensures forall s: seq<byte> :: BytesBits(s[..0]) == []
  {
  }

  lemma NoBytes()
    ensures BytesBits([]) == []
  {
  }

  lemma BytesSnoc(data: seq<byte>, i: nat)
    requires i < |data|
    ensures BytesBits(data[..i + 1]) == BytesBits(data[..i]) + Enc(data[i], 8)
  {
    hide Enc;
    assert data[..i + 1] == data[..i] + [data[i]];
    BytesBitsConcat(data[..i], [data[i]]);
    assert BytesBits([data[i]]) == Enc(data[i], 8) + BytesBits([]);
  }

  lemma StoredLeft(f: bits, t: bits, p: bits, a: bits, b: bits, d: bits)
    ensures f + t + p + a + b + d == f + (t + (p + (a + (b + d))))
  {
    Assoc3(f, t, p + (a + (b + d)));
    Assoc3(f + t, p, a + (b + d));
    Assoc3(f + t + p, a, b + d);
    Assoc3(f + t + p + a, b, d);
  }

  // ---------- the frame ----------

  /** `s_tdefl_num_probes`, by compression level. */
  const NUM_PROBES: seq<nat> := [0, 1, 6, 32, 16, 32, 128, 256, 512, 768, 1500]

  /** The check bits make the header a multiple of 31 and leave the dictionary bit clear. */
  lemma HeaderChecks(level: nat)
    requires level <= 3
    ensures var h := 0x7800 + level * 64; ZlibHeader(0x78, (h + (31 - h % 31)) % 256)
  {
  }

  /** The two header bytes of RFC 1950; the level is guessed from the number of probes. */
  method PutZlibHeader(w: Writer, probes: nat) returns (ghost flg: nat)
    requires w.Valid()
    modifies w
    ensures w.Valid() && old(w.output) <= w.output && ZlibHeader(0x78, flg)
    ensures w.written == old(w.written) + (Enc(0x78, 8) + Enc(flg, 8))
  {
    hide Enc, Pow2, ZlibHeader;
    Pow2Values();
    var i := 0;
    while i < |NUM_PROBES| && NUM_PROBES[i] != probes
    {
      i := i + 1;
    }
    var level := if i < 2 then 0 else if i < 6 then 1 else if i == 6 then 2 else 3;
    var header := 0x7800 + level * 64;
    HeaderChecks(level);
    header := header + (31 - header % 31);
    var low := header % 256;
    flg := low;
    Assoc3(w.written, Enc(0x78, 8), Enc(low, 8));
    w.PutBits(0x78, 8);
    w.PutBits(low, 8);
  }

  ghost function TailBits(flush: Flush, zlib: bool, adler: nat, at: nat): bits
    requires adler < 0x1_0000_0000
  {
    match flush
    case NoFlush => []
    case Finish => TrailerBits(zlib, at, adler)
    case _ => BlockBits(Stored([]), 0, at)
  }

  /** The checksum after `i` bytes have been shifted out. */
  function Unsent(a: nat, i: nat): nat {
    if i == 0 then a else Unsent(a, i - 1) * 256 % 0x1_0000_0000
  }

  /** A word and its four digits. */
  predicate Digits4(a: nat, b0: nat, b1: nat, b2: nat, b3: nat) {
    b0 < 256 && b1 < 256 && b2 < 256 && b3 < 256 && a == b0 * 0x1000000 + b1 * 0x10000 + b2 * 0x100 + b3
  }

  lemma DigitsOf(a: nat) returns (b0: nat, b1: nat, b2: nat, b3: nat)
    requires a < 0x1_0000_0000
    ensures Digits4(a, b0, b1, b2, b3) && AdlerBytes(a) == [b0, b1, b2, b3]
  {
    b0, b1, b2, b3 := a / 0x1000000, a / 0x10000 % 256, a / 256 % 256, a % 256;
    var h := a / 256;
    assert a / 0x10000 == h / 256 && a / 0x1000000 == h / 256 / 256;
  }

  lemma ShiftOut(a: nat, b0: nat, b1: nat, b2: nat, b3: nat)
    requires Digits4(a, b0, b1, b2, b3)
    ensures Digits4(a * 256 % 0x1_0000_0000, b1, b2, b3, 0) && a / 0x1000000 % 256 == b0
  {
    DivModUnique(a * 256, 0x1_0000_0000, b0, b1 * 0x1000000 + b2 * 0x10000 + b3 * 0x100);
    DivModUnique(a, 0x1000000, b0, b1 * 0x10000 + b2 * 0x100 + b3);
  }

  lemma UnsentTop(a: nat, i: nat)
    requires a < 0x1_0000_0000 && i < 4
    ensures Unsent(a, i) / 0x1000000 % 256 == AdlerBytes(a)[i]
  {
    hide Digits4;
    var b0, b1, b2, b3 := DigitsOf(a);
    UnsentStart(a);
    UnsentNext(a, 0);
    UnsentNext(a, 1);
    UnsentNext(a, 2);
    ShiftOut(a, b0, b1, b2, b3);
    ShiftOut(Unsent(a, 1), b1, b2, b3, 0);
    ShiftOut(Unsent(a, 2), b2, b3, 0, 0);
    ShiftOut(Unsent(a, 3), b3, 0, 0, 0);
  }

  method PutChecksum(w: Writer, adler: nat)
    requires w.Valid() && adler < 0x1_0000_0000
    modifies w
    ensures w.Valid() && old(w.output) <= w.output && w.written == old(w.written) + BytesBits(AdlerBytes(adler))
  {
    hide Enc, Pow2, BytesBits, AdlerBytes, Unsent;
    Pow2Values();
    ghost var start, bytes := w.written, AdlerBytes(adler);
    BytesNone();
    assert |bytes| == 4 by { AdlerLength(adler); }
    var a := adler;
    assert Unsent(adler, 0) == a by { UnsentStart(adler); }
    for i := 0 to 4
      invariant w.Valid() && old(w.output) <= w.output && a == Unsent(adler, i)
      invariant w.written == start + BytesBits(bytes[..i])
    {
      UnsentTop(adler, i);
      BytesSnoc(bytes, i);
      Assoc3(start, BytesBits(bytes[..i]), Enc(bytes[i], 8));
      w.PutBits(a / 0x1000000 % 256, 8);
      UnsentNext(adler, i);
      a := a * 256 % 0x1_0000_0000;
    }
    assert bytes[..4] == bytes;
  }

  lemma AdlerLength(a: nat)
    requires a < 0x1_0000_0000
    ensures |AdlerBytes(a)| == 4
  {
  }

  lemma UnsentStart(a: nat)
    ensures Unsent(a, 0) == a
  {
  }

  lemma UnsentNext(a: nat, i: nat)
    ensures Unsent(a, i + 1) == Unsent(a, i) * 256 % 0x1_0000_0000
  {
  }

  /** `TDEFL_FINISH`: up to the byte boundary, then the checksum. */
  method PutTrailer(w: Writer, zlib: bool, adler: nat)
    requires w.Valid() && adler < 0x1_0000_0000
    modifies w
    ensures w.Valid() && old(w.output) <= w.output && w.bitsIn == 0
    ensures w.written == old(w.written) + TrailerBits(zlib, |old(w.written)|, adler)
  {
    hide Enc, Pow2, BytesBits, AdlerBytes, Pending;
    ghost var was := w.written;
    w.AlignToByte();
    ghost var pad := Enc(0, Padding(|was|));
    if zlib {
      Assoc3(was, pad, BytesBits(AdlerBytes(adler)));
      AdlerLength(adler);
      PutChecksum(w, adler);
    } else {
      Assoc3(was, pad, []);
      assert w.written + [] == w.written;
    }
  }

  /** `TDEFL_SYNC_FLUSH`: an empty stored block. */
  method PutEmptyBlock(w: Writer)
    requires w.Valid()
    modifies w
    ensures w.Valid() && old(w.output) <= w.output && w.bitsIn == 0
    ensures w.written == old(w.written) + BlockBits(Stored([]), 0, |old(w.written)|)
  {
    hide Enc, Pow2, BytesBits, Pending;
    Pow2Values();
    ghost var was := w.written;
    ZeroBits();
    w.PutBits(0, 3);
    w.AlignToByte();
    var z := 0;
    w.PutBits(z, 16);
    z := 0xFFFF - z;
    w.PutBits(z, 16);
    ghost var pad := Enc(0, Padding(|was| + 3));
    EmptyStored(was, Enc(0, 1), Enc(0, 2), pad, Enc(0, 16), Enc(0xFFFF, 16));
    NoBytes();
  }

  method PutTail(w: Writer, flush: Flush, zlib: bool, adler: nat)
    requires w.Valid() && adler < 0x1_0000_0000
    modifies w
    ensures w.Valid() && old(w.output) <= w.output
    ensures w.written == old(w.written) + TailBits(flush, zlib, adler, |old(w.written)|)
    ensures flush == NoFlush ==> w.output == old(w.output)
    ensures flush != NoFlush ==> w.bitsIn == 0
  {
    hide Enc, Pow2, TrailerBits, BlockBits, Pending;
    if flush == NoFlush {
      assert w.written + [] == w.written;
    } else if flush == Finish {
      PutTrailer(w, zlib, adler);
    } else {
      PutEmptyBlock(w);
    }
  }

  lemma ZeroBits()
    ensures Enc(0, 3) == Enc(0, 1) + Enc(0, 2)
  {
    EncSplit(0, 1, 2);
  }

  lemma EmptyStored(was: bits, f: bits, t: bits, p: bits, a: bits, b: bits)
    ensures was + (f + t) + p + a + b == was + (f + (t + (p + (a + (b + [])))))
  {
    assert b + [] == b;
    Assoc3(was, f + t, p + (a + b));
    Assoc3(was + (f + t), p, a + b);
    Assoc3(was + (f + t) + p, a, b);
    Assoc3(f, t, p + (a + b));
  }

  // ---------- the whole block ----------

  /** What the header of the first block may be. */
  ghost predicate Prologue(z: bits, wanted: bool) {
    if wanted then exists flg: nat :: ZlibHeader(0x78, flg) && z == Enc(0x78, 8) + Enc(flg, 8) else z == []
  }

  lemma PrologueNone()
    ensures Prologue([], false)
  {
  }

  lemma PrologueSome(flg: nat)
    requires ZlibHeader(0x78, flg)
    ensures Prologue(Enc(0x78, 8) + Enc(flg, 8), true)
  {
  }

  function Final(flush: Flush): (f: nat)
    ensures f < 2
  {
    if flush == Finish then 1 else 0
  }

  /** Everything one call sends, starting at bit position `at`. */
  ghost function FlushBits(z: bits, b: Block, flush: Flush, zlib: bool, adler: nat, at: nat): bits
    requires Proper(b) && adler < 0x1_0000_0000
  {
    var p := z + BlockBits(b, Final(flush), at + |z|);
    p + TailBits(flush, zlib, adler, at + |p|)
  }

  /** The block says what was collected: the tokens, or the bytes they stand for. */
  ghost predicate Says(b: Block, ts: seq<Token>, data: seq<byte>) {
    match b
    case Stored(d) => d == data
    case Static(us) => us == ts
    case Dynamic(_, _, _, us) => us == ts
  }

  /** Choose and write the block, from the final bit's successor on. */
  method PutBlock(w: Writer, lz: LzBuffer, dict: array<byte>, s: Settings, lookaheadPos: nat, dictPos: nat,
                  dictSize: nat,
                  ghost ts: seq<Token>, ghost data: seq<byte>)
    returns (ghost b: Block)
    requires w.Valid() && w.capacity == OUT_CAPACITY && |w.output| < 16 && |w.written| < 64
    requires dictPos + lz.totalBytes <= lookaheadPos && dictSize <= LZ_DICT_SIZE
    requires lz.codePos <= lz.buf.Length == LZ_CODE_BUF_SIZE && ValidTokens(ts) && lz.buf[..lz.codePos] == Pack(ts)
    requires Counted(lz.count0, lz.count1, ts)
    requires lookaheadPos - dictPos <= dictSize ==> lz.totalBytes == |data| && RingHolds(dict[..], dictPos, data)
    modifies w
    ensures w.Valid() && |w.output| < w.capacity
    ensures Proper(b) && Says(b, ts, data) && Short(b)
    ensures w.written == old(w.written) + KindBits(b, |old(w.written)|)
  {
    hide Short, Pow2, Enc, Sum, Pack, Counted, RingHolds, Proper, KindBits, Pending, ValidToken;
    var window := lookaheadPos - dictPos <= dictSize;
    var useRaw := s.forceRaw && window;
    var total := lz.totalBytes;
    var saved, savedBuffer, savedIn := |w.output|, w.bitBuffer, w.bitsIn;
    ghost var savedOutput, savedWritten := w.output, w.written;
    var ok := false;
    if !useRaw {
      ok, b := CompressBlock(w, lz.buf, lz.codePos, lz.count0, lz.count1, s.forceStatic || total < 48, ts);
      assert w.written == savedWritten + KindBits(b, |savedWritten|);
    }
    if (useRaw || (total > 0 && |w.output| - saved + 1 >= total)) && window {
      assert w.output[..saved] == savedOutput;
      w.Restore(w.output[..saved], savedBuffer, savedIn, savedWritten);
      PutStored(w, dict, dictPos, total, data);
      b := Stored(data);
      StoredKind(data, |savedWritten|);
      StoredSmall(data, |savedWritten|);
    } else if !ok {
      assert w.output[..saved] == savedOutput;
      w.Restore(w.output[..saved], savedBuffer, savedIn, savedWritten);
      ok, b := CompressBlock(w, lz.buf, lz.codePos, lz.count0, lz.count1, true, ts);
      assert w.written == savedWritten + KindBits(b, |savedWritten|);
      StaticSmall(b, ts, |savedWritten|);
    }
  }

  lemma StoredKind(data: seq<byte>, at: nat)
    requires |data| < 0x10000
    ensures Proper(Stored(data)) && KindBits(Stored(data), at) == StoredBits(data, at) && Short(Stored(data))
  {
    forall at: nat
      ensures |KindBits(Stored(data), at)| <= MAX_BLOCK_BITS
    {
      StoredSmall(data, at);
    }
  }

  lemma StoredSmall(data: seq<byte>, at: nat)
    requires |data| < 0x10000
    ensures |StoredBits(data, at)| <= 42 + 8 * |data|
  {
  }

  /** The static code always fits: ten bits for each of 65536 bytes are less than the output buffer. */
  lemma StaticSmall(b: Block, ts: seq<Token>, at: nat)
    requires b.Static? && Proper(b) && b.ts == ts && ValidTokens(ts) && |Pack(ts)| <= LZ_CODE_BUF_SIZE
    ensures |KindBits(b, at)| <= 10 * LZ_CODE_BUF_SIZE + 20
  {
    hide Pack, TokensBits, AllEncodable;
    StaticUses256();
    StaticLength(ts);
    assert |CodeWord(StaticLit(), 256)| == 7;
  }

  /** `tdefl_flush_block`.  Nothing was dropped: the condition that the source asserts at the end (3230) holds. */
  method FlushBlock(w: Writer, lz: LzBuffer, dict: array<byte>, s: Settings, lookaheadPos: nat, dictPos: nat,
                    dictSize: nat,
                    first: bool, adler: nat, flush: Flush, ghost data: seq<byte>)
    returns (ghost z: bits, ghost b: Block)
    requires w.Valid() && w.capacity == OUT_CAPACITY && w.output == [] && |w.written| < 8
    requires lz.Valid() && lz.buf != dict && adler < 0x1_0000_0000
    requires dictPos + lz.totalBytes <= lookaheadPos && dictSize <= LZ_DICT_SIZE
    requires lookaheadPos - dictPos <= dictSize ==> lz.totalBytes == |data| && RingHolds(dict[..], dictPos, data)
    modifies w, lz, lz.buf
    ensures w.Valid() && lz.Valid() && lz.Tokens() == [] && lz.codePos == 1 && lz.totalBytes == 0
    ensures Prologue(z, s.zlib && first)
    ensures Proper(b) && Says(b, old(lz.Tokens()), data)
    ensures w.written == old(w.written) + FlushBits(z, b, flush, s.zlib, adler, |old(w.written)|)
    ensures |w.output| < w.capacity
    ensures flush != NoFlush ==> w.bitsIn == 0
  {
    hide Short, Pow2, Enc, Sum, Pack, Counted, RingHolds, Proper, KindBits, Pending, ValidToken, TailBits, Says,
      Prologue, Holding, FlushBits;
    ghost var ts, was := lz.Tokens(), w.written;
    HoldingShape(lz.buf[..], lz.codePos, lz.flagsPos, lz.flagsLeft, lz.full, lz.part);
    lz.Close();
    z := PutPrologue(w, s, first, Final(flush));
    b := PutBlock(w, lz, dict, s, lookaheadPos, dictPos, dictSize, ts, data);
    FlushShape(was, z, b, flush, s.zlib, adler);
    ShortMeans(b, |w.written| - |KindBits(b, |was + z + Enc(Final(flush), 1)|)|);
    TailSmall(flush, s.zlib, adler, |w.written|);
    PutTail(w, flush, s.zlib, adler);
    lz.Reset();
  }

  /** The zlib header, if it is due, and the final bit. */
  method PutPrologue(w: Writer, s: Settings, first: bool, final: nat) returns (ghost z: bits)
    requires w.Valid() && w.output == [] && |w.written| < 8 && final < 2
    modifies w
    ensures w.Valid() && |w.output| < 16 && |w.written| < 64
    ensures Prologue(z, s.zlib && first)
    ensures w.written == old(w.written) + z + Enc(final, 1)
  {
    hide Pow2, Enc, Pending, Prologue;
    ghost var was := w.written;
    z := [];
    PrologueNone();
    if s.zlib && first {
      ghost var flg := PutZlibHeader(w, s.probes);
      z := Enc(0x78, 8) + Enc(flg, 8);
      PrologueSome(flg);
    } else {
      assert was + [] == was;
    }
    assert final < Pow2(1) by { Pow2Values(); }
    w.PutBits(final, 1);
  }

  lemma ShortMeans(b: Block, at: nat)
    requires Proper(b) && Short(b)
    ensures |KindBits(b, at)| <= MAX_BLOCK_BITS
  {
    hide KindBits, Proper;
  }

  lemma TailSmall(flush: Flush, zlib: bool, adler: nat, at: nat)
    requires adler < 0x1_0000_0000
    ensures |TailBits(flush, zlib, adler, at)| <= 64
  {
    hide Enc;
    AdlerLength(adler);
  }

  lemma FlushShape(was: bits, z: bits, b: Block, flush: Flush, zlib: bool, adler: nat)
    requires Proper(b) && adler < 0x1_0000_0000
    ensures var w1 := was + z + Enc(Final(flush), 1);
      var w2 := w1 + KindBits(b, |w1|);
      w2 + TailBits(flush, zlib, adler, |w2|) == was + FlushBits(z, b, flush, zlib, adler, |was|)
  {
    hide Proper, KindBits, TailBits, Enc;
    var e, at := Enc(Final(flush), 1), |was| + |z|;
    var k := KindBits(b, at + 1);
    Assoc3(was + z, e, k);
    Assoc3(was, z, e + k);
    var p := z + (e + k);
    Assoc3(was, p, TailBits(flush, zlib, adler, |was| + |p|));
  }
}
