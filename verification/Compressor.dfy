/** `tdefl_compressor` and `tdefl_compress` (src/external/miniz.h:3627-3769, 3787-3861, 3870-3930): lazy
    parsing over the ring dictionary, blocks flushed on the way, and what decompresses to what. */
module Compressing {
  import opened Bits
  import opened Chunks
  import opened Tokens
  import opened Inflate
  import opened BitWriting
  import opened LzCodes
  import opened Blocks
  import opened Flushing
  import opened Dictionary
  import opened Parsing
  import opened Streams
  import DynamicHeader
  import Adler32

  const HASH_SIZE: nat := 32768
  const HASH_SHIFT: nat := 32

  /** C's `^` on unsigned integers. */
  function Xor(a: nat, b: nat): nat {
    if a == 0 then b
    else (if a % 2 != b % 2 then 1 else 0) + 2 * Xor(a / 2, b / 2)
  }

  /** C's `-` on 32-bit words. */
  function WordMinus(a: nat, b: nat): nat {
    (a % 0x1_0000_0000 - b % 0x1_0000_0000) % 0x1_0000_0000
  }

  lemma WordDifference(a: nat, b: nat)
    requires b <= a < b + 0x1_0000_0000
    ensures WordMinus(a, b) == a - b
  {
  }

  /** What the memory of the compressor holds before `tdefl_init`. */
  datatype Leftover = Leftover(dict: seq<byte>, next: seq<u16>, hash: seq<u16>)

  type Memory = m: Leftover | |m.dict| == DICT_LENGTH && |m.next| == LZ_DICT_SIZE && |m.hash| == HASH_SIZE
    witness Leftover(seq(DICT_LENGTH, _ => 0), seq(LZ_DICT_SIZE, _ => 0), seq(HASH_SIZE, _ => 0))

  method BytesOf(s: seq<byte>) returns (a: array<byte>)
    ensures fresh(a) && a[..] == s
  {
    a := new byte[|s|](i requires 0 <= i < |s| => s[i]);
  }

  method WordsOf(s: seq<u16>) returns (a: array<u16>)
    ensures fresh(a) && a[..] == s
  {
    a := new u16[|s|](i requires 0 <= i < |s| => s[i]);
  }

  datatype Status = BadParam | Okay | StreamDone

  class Compressor {
    const s: Settings
    const probesShort: nat
    const probesLong: nat
    const dict: array<byte>
    const next: array<u16>
    const hash: array<u16>
    const lz: LzBuffer
    const w: Writer

    var lookaheadPos: nat
    var lookaheadSize: nat
    var dictSize: nat
    var saved: Saved
    var dictPos: nat
    var blockIndex: nat
    var adler: nat
    var wantsToFinish: bool
    var finished: bool
    var prevStatus: Status

    /** All bytes handed to the output callback. */
    var sink: seq<byte>

    /** All bytes taken from the caller. */
    ghost var src: seq<byte>

    /** `tdefl_init`: under `TDEFL_NONDETERMINISTIC_PARSING_FLAG` dictionary and hash table are not cleared, and
        the chains never are. */
    constructor (s: Settings, m: Memory)
      ensures this.s == s && Shape() && Fresh()
      ensures fresh(dict) && fresh(next) && fresh(hash) && fresh(lz) && fresh(lz.buf) && fresh(w)
    {
      hide *;
      this.s := s;
      probesShort := 1 + (s.probes + 2) / 3;
      probesLong := 1 + (s.probes / 4 + 2) / 3;
      var d := BytesOf(if s.nondeterministic then m.dict else seq(DICT_LENGTH, _ => 0));
      var n := WordsOf(m.next);
      var h := WordsOf(if s.nondeterministic then m.hash else seq(HASH_SIZE, _ => 0));
      assert d.Length == |d[..]| && n.Length == |n[..]| && h.Length == |h[..]|;
      dict, next, hash := d, n, h;
      lz := new LzBuffer();
      w := new Writer(OUT_CAPACITY);
      lookaheadPos, lookaheadSize, dictSize, dictPos, blockIndex := 0, 0, 0, 0, 0;
      saved := Saved(0, 0, 0);
      adler := 1;
      sink, src := [], [];
      wantsToFinish, finished, prevStatus := false, false, Okay;
      new;
      ShapeIs();
      FreshIs();
    }

    /** The state `tdefl_init` leaves. */
    ghost predicate Fresh()
      reads this, lz, lz.buf, w
    {
      && lookaheadPos == lookaheadSize == dictSize == dictPos == blockIndex == 0
      && saved.len == 0 && adler == 1 && sink == [] && src == [] && !wantsToFinish && !finished && prevStatus == Okay
      && lz.Valid() && lz.Tokens() == [] && lz.codePos == 1
      && w.Valid() && w.output == [] && w.bitsIn == 0 && w.written == []
    }

    lemma ShapeIs()
      requires dict.Length == DICT_LENGTH && next.Length == LZ_DICT_SIZE && hash.Length == HASH_SIZE && next != hash
      requires lz.buf != dict && lz.buf.Length == LZ_CODE_BUF_SIZE && probesShort > 0 && probesLong > 0
      requires w.capacity == OUT_CAPACITY
      ensures Shape()
    {
    }

    lemma FreshIs()
      requires lookaheadPos == lookaheadSize == dictSize == dictPos == blockIndex == 0
      requires saved.len == 0 && adler == 1 && sink == [] && src == [] && !wantsToFinish && !finished
      requires prevStatus == Okay
      requires lz.Valid() && lz.Tokens() == [] && lz.codePos == 1
      requires w.Valid() && w.output == [] && w.bitsIn == 0 && w.written == []
      ensures Fresh()
    {
    }

    lemma FreshFacts()
      requires Fresh()
      ensures src == [] && prevStatus == Okay && !wantsToFinish
    {
    }

    /** At a byte boundary the stream is the bytes handed over. */
    lemma EndFacts()
      requires Valid() && w.bitsIn == 0
      ensures Stream() == BytesBits(sink) && (s.zlib ==> adler == Adler32.Adler(1, src))
    {
      hide Shape, Placed, Lexed, Sending, LzBuffer.Valid, Writer.Valid, BytesBits, Adler32.Adler;
      assert Enc(w.bitBuffer, 0) == [];
    }

    lemma FreshPlaced()
      requires Shape() && Fresh()
      ensures Placed() && Lexed()
    {
      hide Window, Parsed, LzBuffer.Valid, Writer.Valid;
      NothingYet(dict[..], saved);
    }

    lemma FreshSending()
      requires Fresh()
      ensures Sending()
    {
      hide DecodesTo, Enc, BytesBits, LzBuffer.Valid, Writer.Valid, LzBuffer.Tokens;
      InitialDecodes(s.zlib, adler);
      EmptyStream(w.bitBuffer);
    }

    lemma FreshValid()
      requires Shape() && Fresh()
      ensures Valid()
    {
      hide Placed, Lexed, Sending, LzBuffer.Valid, Writer.Valid, LzBuffer.Tokens;
      FreshPlaced();
      FreshSending();
      assert Adler32.Adler(1, []) == 1;
    }

    ghost predicate Valid()
      reads this, dict, lz, lz.buf, w
    {
      && Shape() && Placed() && Lexed() && lz.Valid() && lz.codePos + 8 <= lz.buf.Length
      && Sending() && (finished ==> prevStatus != Okay && dictPos == |src|)
      && adler < 0x1_0000_0000 && Adler32.ValidWord(adler)
      && (s.zlib || s.computeAdler ==> adler == Adler32.Adler(1, src))
    }

    /** `m_lookahead_pos - m_lz_code_buf_dict_pos` on 32-bit words is the difference of the positions, however far
        these have got: no block is as long as 2^32 bytes. */
    lemma BlockFitsWord()
      requires lz.Valid() && Lexed()
      ensures dictPos <= lookaheadPos && WordMinus(lookaheadPos, dictPos) == lookaheadPos - dictPos
    {
      hide Parsed, Window, Sending, LzBuffer.Valid, LzBuffer.Tokens, Adler32.Adler, Adler32.ValidWord;
      ParsedLength(src, dictPos, lz.Tokens(), lookaheadPos, saved);
      lz.BlockLength();
      WordDifference(lookaheadPos, dictPos);
    }

    /** All bits sent. */
    ghost function Stream(): bits
      reads this`sink, w
    {
      BytesBits(sink) + Enc(w.bitBuffer, w.bitsIn)
    }

    /** Between two blocks: what has been sent decodes to the source before the current block. */
    ghost predicate Sending()
      reads this`sink, this`dictPos, this`src, this`finished, this`blockIndex, this`adler, w
    {
      && w.Valid() && w.output == [] && w.written == Enc(w.bitBuffer, w.bitsIn) && dictPos <= |src|
      && DecodesTo(Stream(), s.zlib, CurrentPc(), src[..dictPos], adler)
    }

    ghost function CurrentPc(): Pc
      reads this`finished, this`blockIndex
    {
      if finished then Done else if blockIndex == 0 && s.zlib then ZHdr0 else BlockHdr
    }

    ghost predicate Shape() {
      && dict.Length == DICT_LENGTH && next.Length == LZ_DICT_SIZE && hash.Length == HASH_SIZE && next != hash
      && lz.buf != dict && lz.buf.Length == LZ_CODE_BUF_SIZE && probesShort > 0 && probesLong > 0
      && w.capacity == OUT_CAPACITY
    }

    lemma ShapeFacts()
      requires Shape()
      ensures dict.Length == DICT_LENGTH
    {
    }

    /** Where everything is: the ring holds the dictionary and the lookahead. */
    ghost predicate Placed()
      reads this`lookaheadPos, this`lookaheadSize, this`dictSize, this`src, dict
    {
      && lookaheadPos + lookaheadSize == |src|
      && dictSize <= lookaheadPos && dictSize + lookaheadSize <= LZ_DICT_SIZE && lookaheadSize <= MAX_MATCH_LEN
      && Window(dict[..], src, lookaheadPos - dictSize, |src|)
    }

    ghost predicate Lexed()
      reads this`src, this`dictPos, this`lookaheadPos, this`saved, lz
    {
      Parsed(src, dictPos, lz.Tokens(), lookaheadPos, saved)
    }

    /** Record the three-byte string at `insPos` in the hash chains. */
    method Insert(h: nat, insPos: nat)
      requires Shape() && h < HASH_SIZE
      modifies next, hash
    {
      next[insPos % LZ_DICT_SIZE] := hash[h];
      hash[h] := insPos % 0x10000;
    }

    /** One source byte into the ring. */
    method Push(c: byte, dstPos: nat, ghost lo: nat)
      requires Shape() && dstPos == |src| % LZ_DICT_SIZE && Window(dict[..], src, lo, |src|)
      modifies dict, this`src
      ensures src == old(src) + [c]
      ensures Window(dict[..], src, if |src| - lo > LZ_DICT_SIZE then lo + 1 else lo, |src|)
    {
      Store(dict, c, dstPos, src, lo);
      src := src + [c];
    }

    /** The dictionary update at the head of the loop when two bytes are already there. */
    method RefillFast(data: seq<byte>, k0: nat) returns (k: nat, ghost lo: nat)
      requires Shape() && Placed() && k0 <= |data| && lookaheadSize + dictSize >= 2
      modifies this`lookaheadSize, this`src, dict, next, hash
      ensures k0 <= k <= |data| && src == old(src) + data[k0..k] && (k == |data| || lookaheadSize == MAX_MATCH_LEN)
      ensures lookaheadPos + lookaheadSize == |src| && lookaheadSize <= MAX_MATCH_LEN
      ensures lo <= |src| && Window(dict[..], src, lo, |src|) && lo == Oldest(lookaheadPos - dictSize, |src|)
    {
      hide Window, Xor, Shape;
      ShapeFacts();
      lo := lookaheadPos - dictSize;
      var dstPos := (lookaheadPos + lookaheadSize) % LZ_DICT_SIZE;
      var insPos := lookaheadPos + lookaheadSize - 2;
      assert dict.Length == DICT_LENGTH;
      var h: nat := Xor(dict[insPos % LZ_DICT_SIZE] * HASH_SHIFT, dict[(insPos + 1) % LZ_DICT_SIZE]);
      var n := if |data| - k0 <= MAX_MATCH_LEN - lookaheadSize then |data| - k0 else MAX_MATCH_LEN - lookaheadSize;
      lookaheadSize := lookaheadSize + n;
      k := k0;
      ghost var was := src;
      assert was + data[k0..k0] == was;
      while k < k0 + n
        invariant k0 <= k <= k0 + n <= |data| && src == was + data[k0..k]
        invariant lookaheadPos == old(lookaheadPos) && dictSize == old(dictSize)
        invariant lookaheadSize == old(lookaheadSize) + n
        invariant dstPos == |src| % LZ_DICT_SIZE && insPos + 2 == |src|
        invariant lo == Oldest(lookaheadPos - dictSize, |src|) && Window(dict[..], src, lo, |src|)
      {
        var c := data[k];
        ghost var was1 := src;
        Push(c, dstPos, lo);
        lo := Oldest(lookaheadPos - dictSize, |src|);
        assert src == was + data[k0..k + 1] by { Appended(was, data, k0, k); }
        h := Xor(h * HASH_SHIFT, c) % HASH_SIZE;
        Insert(h, insPos);
        RingNext(|was1|, 1);
        dstPos := (dstPos + 1) % LZ_DICT_SIZE;
        insPos := insPos + 1;
        k := k + 1;
      }
    }

    /** The same, byte by byte, at the very start. */
    method RefillSlow(data: seq<byte>, k0: nat) returns (k: nat, ghost lo: nat)
      requires Shape() && Placed() && k0 <= |data|
      modifies this`lookaheadSize, this`src, dict, next, hash
      ensures k0 <= k <= |data| && src == old(src) + data[k0..k] && (k == |data| || lookaheadSize == MAX_MATCH_LEN)
      ensures lookaheadPos + lookaheadSize == |src| && lookaheadSize <= MAX_MATCH_LEN
      ensures lo <= |src| && Window(dict[..], src, lo, |src|) && lo == Oldest(lookaheadPos - dictSize, |src|)
    {
      hide Window, Xor;
      lo := lookaheadPos - dictSize;
      k := k0;
      ghost var was := src;
      assert was + data[k0..k0] == was;
      while k < |data| && lookaheadSize < MAX_MATCH_LEN
        invariant k0 <= k <= |data| && src == was + data[k0..k] && lookaheadSize <= MAX_MATCH_LEN
        invariant lookaheadPos == old(lookaheadPos) && dictSize == old(dictSize)
        invariant lookaheadPos + lookaheadSize == |src|
        invariant lo == Oldest(lookaheadPos - dictSize, |src|) && Window(dict[..], src, lo, |src|)
        decreases |data| - k
      {
        var c := data[k];
        var dstPos := (lookaheadPos + lookaheadSize) % LZ_DICT_SIZE;
        Push(c, dstPos, lo);
        lo := Oldest(lookaheadPos - dictSize, |src|);
        assert src == was + data[k0..k + 1] by { Appended(was, data, k0, k); }
        lookaheadSize := lookaheadSize + 1;
        if lookaheadSize + dictSize >= MIN_MATCH_LEN {
          var insPos := lookaheadPos + (lookaheadSize - 1) - 2;
          assert dict.Length == DICT_LENGTH;
          var h := Xor(Xor(dict[insPos % LZ_DICT_SIZE] * (HASH_SHIFT * HASH_SHIFT),
            dict[(insPos + 1) % LZ_DICT_SIZE] * HASH_SHIFT), c) % HASH_SIZE;
          Insert(h, insPos);
        }
        k := k + 1;
      }
    }

    method Refill(data: seq<byte>, k0: nat) returns (k: nat)
      requires Shape() && Placed() && Lexed() && k0 <= |data|
      modifies this`lookaheadSize, this`dictSize, this`src, dict, next, hash
      ensures Placed() && Lexed()
      ensures k0 <= k <= |data| && src == old(src) + data[k0..k] && (k == |data| || lookaheadSize == MAX_MATCH_LEN)
    {
      hide Window, Parsed;
      ghost var lo;
      if lookaheadSize + dictSize >= MIN_MATCH_LEN - 1 {
        k, lo := RefillFast(data, k0);
      } else {
        k, lo := RefillSlow(data, k0);
      }
      ParsedExtend(old(src), data[k0..k], dictPos, lz.Tokens(), lookaheadPos, saved);
      dictSize := if LZ_DICT_SIZE - lookaheadSize < dictSize then LZ_DICT_SIZE - lookaheadSize else dictSize;
    }

    /** Is there a match at the lookahead position?  (`cur_match_dist`, `cur_match_len`) */
    method ChooseMatch() returns (dist: nat, len: nat)
      requires Shape() && Placed() && Lexed() && lookaheadSize > 0
      ensures dist == 0 ==> len == 0 || len == (if saved.len > 0 then saved.len else MIN_MATCH_LEN - 1)
      ensures dist > 0 ==> MIN_MATCH_LEN <= len <= lookaheadSize && MatchAt(src, lookaheadPos, len, dist)
    {
      hide Window, Reproduces;
      dist, len := 0, if saved.len > 0 then saved.len else MIN_MATCH_LEN - 1;
      var curPos := lookaheadPos % LZ_DICT_SIZE;
      if s.rle || s.forceRaw {
        if dictSize > 0 && !s.forceRaw {
          dist, len := RunMatch();
        }
      } else {
        dist, len := FindMatch(dict, next, lookaheadPos, dictSize, lookaheadSize, probesShort, probesLong, dist, len,
          src);
      }
      if (len == MIN_MATCH_LEN && dist >= 8 * 1024) || curPos == dist || (s.filter && len <= 5) {
        dist, len := 0, 0;
      }
    }

    /** `TDEFL_RLE_MATCHES`: only repetitions of the previous byte. */
    method RunMatch() returns (dist: nat, len: nat)
      requires Shape() && Placed() && lookaheadSize > 0 && dictSize > 0
      ensures dist == 0 ==> len == 0
      ensures dist > 0 ==> MIN_MATCH_LEN <= len <= lookaheadSize && MatchAt(src, lookaheadPos, len, dist)
    {
      hide Window;
      var curPos := lookaheadPos % LZ_DICT_SIZE;
      assert dict.Length == DICT_LENGTH;
      var c := dict[(curPos + LZ_DICT_SIZE - 1) % LZ_DICT_SIZE];
      assert c == src[lookaheadPos - 1] by {
        RingNext(lookaheadPos, LZ_DICT_SIZE - 1);
        RingNext(lookaheadPos - 1, 1);
        WindowRead(dict[..], src, lookaheadPos - dictSize, |src|, lookaheadPos - 1, 0);
      }
      dist, len := 0, 0;
      while len < lookaheadSize
        invariant len <= lookaheadSize && dist == 0
        invariant forall j :: lookaheadPos <= j < lookaheadPos + len ==> src[j] == c
      {
        WindowRead(dict[..], src, lookaheadPos - dictSize, |src|, lookaheadPos, len);
        if dict[curPos + len] != c {
          break;
        }
        len := len + 1;
      }
      if len < MIN_MATCH_LEN {
        len := 0;
      } else {
        dist := 1;
      }
    }

    /** The lazy/greedy parsing state machine: record tokens, or hold a match back. */
    method Decide(dist: nat, len: nat) returns (lenToMove: nat)
      requires Shape() && Placed() && Lexed() && lz.Valid() && lookaheadSize > 0 && lz.codePos + 8 <= lz.buf.Length
      requires dist == 0 ==> len == 0 || len == (if saved.len > 0 then saved.len else MIN_MATCH_LEN - 1)
      requires dist > 0 ==> MIN_MATCH_LEN <= len <= lookaheadSize && MatchAt(src, lookaheadPos, len, dist)
      modifies this`saved, lz, lz.buf
      ensures lz.Valid() && 1 <= lenToMove <= lookaheadSize
      ensures Parsed(src, dictPos, lz.Tokens(), lookaheadPos + lenToMove, saved)
    {
      hide Window, Reproduces, MatchAt, Holding, Counted, TotalLen;
      lenToMove := 1;
      var curPos := lookaheadPos % LZ_DICT_SIZE;
      ghost var ts := lz.Tokens();
      WindowRead(dict[..], src, lookaheadPos - dictSize, |src|, lookaheadPos, 0);
      var here := dict[curPos];
      if saved.len > 0 {
        SavedFits(src, lookaheadPos, saved);
        if len > saved.len {
          AddLiteral(src, dictPos, ts, lookaheadPos - 1);
          lz.RecordLiteral(saved.lit);
          if len >= 128 {
            AddMatch(src, dictPos, lz.Tokens(), lookaheadPos, len, dist);
            DistanceFits(src, lookaheadPos, len, dist);
            lz.RecordMatch(len, dist);
            saved := Saved(0, saved.dist, saved.lit);
            lenToMove := len;
          } else {
            saved := Saved(len, dist, here);
          }
        } else {
          AddMatch(src, dictPos, ts, lookaheadPos - 1, saved.len, saved.dist);
          lz.RecordMatch(saved.len, saved.dist);
          lenToMove := saved.len - 1;
          saved := Saved(0, saved.dist, saved.lit);
        }
      } else if dist == 0 {
        AddLiteral(src, dictPos, ts, lookaheadPos);
        lz.RecordLiteral(here);
      } else if s.greedy || s.rle || len >= 128 {
        AddMatch(src, dictPos, ts, lookaheadPos, len, dist);
        DistanceFits(src, lookaheadPos, len, dist);
        lz.RecordMatch(len, dist);
        lenToMove := len;
      } else {
        saved := Saved(len, dist, here);
      }
    }

    /** One iteration of the loop after the refill. */
    method ParseOne()
      requires Shape() && Placed() && Lexed() && lz.Valid() && lookaheadSize > 0 && lz.codePos + 8 <= lz.buf.Length
      modifies this`saved, this`lookaheadPos, this`lookaheadSize, this`dictSize, lz, lz.buf
      ensures Placed() && Lexed() && lz.Valid() && lookaheadPos > old(lookaheadPos)
    {
      hide Window, Parsed, Holding, Counted, TotalLen, MatchAt;
      var dist, len := ChooseMatch();
      var lenToMove := Decide(dist, len);
      lookaheadPos := lookaheadPos + lenToMove;
      lookaheadSize := lookaheadSize - lenToMove;
      dictSize := if dictSize + lenToMove < LZ_DICT_SIZE then dictSize + lenToMove else LZ_DICT_SIZE;
    }

    /** Send the current block, which covers the source up to `end`. */
    method SendBlock(flush: Flush, ghost end: nat)
      requires Shape() && lz.Valid() && Sending() && !finished && adler < 0x1_0000_0000
      requires dictPos <= end <= lookaheadPos && end <= |src| && dictSize <= LZ_DICT_SIZE
      requires end == dictPos + lz.totalBytes
      requires Reproduces(src, dictPos, lz.Tokens(), end)
      requires lookaheadPos - dictPos <= dictSize ==> RingHolds(dict[..], dictPos, src[dictPos..end])
      modifies this`sink, w, lz, lz.buf
      ensures w.Valid() && w.output == [] && w.written == Enc(w.bitBuffer, w.bitsIn)
      ensures lz.Valid() && lz.Tokens() == [] && lz.codePos == 1
      ensures old(sink) <= sink && |sink| <= |old(sink)| + OUT_CAPACITY
      ensures DecodesTo(Stream(), s.zlib, PcAfter(flush), src[..end], adler)
      ensures flush != NoFlush ==> w.bitsIn == 0
    {
      hide Reproduces, Holding, Counted, TotalLen, DecodesTo, Pending, Enc, Proper, Follows, Contents, FlushBits,
        BytesBits, Says, Prologue, RingHolds;
      ghost var ts, was, written, oldSink := lz.Tokens(), Stream(), w.written, sink;
      ghost var data := src[dictPos..end];
      ghost var z, b;
      z, b := FlushBlock(w, lz, dict, s, lookaheadPos, dictPos, dictSize, blockIndex == 0, adler, flush, data);
      BlockFollows(src, dictPos, ts, end, b);
      ghost var bitBuffer, bitsIn := w.bitBuffer, w.bitsIn;
      FlushDecodes(was, s.zlib, CurrentPc(), src[..dictPos], z, b, flush, adler);
      WrittenStream(sink, written, was, w.output, bitBuffer, bitsIn, w.written, z, b, flush, s.zlib, adler);
      var bytes := w.TakeOutput();
      sink := sink + bytes;
    }

    /** `tdefl_flush_block`, and the start of the next block. */
    method FlushCurrent(flush: Flush)
      requires Shape() && Placed() && Lexed() && lz.Valid() && Sending() && !finished && adler < 0x1_0000_0000
      requires saved.len == 0 || flush == NoFlush
      modifies this`dictPos, this`blockIndex, this`sink, this`finished, w, lz, lz.buf
      ensures Lexed() && lz.Valid() && lz.codePos == 1 && Sending() && finished == (flush == Finish) && blockIndex > 0
      ensures dictPos == if saved.len > 0 then lookaheadPos - 1 else lookaheadPos
      ensures old(sink) <= sink && |sink| <= |old(sink)| + OUT_CAPACITY && (flush != NoFlush ==> w.bitsIn == 0)
    {
      hide Window, MatchAt, Reproduces, Holding, Counted, TotalLen, DecodesTo, Pending, Enc, BytesBits, RingHolds;
      ghost var ts := lz.Tokens();
      var total := lz.totalBytes;
      ParsedLength(src, dictPos, ts, lookaheadPos, saved);
      ghost var end := dictPos + total;
      if lookaheadPos - dictPos <= dictSize {
        BlockInRing(dict[..], src, lookaheadPos - dictSize, dictPos, end);
      }
      SendBlock(flush, end);
      dictPos := dictPos + total;
      blockIndex := blockIndex + 1;
      finished := flush == Finish;
      NothingParsed(src, dictPos);
    }

    /** The state at the head of the parsing loop. */
    ghost predicate Running()
      reads this, dict, lz, lz.buf, w
    {
      && Shape() && Placed() && Lexed() && lz.Valid() && lz.codePos + 8 <= lz.buf.Length
      && Sending() && !finished && adler < 0x1_0000_0000
    }

    /** Is it time to flush? */
    predicate BlockFull()
      reads this, lz
    {
      lz.codePos > LZ_CODE_BUF_SIZE - 8
      || (lz.totalBytes > 31 * 1024 && (lz.codePos * 115 / 128 >= lz.totalBytes || s.forceRaw))
    }

    /** A bound for what the bytes that have not been parsed can still become. */
    ghost function ToCome(): nat
      reads this`src, this`lookaheadPos
    {
      if |src| < lookaheadPos then 0 else BlocksSize(|src| - lookaheadPos)
    }

    /** What the loop never touches. */
    twostate predicate Steady()
      reads this
    {
      adler == old(adler) && wantsToFinish == old(wantsToFinish) && old(sink) <= sink
    }

    method RefillRunning(data: seq<byte>, k0: nat) returns (k: nat)
      requires Running() && k0 <= |data|
      modifies this`lookaheadSize, this`dictSize, this`src, dict, next, hash
      ensures Running()
      ensures k0 <= k <= |data| && src == old(src) + data[k0..k] && (k == |data| || lookaheadSize == MAX_MATCH_LEN)
    {
      hide Placed, Lexed, DecodesTo, LzBuffer.Valid, LzBuffer.Tokens, Writer.Valid, Enc, BytesBits;
      k := Refill(data, k0);
      assert src[..dictPos] == old(src)[..dictPos];
    }

    method ParseRunning()
      requires Running() && lookaheadSize > 0
      modifies this`saved, this`lookaheadPos, this`lookaheadSize, this`dictSize, this`dictPos, this`blockIndex,
               this`sink, this`finished, w, lz, lz.buf
      ensures Running() && lookaheadPos > old(lookaheadPos) && Steady() && |sink| <= |old(sink)| + OUT_CAPACITY
    {
      hide Window, Parsed, DecodesTo, LzBuffer.Valid, LzBuffer.Tokens, Writer.Valid, Enc, BytesBits;
      ParseOne();
      if BlockFull() {
        FlushCurrent(NoFlush);
      }
    }

    lemma Inside()
      requires Placed()
      ensures lookaheadPos + lookaheadSize == |src|
    {
    }

    /** `tdefl_compress_normal`: takes all of `data`; when flushing, nothing stays in the lookahead. */
    method CompressNormal(data: seq<byte>, flush: Flush)
      requires Running()
      modifies this, w, lz, lz.buf, dict, next, hash
      ensures Running() && Steady() && src == old(src) + data
      ensures flush != NoFlush ==> lookaheadSize == 0
      ensures |sink| + ToCome() <= |old(sink)| + old(ToCome()) + BlocksSize(|data|)
    {
      hide Placed, Lexed, Sending, LzBuffer.Valid, LzBuffer.Tokens, Writer.Valid, BlockFull, Shape, BlocksSize;
      var k := 0;
      Inside();
      ghost var size, ahead := |src| + |data|, |src| + |data| - lookaheadPos;
      BlocksAdd(|src| - lookaheadPos, |data|);
      assert old(src) + data[..0] == src;
      while k < |data| || (flush != NoFlush && lookaheadSize > 0)
        invariant Running() && Steady() && k <= |data| && src == old(src) + data[..k]
        invariant lookaheadPos + lookaheadSize == |src|
        invariant lookaheadPos <= size && |sink| + BlocksSize(size - lookaheadPos) <= |old(sink)| + BlocksSize(ahead)
        decreases size - lookaheadPos
      {
        var k0 := k;
        k := RefillRunning(data, k0);
        Inside();
        assert data[..k] == data[..k0] + data[k0..k];
        if flush == NoFlush && lookaheadSize < MAX_MATCH_LEN {
          break;
        }
        ghost var pos := lookaheadPos;
        ParseRunning();
        Inside();
        BlocksAdd(size - lookaheadPos, lookaheadPos - pos);
        OneBlock(lookaheadPos - pos);
      }
      assert data[..k] == data;
    }

    /** The checksum of the input just consumed. */
    method UpdateChecksum(data: seq<byte>, ghost before: seq<byte>)
      requires Running() && Adler32.ValidWord(adler) && src == before + data
      requires s.zlib || s.computeAdler ==> adler == Adler32.Adler(1, before)
      modifies this`adler
      ensures Running() && Adler32.ValidWord(adler)
      ensures s.zlib || s.computeAdler ==> adler == Adler32.Adler(1, src)
    {
      hide Window, Parsed, DecodesTo, LzBuffer.Valid, LzBuffer.Tokens, Writer.Valid, Enc, BytesBits, Adler32.Adler;
      if s.zlib || s.computeAdler {
        ghost var was := adler;
        adler := Adler32.Update(adler, data);
        Adler32.AdlerConcat(1, before, data);
        ChecksumLater(Stream(), s.zlib, CurrentPc(), src[..dictPos], was, adler);
      }
    }

    method ClearChains()
      modifies next, hash
    {
      for i := 0 to hash.Length
      {
        hash[i] := 0;
      }
      for i := 0 to next.Length
      {
        next[i] := 0;
      }
    }

    /** The explicit flush once all input is consumed. */
    method FlushAll(flush: Flush)
      requires Running() && lookaheadSize == 0 && flush != NoFlush
      modifies this`dictPos, this`blockIndex, this`sink, this`finished, this`dictSize, w, lz, lz.buf, next, hash
      ensures Shape() && Placed() && Lexed() && lz.Valid() && lz.codePos == 1 && Sending() && old(sink) <= sink
      ensures |sink| <= |old(sink)| + OUT_CAPACITY
      ensures dictPos == |src| && finished == (flush == Finish) && w.bitsIn == 0 && blockIndex > 0
    {
      hide Window, Parsed, DecodesTo, LzBuffer.Valid, LzBuffer.Tokens, Writer.Valid, Enc, BytesBits;
      assert saved.len == 0 by { NothingPending(src, dictPos, lz.Tokens(), saved); }
      FlushCurrent(flush);
      if flush == FullFlush {
        ClearChains();
        WindowShrink(dict[..], src, lookaheadPos - dictSize, |src|, |src|);
        dictSize := 0;
      }
    }

    /** The input, and its checksum. */
    method TakeIn(data: seq<byte>, flush: Flush)
      requires Running() && Adler32.ValidWord(adler) && (s.zlib || s.computeAdler ==> adler == Adler32.Adler(1, src))
      modifies this, w, lz, lz.buf, dict, next, hash
      ensures Running() && wantsToFinish == old(wantsToFinish) && old(sink) <= sink && src == old(src) + data
      ensures Adler32.ValidWord(adler) && (s.zlib || s.computeAdler ==> adler == Adler32.Adler(1, src))
      ensures flush != NoFlush ==> lookaheadSize == 0
      ensures |sink| + ToCome() <= |old(sink)| + old(ToCome()) + BlocksSize(|data|)
    {
      hide Running, Adler32.Adler, Adler32.ValidWord, BlocksSize;
      CompressNormal(data, flush);
      UpdateChecksum(data, old(src));
    }

    /** `tdefl_compress` with an output callback. */
    method Compress(data: seq<byte>, flush: Flush) returns (status: Status)
      requires Valid()
      modifies this, w, lz, lz.buf, dict, next, hash
      ensures Valid() && prevStatus == status && old(sink) <= sink
      ensures |sink| + ToCome() <= |old(sink)| + old(ToCome()) + BlocksSize(|data| + 1)
      ensures status == BadParam <==> old(prevStatus) != Okay || (old(wantsToFinish) && flush != Finish)
      ensures status == BadParam ==> src == old(src) && sink == old(sink) && Stream() == old(Stream())
      ensures status != BadParam ==> src == old(src) + data && (status == StreamDone <==> flush == Finish)
      ensures status != BadParam && flush != Finish ==> !wantsToFinish
      ensures status != BadParam && flush != NoFlush ==>
        w.bitsIn == 0 && DecodesTo(Stream(), s.zlib, PcAfter(flush), src, adler)
    {
      hide Placed, Lexed, DecodesTo, LzBuffer.Valid, LzBuffer.Tokens, Writer.Valid, Enc, BytesBits, Adler32.Adler,
        Adler32.ValidWord, BlocksSize, Stream;
      if prevStatus != Okay || (wantsToFinish && flush != Finish) {
        prevStatus := BadParam;
        return BadParam;
      }
      wantsToFinish := wantsToFinish || flush == Finish;
      TakeIn(data, flush);
      BlocksAdd(|data|, 1);
      OneBlock(1);
      if flush != NoFlush && lookaheadSize == 0 {
        FlushAll(flush);
        assert src[..dictPos] == src;
      }
      status := if finished then StreamDone else Okay;
      prevStatus := status;
    }
  }

  /** What `n` blocks take at most. */
  ghost function BlocksSize(n: nat): nat {
    OUT_CAPACITY * n
  }

  lemma BlocksAdd(m: nat, n: nat)
    ensures BlocksSize(m + n) == BlocksSize(m) + BlocksSize(n)
  {
  }

  lemma OneBlock(n: nat)
    requires n > 0
    ensures BlocksSize(n) >= OUT_CAPACITY
  {
  }

  /** `tdefl_compress_mem_to_output`: one call that finishes the stream.  What it sends decodes to the
      input, and under zlib framing carries the input's checksum. */
  method CompressAll(data: seq<byte>, s: Settings, m: Memory) returns (bytes: seq<byte>, checksum: nat)
    ensures DecodesTo(BytesBits(bytes), s.zlib, Pc.Done, data, if s.zlib then Adler32.Adler(1, data) else checksum)
  {
    hide *;
    var c := new Compressor(s, m);
    c.FreshValid();
    c.FreshFacts();
    var status := c.Compress(data, Finish);
    bytes, checksum := c.sink, c.adler;
    assert [] + data == data;
    c.EndFacts();
    assert PcAfter(Finish) == Pc.Done by { AfterFinish(); }
  }

  /** Calls with the pieces and flushes given, and one that finishes the stream. */
  method CompressPieces(pieces: seq<seq<byte>>, flushes: seq<Flush>, s: Settings, m: Memory)
    returns (bytes: seq<byte>, checksum: nat)
    requires |pieces| == |flushes| + 1 && Finish !in flushes
    ensures DecodesTo(BytesBits(bytes), s.zlib, Pc.Done, Flatten(pieces),
      if s.zlib then Adler32.Adler(1, Flatten(pieces)) else checksum)
  {
    hide *;
    var c := new Compressor(s, m);
    c.FreshValid();
    c.FreshFacts();
    FlattenNone(pieces);
    for i := 0 to |flushes|
      invariant c.Valid() && fresh(c) && fresh(c.dict) && fresh(c.next) && fresh(c.hash) && fresh(c.lz)
      invariant fresh(c.lz.buf) && fresh(c.w)
      invariant c.src == Flatten(pieces[..i]) && c.prevStatus == Okay && !c.wantsToFinish && c.s == s
    {
      var status := c.Compress(pieces[i], flushes[i]);
      FlattenNext(pieces, i);
    }
    var status := c.Compress(pieces[|flushes|], Finish);
    bytes, checksum := c.sink, c.adler;
    FlattenNext(pieces, |flushes|);
    assert pieces[..|flushes| + 1] == pieces;
    c.EndFacts();
    AfterFinish();
  }

  lemma AfterFinish()
    ensures PcAfter(Finish) == Pc.Done
  {
  }

  lemma NothingYet(dict: seq<byte>, saved: Saved)
    requires |dict| == DICT_LENGTH && saved.len == 0
    ensures Window(dict, [], 0, 0) && Parsed([], 0, [], 0, saved)
  {
  }

  lemma EmptyStream(bitBuffer: nat)
    ensures BytesBits([]) + Enc(bitBuffer, 0) == []
  {
  }

  /** The bytes of a block whose start is still in the dictionary are all in the ring. */
  lemma BlockInRing(dict: seq<byte>, src: seq<byte>, lo: nat, start: nat, end: nat)
    requires Window(dict, src, lo, |src|) && lo <= start <= end <= |src|
    ensures RingHolds(dict, start, src[start..end])
  {
    forall i | 0 <= i < end - start
      ensures dict[(start + i) % LZ_DICT_SIZE] == src[start..end][i]
    {
      assert Slot(dict, start + i, src[start + i]);
    }
  }

  /** Whichever kind of block was chosen, its contents are the next piece of the source. */
  lemma BlockFollows(src: seq<byte>, start: nat, ts: seq<Token>, end: nat, b: Block)
    requires Reproduces(src, start, ts, end) && Says(b, ts, src[start..end])
    ensures Follows(b, src[..start]) && Contents(b, src[..start]) == src[..end]
  {
    assert src[..start] + src[start..end] == src[..end];
  }

  /** Handing over the bytes of a block turns what was written into a longer stream. */
  lemma WrittenStream(sink: seq<byte>, before: bits, was: bits, output: seq<byte>, bitBuffer: nat, bitsIn: nat,
                      written: bits,
                      z: bits, b: Block, flush: Flush, zlib: bool, adler: nat)
    requires was == BytesBits(sink) + before && Proper(b) && adler < 0x1_0000_0000
    requires written == before + FlushBits(z, b, flush, zlib, adler, |before|)
    requires Pending(output, bitBuffer, bitsIn) == written
    ensures BytesBits(sink + output) + Enc(bitBuffer, bitsIn) == was + FlushBits(z, b, flush, zlib, adler, |was|)
  {
    hide Enc, BytesBits, Proper, FlushBits;
    FlushMod(z, b, flush, zlib, adler, |before|, |was|);
    BytesBitsConcat(sink, output);
    DynamicHeader.Assoc3(BytesBits(sink), BytesBits(output), Enc(bitBuffer, bitsIn));
    DynamicHeader.Assoc3(BytesBits(sink), before, FlushBits(z, b, flush, zlib, adler, |was|));
  }

  /** The oldest byte the ring still holds when it has been filled up to `hi`. */
  function Oldest(lo: nat, hi: nat): nat {
    if hi - lo > LZ_DICT_SIZE then hi - LZ_DICT_SIZE else lo
  }

  lemma Appended(was: seq<byte>, data: seq<byte>, i: nat, k: nat)
    requires i <= k < |data|
    ensures was + data[i..k] + [data[k]] == was + data[i..k + 1]
  {
  }

  lemma SavedFits(src: seq<byte>, pos: nat, s: Saved)
    requires s.len > 0 && 0 < pos && MatchAt(src, pos - 1, s.len, s.dist)
    ensures pos - 1 + s.len <= |src| && 1 <= s.dist <= LZ_DICT_SIZE
  {
  }

  lemma DistanceFits(src: seq<byte>, pos: nat, len: nat, dist: nat)
    requires MatchAt(src, pos, len, dist)
    ensures 1 <= dist <= LZ_DICT_SIZE
  {
  }
}
