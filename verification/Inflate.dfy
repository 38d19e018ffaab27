/** The control structure of `tinfl_decompress` (src/external/miniz.h:4389-4749) as a machine over a
    bit stream.  The C function is a coroutine; `Pc` names its resumption points.  In each state the
    machine makes one request to its environment (some bits, one Huffman symbol, byte alignment, room
    for one output byte) and `Feed` says how it goes on with the answer.  The numbers of failure
    states are those of the source. */
module Inflate {
  import opened Bits
  import opened Canonical
  import opened DecodeTable
  import opened Tokens
  import opened LittleEndian

  datatype Pc =
    | ZHdr0 | ZHdr1
    | BlockHdr
    | RawAlign | RawHdr(i: nat) | RawByte | RawPut(b: byte)
    | TableSize(i: nat) | CodeLenLen(i: nat) | CodeLen | CodeLenRep(rep: nat)
    | LitLen | PutLit(b: byte) | LenExtra(lsym: nat) | DistSym | DistExtra(dsym: nat) | Copy
    | FinalAlign | Trailer(i: nat) | Done | Failed(at: nat)

  /** `window` is the size of a circular output buffer, or 0 if the buffer holds all output. */
  datatype Inflater = Inflater(
    pc: Pc, zlib: bool, window: nat, zhdr0: byte, zAdler: nat,
    final: nat, counter: nat, dist: nat, raw: seq<byte>,
    tableSizes: seq<nat>, sizes0: seq<nat>, sizes1: seq<nat>, sizes2: seq<nat>, lenCodes: seq<nat>,
    out: seq<byte>)

  datatype Request = NeedBits(n: nat) | NeedSymbol(table: nat) | AlignByte | Emit(b: byte) | Halt

  /** `s_length_dezigzag`, and the compressor's `s_tdefl_packed_code_size_syms_swizzle` */
  const DEZIGZAG: seq<nat> := [16, 17, 18, 0, 8, 7, 9, 6, 10, 5, 11, 4, 12, 3, 13, 2, 14, 1, 15]

  /** The code length symbol whose length is transmitted at position `i`. */
  function Transmitted(i: nat): (k: nat)
    requires i < 19
    ensures k < 19
  {
    DEZIGZAG[i]
  }

  function StaticLitSize(i: nat): nat {
    if i <= 143 then 8 else if i <= 255 then 9 else if i <= 279 then 7 else 8
  }

  function StaticLit(): (s: seq<nat>)
    ensures |s| == 288
  {
    seq(288, i requires 0 <= i < 288 => StaticLitSize(i))
  }

  function StaticDist(): (s: seq<nat>)
    ensures |s| == 32
  {
    seq(32, _ => 5)
  }

  function Initial(zlib: bool): Inflater {
    Inflater(if zlib then ZHdr0 else BlockHdr, zlib, 0, 0, 1, 0, 0, 0, [], [0, 0, 0], [], [], [], [], [])
  }

  /** The start with a circular buffer, which matches can read before anything has been written to it. */
  function InitialIn(zlib: bool, window: nat, before: seq<byte>): Inflater {
    Initial(zlib).(window := window, out := before)
  }

  /** How far back a match reads: in a circular buffer distances count modulo its size. */
  function Back(q: Inflater): nat {
    if q.window == 0 then q.dist else (q.dist + q.window - 1) % q.window + 1
  }

  predicate SizesOk(s: seq<nat>, max: nat) {
    |s| <= max && Buildable(s)
  }

  /** What holds at each resumption point. */
  ghost predicate Ok(q: Inflater) {
    && |q.tableSizes| == 3 && q.window <= |q.out|
    && (q.pc.RawHdr? ==> q.pc.i <= 3 && |q.raw| == q.pc.i)
    && (q.pc.RawByte? || q.pc.RawPut? ==> q.counter > 0)
    && (q.pc.TableSize? ==> q.pc.i <= 2)
    && (q.pc.TableSize? || q.pc.CodeLenLen? || q.pc.CodeLen? || q.pc.CodeLenRep? ==> SizesPlausible(q))
    && (q.pc.CodeLenLen? ==>
          q.pc.i < q.tableSizes[2] && |q.sizes2| == 19 && forall k :: 0 <= k < 19 ==> q.sizes2[k] <= 7)
    && (q.pc.CodeLen? || q.pc.CodeLenRep? ==>
          && |q.sizes2| == 19 && Buildable(q.sizes2)
          && |q.lenCodes| < q.tableSizes[0] + q.tableSizes[1]
          && forall k :: 0 <= k < |q.lenCodes| ==> q.lenCodes[k] <= 15)
    && (q.pc.CodeLenRep? ==> 16 <= q.pc.rep <= 18 && (q.pc.rep == 16 ==> |q.lenCodes| > 0))
    && (q.pc.LitLen? || q.pc.PutLit? || q.pc.LenExtra? || q.pc.DistSym? || q.pc.DistExtra? || q.pc.Copy? ==>
          SizesOk(q.sizes0, 288) && SizesOk(q.sizes1, 32))
    && (q.pc.LenExtra? ==> 257 <= q.pc.lsym <= 287)
    && (q.pc.DistExtra? ==> q.pc.dsym < 32)
    && (q.pc.Copy? ==> q.counter > 0 && 1 <= Back(q) <= |q.out|)
    && (q.pc.Trailer? ==> q.pc.i <= 3)
  }

  ghost predicate SizesPlausible(q: Inflater)
    requires |q.tableSizes| == 3
  {
    && ((q.pc.TableSize? && q.pc.i == 0) || 257 <= q.tableSizes[0] <= 288)
    && ((q.pc.TableSize? && q.pc.i <= 1) || 1 <= q.tableSizes[1] <= 32)
    && (q.pc.TableSize? || 4 <= q.tableSizes[2] <= 19)
  }

  // ---------- requests and answers ----------

  ghost function Want(q: Inflater): Request
    requires Ok(q)
  {
    match q.pc
    case ZHdr0 => NeedBits(8)
    case ZHdr1 => NeedBits(8)
    case BlockHdr => NeedBits(3)
    case RawAlign => AlignByte
    case RawHdr(_) => NeedBits(8)
    case RawByte => NeedBits(8)
    case RawPut(b) => Emit(b)
    case TableSize(i) => NeedBits(if i == 2 then 4 else 5)
    case CodeLenLen(_) => NeedBits(3)
    case CodeLen => NeedSymbol(2)
    case CodeLenRep(rep) => NeedBits(if rep == 16 then 2 else if rep == 17 then 3 else 7)
    case LitLen => NeedSymbol(0)
    case PutLit(b) => Emit(b)
    case LenExtra(sym) => NeedBits(LENGTH_EXTRA[sym - 257])
    case DistSym => NeedSymbol(1)
    case DistExtra(sym) => NeedBits(DIST_EXTRA[sym])
    case Copy => Emit(q.out[|q.out| - Back(q)])
    case FinalAlign => AlignByte
    case Trailer(_) => NeedBits(8)
    case Done => Halt
    case Failed(_) => Halt
  }

  function SizesOf(q: Inflater, table: nat): seq<nat> {
    if table == 0 then q.sizes0 else if table == 1 then q.sizes1 else q.sizes2
  }

  /** The checks of the zlib header; the size of the dictionary matters only with a circular buffer. */
  predicate ZlibHeaderOk(cmf: byte, flg: byte, window: nat) {
    && (cmf * 256 + flg) % 31 == 0 && (flg / 32) % 2 == 0 && cmf % 16 == 8
    && (window > 0 ==> Pow2(8 + cmf / 16) <= 32768 && Pow2(8 + cmf / 16) <= window)
  }

  function EndBlock(q: Inflater): Inflater {
    q.(pc := if q.final % 2 == 1 then FinalAlign else BlockHdr)
  }

  function BlockType(q: Inflater, v: nat): Inflater {
    var q1 := q.(final := v);
    if v / 2 == 0 then q1.(pc := RawAlign)
    else if v / 2 == 1 then q1.(pc := LitLen, sizes0 := StaticLit(), sizes1 := StaticDist())
    else if v / 2 == 2 then q1.(pc := TableSize(0))
    else q1.(pc := Failed(10))
  }

  function RawHeader(q: Inflater, v: byte): Inflater
    requires q.pc.RawHdr? && q.pc.i <= 3 && |q.raw| == q.pc.i
  {
    var q1 := q.(raw := q.raw + [v]);
    if q.pc.i < 3 then q1.(pc := RawHdr(q.pc.i + 1))
    else
      var len, nlen := Le16(q1.raw, 0), Le16(q1.raw, 2);
      if len + nlen != 0xFFFF then q1.(counter := len, pc := Failed(39))
      else if len == 0 then EndBlock(q1.(counter := 0))
      else q1.(counter := len, pc := RawByte)
  }

  function TableSizes(q: Inflater, v: nat): Inflater
    requires q.pc.TableSize? && q.pc.i <= 2 && |q.tableSizes| == 3
  {
    var i := q.pc.i;
    var q1 := q.(tableSizes := q.tableSizes[i := v + (if i == 0 then 257 else if i == 1 then 1 else 4)]);
    if i < 2 then q1.(pc := TableSize(i + 1))
    else q1.(pc := CodeLenLen(0), sizes2 := seq(19, _ => 0))
  }

  function CodeLengthSizes(q: Inflater, v: nat): Inflater
    requires q.pc.CodeLenLen? && |q.tableSizes| == 3 && q.pc.i < q.tableSizes[2] <= 19 && |q.sizes2| == 19
  {
    var q1 := q.(sizes2 := q.sizes2[Transmitted(q.pc.i) := v]);
    if q.pc.i + 1 < q.tableSizes[2] then q1.(pc := CodeLenLen(q.pc.i + 1))
    else if Buildable(q1.sizes2) then q1.(pc := CodeLen, lenCodes := [])
    else q1.(pc := Failed(35))
  }

  /** After some code lengths have been added: go on, fail, or build both tables. */
  function CodeLengthsDone(q: Inflater): Inflater
    requires |q.tableSizes| == 3
  {
    var total := q.tableSizes[0] + q.tableSizes[1];
    if |q.lenCodes| < total then q.(pc := CodeLen)
    else if |q.lenCodes| != total then q.(pc := Failed(21))
    else
      var q1 := q.(sizes0 := q.lenCodes[..q.tableSizes[0]], sizes1 := q.lenCodes[q.tableSizes[0]..]);
      if Buildable(q1.sizes1) && Buildable(q1.sizes0) then q1.(pc := LitLen) else q1.(pc := Failed(35))
  }

  function Repeat(v: nat, n: nat): (r: seq<nat>)
    ensures |r| == n
  {
    seq(n, _ => v)
  }

  function CodeLength(q: Inflater, sym: nat): Inflater
    requires |q.tableSizes| == 3
  {
    if sym < 16 then CodeLengthsDone(q.(lenCodes := q.lenCodes + [sym]))
    else if sym == 16 && |q.lenCodes| == 0 then q.(pc := Failed(17))
    else q.(pc := CodeLenRep(sym))
  }

  function CodeLengthRepeat(q: Inflater, v: nat): Inflater
    requires |q.tableSizes| == 3 && q.pc.CodeLenRep? && (q.pc.rep == 16 ==> |q.lenCodes| > 0)
  {
    var n := v + (if q.pc.rep == 18 then 11 else 3);
    var len := if q.pc.rep == 16 then q.lenCodes[|q.lenCodes| - 1] else 0;
    CodeLengthsDone(q.(lenCodes := q.lenCodes + Repeat(len, n)))
  }

  function LitLenSym(q: Inflater, sym: nat): Inflater
    requires sym < 288
  {
    if sym < 256 then q.(pc := PutLit(sym))
    else if sym == 256 then EndBlock(q)
    else if LENGTH_EXTRA[sym - 257] > 0 then q.(pc := LenExtra(sym))
    else q.(counter := LENGTH_BASE[sym - 257], pc := DistSym)
  }

  /** The distance is known: check it, unless the buffer is circular, and copy unless the length is zero. */
  function StartCopy(q: Inflater, dist: nat): Inflater {
    if q.window == 0 && (dist == 0 || dist > |q.out|) then q.(dist := dist, pc := Failed(37))
    else if q.counter == 0 then q.(dist := dist, pc := LitLen)
    else q.(dist := dist, pc := Copy)
  }

  function DistanceSym(q: Inflater, sym: nat): Inflater
    requires sym < 32
  {
    if DIST_EXTRA[sym] > 0 then q.(pc := DistExtra(sym)) else StartCopy(q, DIST_BASE[sym])
  }

  function Emitted(q: Inflater, b: byte): Inflater {
    var q1 := q.(out := q.out + [b]);
    match q.pc
    case RawPut(_) =>
      var left := if q.counter == 0 then 0 else q.counter - 1;
      if left == 0 then EndBlock(q1.(counter := 0)) else q1.(counter := left, pc := RawByte)
    case Copy =>
      var left := if q.counter == 0 then 0 else q.counter - 1;
      q1.(counter := left, pc := if left == 0 then LitLen else Copy)
    case _ => q1.(pc := LitLen)
  }

  /** May the answer be `v`? */
  ghost predicate Answer(q: Inflater, v: nat)
    requires Ok(q)
  {
    match Want(q)
    case NeedBits(n) => v < Pow2(n)
    case NeedSymbol(t) => v == 0 || v < |SizesOf(q, t)|
    case AlignByte => true
    case Emit(b) => v == b
    case Halt => false
  }

  ghost function Feed(q: Inflater, v: nat): Inflater
    requires Ok(q) && Answer(q, v)
  {
    Pow2Values();
    match q.pc
    case ZHdr0 => q.(zhdr0 := v, pc := ZHdr1)
    case ZHdr1 =>
      q.(pc := if ZlibHeaderOk(q.zhdr0, v, q.window) then BlockHdr else Failed(36))
    case BlockHdr => BlockType(q, v)
    case RawAlign => q.(raw := [], pc := RawHdr(0))
    case RawHdr(_) => RawHeader(q, v)
    case RawByte => q.(pc := RawPut(v))
    case RawPut(b) => Emitted(q, b)
    case TableSize(_) => TableSizes(q, v)
    case CodeLenLen(_) => CodeLengthSizes(q, v)
    case CodeLen => CodeLength(q, v)
    case CodeLenRep(_) => CodeLengthRepeat(q, v)
    case LitLen => LitLenSym(q, v)
    case PutLit(b) => Emitted(q, b)
    case LenExtra(sym) => q.(counter := LENGTH_BASE[sym - 257] + v, pc := DistSym)
    case DistSym => DistanceSym(q, v)
    case DistExtra(sym) => StartCopy(q, DIST_BASE[sym] + v)
    case Copy => Emitted(q, v)
    case FinalAlign => q.(pc := if q.zlib then Trailer(0) else Done)
    case Trailer(i) =>
      q.(zAdler := (q.zAdler * 256 + v) % 0x1_0000_0000, pc := if i < 3 then Trailer(i + 1) else Done)
    case Done => q
    case Failed(_) => q
  }

  // ---------- the static code ----------

  lemma {:induction false} CountConstant(s: seq<nat>, lo: nat, n: nat, v: nat, l: nat)
    requires lo <= n <= |s| && forall i :: lo <= i < n ==> s[i] == v
    ensures CountTo(s, n, l) == CountTo(s, lo, l) + (if v == l then n - lo else 0)
  {
    if lo < n {
      CountConstant(s, lo, n - 1, v, l);
    }
  }

  lemma StaticCounts(l: nat)
    ensures Count(StaticLit(), l) == if l == 7 then 24 else if l == 8 then 152 else if l == 9 then 112 else 0
    ensures Count(StaticDist(), l) == if l == 5 then 32 else 0
  {
    var s := StaticLit();
    CountConstant(s, 0, 144, 8, l);
    CountConstant(s, 144, 256, 9, l);
    CountConstant(s, 256, 280, 7, l);
    CountConstant(s, 280, 288, 8, l);
    CountConstant(StaticDist(), 0, 32, 5, l);
  }

  /** `Covered` once the counts are known. */
  lemma CoveredStep(s: seq<nat>, l: nat, c: nat, n: nat)
    requires l > 0 && Covered(s, l - 1) == c && Count(s, l) == n
    ensures Covered(s, l) == 2 * c + n
  {
  }

  /** The static codes of RFC 1951, section 3.2.6, are complete. */
  lemma StaticComplete()
    ensures Complete(StaticLit()) && Complete(StaticDist())
    ensures Buildable(StaticLit()) && Buildable(StaticDist())
  {
    hide Count, Covered;
    var s, d := StaticLit(), StaticDist();
    forall l: nat
      ensures Count(s, l) == if l == 7 then 24 else if l == 8 then 152 else if l == 9 then 112 else 0
      ensures Count(d, l) == if l == 5 then 32 else 0
    {
      StaticCounts(l);
    }
    CoveredZero(s);
    CoveredZero(d);
    CoveredStep(s, 1, 0, 0); CoveredStep(s, 2, 0, 0); CoveredStep(s, 3, 0, 0);
    CoveredStep(s, 4, 0, 0); CoveredStep(s, 5, 0, 0); CoveredStep(s, 6, 0, 0);
    CoveredStep(s, 7, 0, 24); CoveredStep(s, 8, 24, 152); CoveredStep(s, 9, 200, 112);
    CoveredStep(s, 10, 512, 0); CoveredStep(s, 11, 1024, 0); CoveredStep(s, 12, 2048, 0);
    CoveredStep(s, 13, 4096, 0); CoveredStep(s, 14, 8192, 0); CoveredStep(s, 15, 16384, 0);
    CoveredStep(d, 1, 0, 0); CoveredStep(d, 2, 0, 0); CoveredStep(d, 3, 0, 0);
    CoveredStep(d, 4, 0, 0); CoveredStep(d, 5, 0, 32); CoveredStep(d, 6, 32, 0);
    CoveredStep(d, 7, 64, 0); CoveredStep(d, 8, 128, 0); CoveredStep(d, 9, 256, 0);
    CoveredStep(d, 10, 512, 0); CoveredStep(d, 11, 1024, 0); CoveredStep(d, 12, 2048, 0);
    CoveredStep(d, 13, 4096, 0); CoveredStep(d, 14, 8192, 0); CoveredStep(d, 15, 16384, 0);
    Pow2Values();
  }

  lemma CoveredZero(s: seq<nat>)
    ensures Covered(s, 0) == 0
  {
  }

  // ---------- one step, and runs of steps ----------

  lemma CodeLengthsDoneOk(q: Inflater)
    requires |q.tableSizes| == 3 && 257 <= q.tableSizes[0] <= 288 && 1 <= q.tableSizes[1] <= 32
    requires 4 <= q.tableSizes[2] <= 19
    requires |q.sizes2| == 19 && Buildable(q.sizes2) && q.window <= |q.out|
    requires forall k :: 0 <= k < |q.lenCodes| ==> q.lenCodes[k] <= 15
    ensures Ok(CodeLengthsDone(q))
  {
    hide Buildable;
  }

  lemma FeedOkZlib(q: Inflater, v: nat)
    requires Ok(q) && Answer(q, v)
    requires q.pc.ZHdr0? || q.pc.ZHdr1? || q.pc.RawAlign? || q.pc.FinalAlign? || q.pc.Trailer?
    ensures Ok(Feed(q, v))
  {
    hide Buildable, StaticLit, StaticDist, CodeLengthsDone, LENGTH_BASE, LENGTH_EXTRA, DIST_BASE, DIST_EXTRA,
      BlockType, RawHeader,
      TableSizes, CodeLengthSizes, CodeLength, CodeLengthRepeat, LitLenSym, DistanceSym, StartCopy, Emitted;
  }

  lemma FeedOkBlock(q: Inflater, v: nat)
    requires Ok(q) && Answer(q, v) && q.pc.BlockHdr?
    ensures Ok(Feed(q, v))
  {
    hide Pow2, Answer, Buildable, StaticLit, StaticDist, BlockType, Ok;
    FeedIsBlock(q, v);
    OkTableSizes(q);
    BlockTypeOk(q, v);
  }

  lemma FeedIsBlock(q: Inflater, v: nat)
    requires Ok(q) && Answer(q, v) && q.pc.BlockHdr?
    ensures Feed(q, v) == BlockType(q, v)
  {
    hide Answer, Ok, BlockType;
  }

  lemma StaticSizesOk()
    ensures SizesOk(StaticLit(), 288) && SizesOk(StaticDist(), 32)
  {
    hide Buildable, Complete;
    StaticComplete();
  }

  lemma BlockTypeOk(q: Inflater, v: nat)
    requires |q.tableSizes| == 3 && q.window <= |q.out|
    ensures Ok(BlockType(q, v))
  {
    hide SizesOk, StaticLit, StaticDist, Buildable;
    StaticSizesOk();
  }

  lemma OkTableSizes(q: Inflater)
    requires Ok(q)
    ensures |q.tableSizes| == 3 && q.window <= |q.out|
  {
  }

  lemma FeedOkRaw(q: Inflater, v: nat)
    requires Ok(q) && Answer(q, v)
    requires q.pc.RawHdr? || q.pc.RawByte? || q.pc.RawPut?
    ensures Ok(Feed(q, v))
  {
    hide Pow2, Buildable, StaticLit, StaticDist, CodeLengthsDone, LENGTH_BASE, LENGTH_EXTRA, DIST_BASE, DIST_EXTRA;
    Pow2Values();
  }

  lemma FeedOkTables(q: Inflater, v: nat)
    requires Ok(q) && Answer(q, v)
    requires q.pc.TableSize? || q.pc.CodeLenLen?
    ensures Ok(Feed(q, v))
  {
    hide Buildable, StaticLit, StaticDist, CodeLengthsDone, LENGTH_BASE, LENGTH_EXTRA, DIST_BASE, DIST_EXTRA;
    Pow2Values();
  }

  lemma FeedOkLengths(q: Inflater, v: nat)
    requires Ok(q) && Answer(q, v)
    requires q.pc.CodeLen? || q.pc.CodeLenRep?
    ensures Ok(Feed(q, v))
  {
    hide Buildable, StaticLit, StaticDist, CodeLengthsDone, LENGTH_BASE, LENGTH_EXTRA, DIST_BASE, DIST_EXTRA;
    if q.pc.CodeLen? {
      if v < 16 {
        CodeLengthsDoneOk(q.(lenCodes := q.lenCodes + [v]));
      }
    } else {
      var n := v + (if q.pc.rep == 18 then 11 else 3);
      var len := if q.pc.rep == 16 then q.lenCodes[|q.lenCodes| - 1] else 0;
      CodeLengthsDoneOk(q.(lenCodes := q.lenCodes + Repeat(len, n)));
    }
  }

  lemma FeedOkData(q: Inflater, v: nat)
    requires Ok(q) && Answer(q, v)
    requires q.pc.LitLen? || q.pc.PutLit? || q.pc.LenExtra? || q.pc.DistSym? || q.pc.DistExtra? || q.pc.Copy?
    ensures Ok(Feed(q, v))
  {
    hide Buildable, StaticLit, StaticDist, CodeLengthsDone, LENGTH_BASE, LENGTH_EXTRA, DIST_BASE, DIST_EXTRA;
  }

  /** Every answer leads to a proper resumption point. */
  lemma FeedOk(q: Inflater, v: nat)
    requires Ok(q) && Answer(q, v)
    ensures Ok(Feed(q, v))
  {
    hide Ok, Answer, Feed;
    match q.pc
    case TableSize(_) => FeedOkTables(q, v);
    case CodeLenLen(_) => FeedOkTables(q, v);
    case CodeLen => FeedOkLengths(q, v);
    case CodeLenRep(_) => FeedOkLengths(q, v);
    case LitLen => FeedOkData(q, v);
    case PutLit(_) => FeedOkData(q, v);
    case LenExtra(_) => FeedOkData(q, v);
    case DistSym => FeedOkData(q, v);
    case DistExtra(_) => FeedOkData(q, v);
    case Copy => FeedOkData(q, v);
    case Done => NoAnswer(q, v);
    case Failed(_) => NoAnswer(q, v);
    case BlockHdr => FeedOkBlock(q, v);
    case RawHdr(_) => FeedOkRaw(q, v);
    case RawByte => FeedOkRaw(q, v);
    case RawPut(_) => FeedOkRaw(q, v);
    case _ => FeedOkZlib(q, v);
  }

  /** A halted machine asks for nothing. */
  lemma NoAnswer(q: Inflater, v: nat)
    requires Ok(q) && (q.pc.Done? || q.pc.Failed?)
    ensures !Answer(q, v)
  {
  }

  datatype StepResult = Stuck | Next(q: Inflater, rest: bits)

  /** What the environment answers when the bits `s` are available; only the prefix that is used matters. */
  ghost function Step(q: Inflater, s: bits): StepResult
    requires Ok(q)
  {
    match Want(q)
    case NeedBits(n) =>
      if |s| < n then Stuck
      else
        ValBound(s[..n]);
        Next(Feed(q, Val(s[..n])), s[n..])
    case NeedSymbol(t) =>
      var d := Decode(SizesOf(q, t), s);
      if d.None? then Stuck
      else
        DecodeInRange(SizesOf(q, t), s);
        Next(Feed(q, d.value.sym), if d.value.len <= |s| then s[d.value.len..] else [])
    case AlignByte => Next(Feed(q, 0), s[|s| % 8..])
    case Emit(b) => Next(Feed(q, b), s)
    case Halt => Stuck
  }

  lemma DecodeInRange(sizes: seq<nat>, s: bits)
    ensures Decode(sizes, s).Some? ==> Decode(sizes, s).value.sym == 0 || Decode(sizes, s).value.sym < |sizes|
  {
    hide Interior, CodeWord;
    if !(exists t :: Uses(sizes, t) && CodeWord(sizes, t) <= s) && Decode(sizes, s).Some? {
      if |s| > FAST_BITS && Interior(sizes, s[..FAST_BITS]) {
        FirstExitSym(sizes, s, FAST_BITS + 1);
      }
    }
  }

  lemma {:induction false} FirstExitSym(sizes: seq<nat>, a: bits, k: nat)
    ensures FirstExit(sizes, a, k).Some? ==> FirstExit(sizes, a, k).value.sym == 0
    decreases |a| - k
  {
    if k <= |a| && Interior(sizes, a[..k]) {
      FirstExitSym(sizes, a, k + 1);
    }
  }

  lemma StepOk(q: Inflater, s: bits)
    requires Ok(q)
    ensures Step(q, s).Next? ==> Ok(Step(q, s).q)
  {
    hide Ok, Feed, Decode;
    match Want(q)
    case NeedBits(n) =>
      if |s| >= n {
        ValBound(s[..n]);
        FeedOk(q, Val(s[..n]));
      }
    case NeedSymbol(t) =>
      if Decode(SizesOf(q, t), s).Some? {
        DecodeInRange(SizesOf(q, t), s);
        FeedOk(q, Decode(SizesOf(q, t), s).value.sym);
      }
    case AlignByte => FeedOk(q, 0);
    case Emit(b) => FeedOk(q, b);
    case Halt =>
  }

  /** `n` steps; `None` if the machine gets stuck earlier. */
  ghost function StepN(n: nat, q: Inflater, s: bits): Option<(Inflater, bits)>
    requires Ok(q)
    decreases n
  {
    if n == 0 then Some((q, s))
    else
      var r := Step(q, s);
      if r.Stuck? then None
      else
        StepOk(q, s);
        StepN(n - 1, r.q, r.rest)
  }

  /** From `q` with the bits `s` ahead the machine gets to `q'` with `s'` ahead. */
  ghost predicate Reaches(q: Inflater, s: bits, q': Inflater, s': bits) {
    Ok(q) && exists n: nat :: StepN(n, q, s) == Some((q', s'))
  }

  lemma ReachRefl(q: Inflater, s: bits)
    requires Ok(q)
    ensures Reaches(q, s, q, s)
  {
    assert StepN(0, q, s) == Some((q, s));
  }

  lemma {:induction false} StepNOk(n: nat, q: Inflater, s: bits)
    requires Ok(q)
    ensures StepN(n, q, s).Some? ==> Ok(StepN(n, q, s).value.0)
  {
    hide Ok, Step;
    if n > 0 && Step(q, s).Next? {
      StepOk(q, s);
      StepNOk(n - 1, Step(q, s).q, Step(q, s).rest);
    }
  }

  lemma ReachOk(q: Inflater, s: bits, q': Inflater, s': bits)
    requires Reaches(q, s, q', s')
    ensures Ok(q) && Ok(q')
  {
    hide Ok, StepN;
    var n: nat :| StepN(n, q, s) == Some((q', s'));
    StepNOk(n, q, s);
  }

  lemma {:induction false} StepNAdd(m: nat, n: nat, q: Inflater, s: bits)
    requires Ok(q) && StepN(m, q, s).Some?
    ensures Ok(StepN(m, q, s).value.0)
    ensures StepN(m + n, q, s) == StepN(n, StepN(m, q, s).value.0, StepN(m, q, s).value.1)
  {
    hide Ok, Step;
    if m > 0 {
      StepOk(q, s);
      StepNAdd(m - 1, n, Step(q, s).q, Step(q, s).rest);
    }
  }

  lemma ReachTrans(q0: Inflater, s0: bits, q1: Inflater, s1: bits, q2: Inflater, s2: bits)
    requires Reaches(q0, s0, q1, s1) && Reaches(q1, s1, q2, s2)
    ensures Reaches(q0, s0, q2, s2)
  {
    hide Ok, StepN;
    var m: nat :| StepN(m, q0, s0) == Some((q1, s1));
    var n: nat :| StepN(n, q1, s1) == Some((q2, s2));
    StepNAdd(m, n, q0, s0);
  }

  lemma ReachStep(q: Inflater, s: bits)
    requires Ok(q) && Step(q, s).Next?
    ensures Reaches(q, s, Step(q, s).q, Step(q, s).rest)
  {
    hide Ok, Step;
    StepOk(q, s);
    assert StepN(0, Step(q, s).q, Step(q, s).rest) == Some((Step(q, s).q, Step(q, s).rest));
    assert StepN(1, q, s) == Some((Step(q, s).q, Step(q, s).rest));
  }

  // ---------- more input changes nothing that was done ----------

  lemma BuildableWhenUsed(q: Inflater)
    requires Ok(q) && Want(q).NeedSymbol?
    ensures Buildable(SizesOf(q, Want(q).table)) && |SizesOf(q, Want(q).table)| <= 288
  {
    hide Buildable;
  }

  /** A step taken with the bits `s` is taken in the same way when whole bytes follow them. */
  lemma StepExtend(q: Inflater, s: bits, t: bits)
    requires Ok(q) && Step(q, s).Next? && |t| % 8 == 0
    ensures Step(q, s + t) == Next(Step(q, s).q, Step(q, s).rest + t)
  {
    hide Ok, Feed, Decode, Buildable;
    match Want(q)
    case NeedBits(n) =>
      assert (s + t)[..n] == s[..n] && (s + t)[n..] == s[n..] + t;
    case NeedSymbol(table) =>
      BuildableWhenUsed(q);
      BuildableValid(SizesOf(q, table));
      DecodeStable(SizesOf(q, table), s, t);
      var d := Decode(SizesOf(q, table), s).value;
      assert (s + t)[d.len..] == s[d.len..] + t;
    case AlignByte =>
      var k := |s| % 8;
      assert |s + t| % 8 == k;
      assert (s + t)[k..] == s[k..] + t;
    case Emit(b) =>
    case Halt =>
  }

  lemma {:induction false} StepNExtend(n: nat, q: Inflater, s: bits, t: bits)
    requires Ok(q) && StepN(n, q, s).Some? && |t| % 8 == 0
    ensures StepN(n, q, s + t) == Some((StepN(n, q, s).value.0, StepN(n, q, s).value.1 + t))
  {
    hide Ok, Step;
    if n > 0 {
      StepExtend(q, s, t);
      StepOk(q, s);
      StepNExtend(n - 1, Step(q, s).q, Step(q, s).rest, t);
    }
  }

  lemma ReachExtend(q: Inflater, s: bits, q': Inflater, s': bits, t: bits)
    requires Reaches(q, s, q', s') && |t| % 8 == 0
    ensures Reaches(q, s + t, q', s' + t)
  {
    hide Ok, StepN;
    var n: nat :| StepN(n, q, s) == Some((q', s'));
    StepNExtend(n, q, s, t);
  }

  /** The machine is deterministic: two runs from one state that both end stuck end in the same state. */
  lemma StuckUnique(q: Inflater, s: bits, qa: Inflater, sa: bits, qb: Inflater, sb: bits)
    requires Reaches(q, s, qa, sa) && Reaches(q, s, qb, sb)
    requires Ok(qa) && Ok(qb) && Step(qa, sa).Stuck? && Step(qb, sb).Stuck?
    ensures qa == qb && sa == sb
  {
    hide Ok, Step;
    var m: nat :| StepN(m, q, s) == Some((qa, sa));
    var n: nat :| StepN(n, q, s) == Some((qb, sb));
    if m <= n {
      StepNAdd(m, n - m, q, s);
    } else {
      StepNAdd(n, m - n, q, s);
    }
  }

  /** A stuck machine goes nowhere. */
  lemma StuckStays(q: Inflater, s: bits, q': Inflater, s': bits)
    requires Reaches(q, s, q', s') && Ok(q) && Step(q, s).Stuck?
    ensures q' == q && s' == s
  {
    hide Ok, Step;
    var n: nat :| StepN(n, q, s) == Some((q', s'));
  }

  /** Of two runs over the same input, one has only got further: its output extends the other's. */
  lemma OneGoesFurther(q: Inflater, s: bits, qa: Inflater, sa: bits, qb: Inflater, sb: bits)
    requires Reaches(q, s, qa, sa) && Reaches(q, s, qb, sb)
    ensures Reaches(qa, sa, qb, sb) || Reaches(qb, sb, qa, sa)
  {
    hide Ok, Step;
    var m: nat :| StepN(m, q, s) == Some((qa, sa));
    var n: nat :| StepN(n, q, s) == Some((qb, sb));
    if m <= n {
      StepNAdd(m, n - m, q, s);
    } else {
      StepNAdd(n, m - n, q, s);
    }
  }

  /** Output grows by exactly the byte for which room was requested. */
  lemma FeedOutput(q: Inflater, v: nat)
    requires Ok(q) && Answer(q, v)
    ensures Feed(q, v).out == if Want(q).Emit? then q.out + [Want(q).b] else q.out
  {
    hide Pow2, Buildable, StaticLit, StaticDist, LENGTH_BASE, LENGTH_EXTRA, DIST_BASE, DIST_EXTRA, CodeLengthsDone,
      SizesOk;
    match q.pc
    case CodeLen =>
      if v < 16 {
        DoneOutput(q.(lenCodes := q.lenCodes + [v]));
      }
    case CodeLenRep(rep) =>
      var n := v + (if rep == 18 then 11 else 3);
      var len := if rep == 16 then q.lenCodes[|q.lenCodes| - 1] else 0;
      DoneOutput(q.(lenCodes := q.lenCodes + Repeat(len, n)));
    case _ =>
  }

  lemma DoneOutput(q: Inflater)
    requires |q.tableSizes| == 3
    ensures CodeLengthsDone(q).out == q.out
  {
    hide Buildable;
  }

  lemma StepOutput(q: Inflater, s: bits)
    requires Ok(q) && Step(q, s).Next?
    ensures Step(q, s).q.out == if Want(q).Emit? then q.out + [Want(q).b] else q.out
  {
    hide Ok, Feed, Decode, Buildable;
    match Want(q)
    case NeedBits(n) =>
      ValBound(s[..n]);
      FeedOutput(q, Val(s[..n]));
    case NeedSymbol(t) =>
      DecodeInRange(SizesOf(q, t), s);
      FeedOutput(q, Decode(SizesOf(q, t), s).value.sym);
    case AlignByte => FeedOutput(q, 0);
    case Emit(b) => FeedOutput(q, b);
    case Halt =>
  }

  lemma {:induction false} StepNOutput(n: nat, q: Inflater, s: bits)
    requires Ok(q) && StepN(n, q, s).Some?
    ensures q.out <= StepN(n, q, s).value.0.out
  {
    hide Ok, Step;
    if n > 0 {
      StepOk(q, s);
      StepOutput(q, s);
      StepNOutput(n - 1, Step(q, s).q, Step(q, s).rest);
    }
  }

  lemma ReachOutput(q: Inflater, s: bits, q': Inflater, s': bits)
    requires Reaches(q, s, q', s')
    ensures q.out <= q'.out
  {
    hide Ok, StepN;
    var n: nat :| StepN(n, q, s) == Some((q', s'));
    StepNOutput(n, q, s);
  }
}
