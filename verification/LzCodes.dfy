/** The compressor's LZ code buffer: a flag byte before every eight tokens, one byte for a literal and
    three for a match (src/external/miniz.h:3060-3101, 3587-3625).  `Pack` is the format; recording
    fills it from the front and `CompressLzCodes` reads it back while emitting Huffman codes. */
module LzCodes {
  import opened Bits
  import opened Canonical
  import opened Tokens
  import opened BitWriting
  import opened BlockBody
  import opened MergeQueues
  import opened MinRedundancy

  const LZ_CODE_BUF_SIZE: nat := 0x1_0000

  // ---------- the format ----------

  function TokenBytes(t: Token): seq<byte>
    requires ValidToken(t)
  {
    match t
    case Literal(b) => [b]
    case Match(len, dist) => [len - MIN_MATCH_LEN, (dist - 1) % 256, (dist - 1) / 256]
  }

  function Body(g: seq<Token>): seq<byte>
    requires ValidTokens(g)
  {
    if |g| == 0 then [] else TokenBytes(g[0]) + Body(g[1..])
  }

  /** Bit `i` says whether token `i` is a match. */
  function Flags(g: seq<Token>): (f: nat) {
    if |g| == 0 then 0 else Bit(g[0].Match?) + 2 * Flags(g[1..])
  }

  lemma {:induction false} FlagsBound(g: seq<Token>)
    ensures Flags(g) < Pow2(|g|)
  {
    if |g| > 0 {
      FlagsBound(g[1..]);
    }
  }

  function FlagByte(g: seq<Token>): byte
    requires |g| <= 8
  {
    FlagsBound(g);
    Pow2Mono(|g|, 8);
    Pow2Values();
    Flags(g)
  }

  function Pack(ts: seq<Token>): seq<byte>
    requires ValidTokens(ts)
  {
    if |ts| == 0 then []
    else if |ts| <= 8 then [FlagByte(ts)] + Body(ts)
    else [FlagByte(ts[..8])] + Body(ts[..8]) + Pack(ts[8..])
  }

  lemma {:induction false} BodySnoc(g: seq<Token>, t: Token)
    requires ValidTokens(g) && ValidToken(t)
    ensures Body(g + [t]) == Body(g) + TokenBytes(t)
  {
    if |g| == 0 {
      assert [t][1..] == [];
      assert TokenBytes(t) + [] == TokenBytes(t);
      assert g + [t] == [t];
    } else {
      assert (g + [t])[1..] == g[1..] + [t];
      BodySnoc(g[1..], t);
      var x, y, z := TokenBytes(g[0]), Body(g[1..]), TokenBytes(t);
      assert x + (y + z) == (x + y) + z;
    }
  }

  lemma {:induction false} FlagsSnoc(g: seq<Token>, t: Token)
    ensures Flags(g + [t]) == Flags(g) + Bit(t.Match?) * Pow2(|g|)
  {
    if |g| == 0 {
      assert [t][1..] == [];
      assert g + [t] == [t];
    } else {
      assert (g + [t])[1..] == g[1..] + [t];
      FlagsSnoc(g[1..], t);
    }
  }

  /** Complete groups are packed one after the other. */
  lemma {:induction false} PackGroups(ts: seq<Token>, g: seq<Token>)
    requires ValidTokens(ts) && ValidTokens(g) && |ts| % 8 == 0 && |g| <= 8
    ensures Pack(ts + g) == Pack(ts) + Pack(g)
  {
    if |ts| == 0 {
      assert ts + g == g;
    } else if |g| == 0 {
      assert ts + g == ts;
    } else {
      var u := ts + g;
      assert u[..8] == ts[..8] && u[8..] == ts[8..] + g;
      PackGroups(ts[8..], g);
      var x, y, z := [FlagByte(ts[..8])] + Body(ts[..8]), Pack(ts[8..]), Pack(g);
      assert x + (y + z) == (x + y) + z;
      if |ts| == 8 {
        assert ts[..8] == ts && ts[8..] == [];
        assert x + [] == x;
      }
    }
  }

  // ---------- recording ----------

  lemma HalveFlag(f: nat, left: nat, k: nat, bit: nat)
    requires f < 256 && 1 <= left <= 8 && k == 8 - left && bit <= 1
    ensures (f / 2 + 128 * bit) / Pow2(left - 1) == f / Pow2(left) + bit * Pow2(k)
  {
    HalvePowers(left, k);
    HalveParts(f, Pow2(left - 1), Pow2(k), bit, Pow2(left));
  }

  lemma HalvePowers(left: nat, k: nat)
    requires 1 <= left <= 8 && k == 8 - left
    ensures Pow2(left - 1) * Pow2(k) == 128 && Pow2(left) == 2 * Pow2(left - 1)
  {
    Pow2Add(left - 1, k);
    Pow2Values();
  }

  lemma HalveParts(f: nat, p: nat, c: nat, bit: nat, p2: nat)
    requires p > 0 && p * c == 128 && p2 == 2 * p
    ensures (f / 2 + 128 * bit) / p == f / p2 + bit * c
  {
    DivDiv(f, p);
    var q, r := (f / 2) / p, (f / 2) % p;
    assert f / 2 == q * p + r;
    assert (q + bit * c) * p == q * p + bit * (p * c);
    DivModUnique(f / 2 + 128 * bit, p, q + bit * c, r);
  }

  lemma {:induction false} SumUpdate(s: seq<nat>, k: nat, v: nat)
    requires k < |s|
    ensures Sum(s[k := v]) == Sum(s) - s[k] + v
  {
    if k == 0 {
      assert s[k := v][1..] == s[1..];
    } else {
      SumUpdate(s[1..], k - 1, v);
      assert s[k := v][1..] == s[1..][k - 1 := v];
    }
  }

  function Zeros(n: nat): (r: seq<nat>)
    ensures |r| == n && forall i :: 0 <= i < n ==> r[i] == 0
  {
    seq(n, _ => 0)
  }

  function LitSymbol(t: Token): (s: nat)
    requires ValidToken(t)
    ensures s < 286
  {
    if t.Literal? then t.lit else LenSymbol(t.len)
  }

  /** How often each literal or length symbol occurs. */
  function LitCounts(ts: seq<Token>): (r: seq<nat>)
    requires ValidTokens(ts)
    ensures |r| == 288
  {
    if |ts| == 0 then Zeros(288) else Bump(LitCounts(ts[..|ts| - 1]), LitSymbol(ts[|ts| - 1]))
  }

  /** How often each distance symbol occurs. */
  function DistCounts(ts: seq<Token>): (r: seq<nat>)
    requires ValidTokens(ts)
    ensures |r| == 32
  {
    if |ts| == 0 then Zeros(32)
    else
      var t, c := ts[|ts| - 1], DistCounts(ts[..|ts| - 1]);
      if t.Match? then Bump(c, DistSymbol(t.dist)) else c
  }

  /** Every symbol of every token has been counted, and nothing else. */
  ghost predicate Counted(count0: seq<nat>, count1: seq<nat>, ts: seq<Token>)
    requires ValidTokens(ts)
  {
    && count0 == LitCounts(ts) && count1 == DistCounts(ts)
    && Sum(count0) == |ts| && Sum(count1) <= |ts|
    && count0[256] == count0[286] == count0[287] == 0 && count1[30] == count1[31] == 0
    && forall i :: 0 <= i < |ts| ==> TokenCounted(count0, count1, ts[i])
  }

  ghost predicate TokenCounted(count0: seq<nat>, count1: seq<nat>, t: Token)
    requires ValidToken(t) && |count0| == 288 && |count1| == 32
  {
    match t
    case Literal(b) => count0[b] > 0
    case Match(len, dist) => count0[LenSymbol(len)] > 0 && count1[DistSymbol(dist)] > 0
  }

  function LenSymbol(len: nat): (s: nat)
    requires MIN_MATCH_LEN <= len <= MAX_MATCH_LEN
    ensures 257 <= s < 286
  {
    LengthAgrees(len - MIN_MATCH_LEN);
    LenSym(len - MIN_MATCH_LEN)
  }

  function DistSymbol(dist: nat): (s: nat)
    requires 1 <= dist <= LZ_DICT_SIZE
    ensures s < 30
  {
    DistAgrees(dist - 1);
    DistSymOf(dist - 1)
  }

  function Bump(count: seq<nat>, k: nat): (r: seq<nat>)
    requires k < |count|
    ensures |r| == |count|
  {
    count[k := count[k] + 1]
  }

  lemma CountedSnoc(count0: seq<nat>, count1: seq<nat>, ts: seq<Token>, t: Token)
    requires ValidTokens(ts) && ValidToken(t) && Counted(count0, count1, ts)
    ensures ValidTokens(ts + [t])
    ensures t.Literal? ==> Counted(Bump(count0, t.lit), count1, ts + [t])
    ensures t.Match? ==> Counted(Bump(count0, LenSymbol(t.len)), Bump(count1, DistSymbol(t.dist)), ts + [t])
  {
    hide Sum, LenSymbol, DistSymbol;
    assert (ts + [t])[..|ts|] == ts;
    if t.Literal? {
      SumUpdate(count0, t.lit, count0[t.lit] + 1);
    } else {
      SumUpdate(count0, LenSymbol(t.len), count0[LenSymbol(t.len)] + 1);
      SumUpdate(count1, DistSymbol(t.dist), count1[DistSymbol(t.dist)] + 1);
    }
  }

  /** The buffer between two records: complete groups below the current flag byte, the current group's
      codes after it, its flags in the high bits of the flag byte. */
  ghost predicate Holding(buf: seq<byte>, codePos: nat, flagsPos: nat, flagsLeft: nat, full: seq<Token>,
                          part: seq<Token>) {
    && ValidTokens(full) && ValidTokens(part)
    && |full| % 8 == 0 && 1 <= flagsLeft <= 8 && |part| == 8 - flagsLeft
    && flagsPos < codePos <= |buf|
    && buf[..flagsPos] == Pack(full)
    && buf[flagsPos + 1..codePos] == Body(part)
    && buf[flagsPos] / Pow2(flagsLeft) == Flags(part)
    && codePos >= |full| + |full| / 8 + |part| + 1
  }

  class LzBuffer {
    const buf: array<byte>
    var codePos: nat
    var flagsPos: nat
    var flagsLeft: nat
    var totalBytes: nat
    var count0: seq<nat>
    var count1: seq<nat>

    /** The tokens recorded since the last flush: complete groups of eight, and the current group. */
    ghost var full: seq<Token>
    ghost var part: seq<Token>

    ghost function Tokens(): seq<Token>
      reads this
    {
      full + part
    }

    ghost predicate Valid()
      reads this, buf
    {
      && buf.Length == LZ_CODE_BUF_SIZE
      && Holding(buf[..], codePos, flagsPos, flagsLeft, full, part)
      && totalBytes == TotalLen(Tokens())
      && Counted(count0, count1, Tokens())
    }

    /** However well the data compresses, one block covers less than 17 MiB of it. */
    lemma BlockLength()
      requires Valid()
      ensures TotalLen(Tokens()) <= MAX_MATCH_LEN * LZ_CODE_BUF_SIZE
    {
      hide Pack, Body, Flags, Pow2, Counted, TotalLen;
      assert ValidTokens(Tokens());
      TotalLenBound(Tokens());
    }

    constructor ()
      ensures Valid() && Tokens() == [] && fresh(buf) && buf.Length == LZ_CODE_BUF_SIZE && totalBytes == 0
      ensures codePos == 1
    {
      buf := new byte[LZ_CODE_BUF_SIZE](_ => 0);
      codePos, flagsPos, flagsLeft, totalBytes := 1, 0, 8, 0;
      count0, count1 := Zeros(288), Zeros(32);
      full, part := [], [];
      new;
      hide Holding, Counted, Zeros;
      assert full + part == [];
      NothingHeld(buf[..]);
      NothingCounted();
    }

    /** The end of both recording functions: a new flag byte after every eight tokens. */
    method NextFlag(ghost t: Token)
      requires Bufs() && flagsPos + 1 < codePos < buf.Length && 1 <= flagsLeft <= 8
      requires HoldingNext(buf[..], codePos, flagsPos, flagsLeft - 1, full, part + [t])
      modifies this`flagsLeft, this`flagsPos, this`codePos, this`full, this`part
      ensures Holding(buf[..], codePos, flagsPos, flagsLeft, full, part)
      ensures Tokens() == old(Tokens()) + [t]
      ensures codePos <= old(codePos) + 1
    {
      flagsLeft := flagsLeft - 1;
      ghost var before := full + part;
      part := part + [t];
      assert before + [t] == full + part;
      if flagsLeft == 0 {
        GroupComplete(buf[..], codePos, flagsPos, full, part);
        full, part := full + part, [];
        flagsLeft := 8;
        flagsPos := codePos;
        codePos := codePos + 1;
        assert full + part == full;
      }
    }

    ghost predicate Bufs()
      reads this
    {
      buf.Length == LZ_CODE_BUF_SIZE
    }

    /** `tdefl_record_literal` */
    method RecordLiteral(lit: byte)
      requires Valid() && codePos + 2 <= buf.Length
      modifies this, buf
      ensures Valid() && Tokens() == old(Tokens()) + [Literal(lit)]
      ensures codePos <= old(codePos) + 2
    {
      hide Pack, Body, Flags, Counted, TotalLen, Holding, HoldingNext, LenSymbol, DistSymbol, BitOr128;
      HoldingShape(buf[..], codePos, flagsPos, flagsLeft, full, part);
      CountsShape(count0, count1, Tokens());
      ghost var t := Literal(lit);
      TotalSnoc(Tokens(), t);
      CountedSnoc(count0, count1, Tokens(), t);
      ghost var was := buf[..];
      totalBytes := totalBytes + 1;
      buf[codePos] := lit;
      codePos := codePos + 1;
      buf[flagsPos] := buf[flagsPos] / 2;
      Recorded(was, buf[..], codePos - 1, flagsPos, flagsLeft, full, part, t);
      NextFlag(t);
      count0 := Bump(count0, lit);
    }

    /** `tdefl_record_match` */
    method RecordMatch(matchLen: nat, matchDist: nat)
      requires Valid() && codePos + 4 <= buf.Length
      requires MIN_MATCH_LEN <= matchLen <= MAX_MATCH_LEN && 1 <= matchDist <= LZ_DICT_SIZE
      modifies this, buf
      ensures Valid() && Tokens() == old(Tokens()) + [Match(matchLen, matchDist)]
      ensures codePos <= old(codePos) + 4
    {
      hide Pack, Body, Flags, Counted, TotalLen, Holding, HoldingNext, LenSymbol, DistSymbol, BitOr128;
      HoldingShape(buf[..], codePos, flagsPos, flagsLeft, full, part);
      CountsShape(count0, count1, Tokens());
      ghost var t := Match(matchLen, matchDist);
      TotalSnoc(Tokens(), t);
      CountedSnoc(count0, count1, Tokens(), t);
      ghost var was := buf[..];
      totalBytes := totalBytes + matchLen;
      buf[codePos] := matchLen - MIN_MATCH_LEN;
      var d := matchDist - 1;
      buf[codePos + 1] := d % 256;
      buf[codePos + 2] := d / 256;
      codePos := codePos + 3;
      buf[flagsPos] := BitOr128(buf[flagsPos] / 2);
      Recorded(was, buf[..], codePos - 3, flagsPos, flagsLeft, full, part, t);
      NextFlag(t);
      count1 := Bump(count1, DistSymbol(matchDist));
      count0 := Bump(count0, LenSymbol(matchLen));
    }

    /** The flag fix-up at the start of `tdefl_flush_block` (src/external/miniz.h:3136-3137). */
    method Close()
      requires Valid()
      modifies this`codePos, buf
      ensures buf.Length == LZ_CODE_BUF_SIZE && codePos <= buf.Length && codePos <= old(codePos)
      ensures buf[..codePos] == Pack(Tokens())
    {
      hide Pack, Body, Flags, Counted, TotalLen;
      ShrDiv(buf[flagsPos], flagsLeft);
      ghost var was := buf[..];
      buf[flagsPos] := Shr(buf[flagsPos], flagsLeft);
      if flagsLeft == 8 {
        codePos := codePos - 1;
      }
      Closed(was, buf[..], if flagsLeft == 8 then codePos + 1 else codePos, flagsPos, flagsLeft, full, part);
    }

    /** The reset at the end of `tdefl_flush_block` (src/external/miniz.h:3237-3241). */
    method Reset()
      requires buf.Length == LZ_CODE_BUF_SIZE
      modifies this
      ensures Valid() && Tokens() == [] && totalBytes == 0 && codePos == 1
    {
      hide Holding, Counted, Zeros;
      codePos, flagsPos, flagsLeft, totalBytes := 1, 0, 8, 0;
      count0, count1 := Zeros(288), Zeros(32);
      full, part := [], [];
      assert full + part == [];
      NothingHeld(buf[..]);
      NothingCounted();
    }
  }

  lemma NothingHeld(buf: seq<byte>)
    requires |buf| > 1
    ensures Holding(buf, 1, 0, 8, [], []) && TotalLen([]) == 0
  {
    EmptyGroup(buf, 0);
  }

  lemma NothingCounted()
    ensures ValidTokens([]) && Counted(Zeros(288), Zeros(32), [])
  {
    ZeroCounts(Zeros(288));
    ZeroCounts(Zeros(32));
  }

  /** As `Holding`, but possibly with all eight flags used. */
  ghost predicate HoldingNext(buf: seq<byte>, codePos: nat, flagsPos: nat, left: nat, full: seq<Token>,
                              part: seq<Token>) {
    && ValidTokens(full) && ValidTokens(part)
    && |full| % 8 == 0 && left <= 7 && |part| == 8 - left
    && flagsPos < codePos <= |buf|
    && buf[..flagsPos] == Pack(full)
    && buf[flagsPos + 1..codePos] == Body(part)
    && buf[flagsPos] / Pow2(left) == Flags(part)
    && codePos >= |full| + |full| / 8 + |part| + 1
  }

  lemma {:induction false} ZeroCounts(s: seq<nat>)
    requires forall i :: 0 <= i < |s| ==> s[i] == 0
    ensures Sum(s) == 0
  {
    if |s| > 0 {
      ZeroCounts(s[1..]);
    }
  }

  lemma CountsShape(count0: seq<nat>, count1: seq<nat>, ts: seq<Token>)
    requires ValidTokens(ts) && Counted(count0, count1, ts)
    ensures |count0| == 288 && |count1| == 32
  {
  }

  lemma HoldingShape(buf: seq<byte>, codePos: nat, flagsPos: nat, flagsLeft: nat, full: seq<Token>, part: seq<Token>)
    requires Holding(buf, codePos, flagsPos, flagsLeft, full, part)
    ensures flagsPos < codePos <= |buf| && ValidTokens(full + part) && 1 <= flagsLeft <= 8
  {
  }

  lemma TotalSnoc(ts: seq<Token>, t: Token)
    ensures TotalLen(ts + [t]) == TotalLen(ts) + TokenLen(t)
  {
    assert (ts + [t])[..|ts|] == ts;
  }

  /** `(mz_uint8)(x | 0x80)` */
  function BitOr128(x: nat): (r: byte)
    requires x < 128
    ensures r == x + 128
  {
    Pow2Values();
    OrShifted(x, 1, 7);
    BitOr(x, 128)
  }

  lemma Recorded(was: seq<byte>, buf: seq<byte>, at: nat, flagsPos: nat, left: nat, full: seq<Token>, part: seq<Token>,
                 t: Token)
    requires Holding(was, at, flagsPos, left, full, part) && ValidToken(t)
    requires |buf| == |was| && at + |TokenBytes(t)| <= |buf|
    requires buf[at..at + |TokenBytes(t)|] == TokenBytes(t)
    requires buf[flagsPos] == was[flagsPos] / 2 + 128 * Bit(t.Match?)
    requires forall i :: 0 <= i < at && i != flagsPos ==> buf[i] == was[i]
    ensures HoldingNext(buf, at + |TokenBytes(t)|, flagsPos, left - 1, full, part + [t])
  {
    hide Pack, Flags, Pow2;
    HalveFlag(was[flagsPos], left, |part|, Bit(t.Match?));
    FlagsSnoc(part, t);
    BodySnoc(part, t);
    var n := at + |TokenBytes(t)|;
    assert buf[flagsPos + 1..n] == was[flagsPos + 1..at] + TokenBytes(t);
    assert buf[..flagsPos] == was[..flagsPos];
  }

  lemma GroupComplete(buf: seq<byte>, codePos: nat, flagsPos: nat, full: seq<Token>, part: seq<Token>)
    requires HoldingNext(buf, codePos, flagsPos, 0, full, part) && codePos < |buf|
    ensures Holding(buf, codePos + 1, codePos, 8, full + part, [])
  {
    hide Body, Flags;
    assert Pow2(8) == 256 && Pow2(0) == 1 by { Pow2Values(); }
    PackGroups(full, part);
    assert FlagByte(part) == buf[flagsPos];
    assert Pack(part) == [buf[flagsPos]] + Body(part);
    assert buf[..codePos] == buf[..flagsPos] + ([buf[flagsPos]] + buf[flagsPos + 1..codePos]);
    assert buf[..codePos] == Pack(full + part);
    EmptyGroup(buf, codePos);
  }

  lemma EmptyGroup(buf: seq<byte>, at: nat)
    requires at < |buf|
    ensures buf[at + 1..at + 1] == Body([]) && buf[at] / Pow2(8) == Flags([])
  {
    Pow2Values();
  }

  /** No token has been recorded since the last flag byte was reserved: it is dropped. */
  lemma ClosedEmpty(was: seq<byte>, buf: seq<byte>, codePos: nat, flagsPos: nat, full: seq<Token>, part: seq<Token>)
    requires Holding(was, codePos, flagsPos, 8, full, part) && |buf| == |was| && buf[..flagsPos] == was[..flagsPos]
    ensures codePos > 0 && buf[..codePos - 1] == Pack(full + part)
  {
    hide Pack, Flags, Pow2;
    assert part == [] && full + part == full;
    assert Body(part) == [];
    assert codePos == flagsPos + 1 + |was[flagsPos + 1..codePos]|;
  }

  /** One more group, whose flags have been shifted into place. */
  lemma ClosedGroup(was: seq<byte>, buf: seq<byte>, codePos: nat, flagsPos: nat, left: nat, full: seq<Token>,
                    part: seq<Token>)
    requires Holding(was, codePos, flagsPos, left, full, part) && left < 8
    requires buf == was[flagsPos := was[flagsPos] / Pow2(left)]
    ensures buf[..codePos] == Pack(full + part)
  {
    hide Pow2, Body, Pack;
    PackGroups(full, part);
    OneGroup(part);
    var front, flags, body := was[..flagsPos], [buf[flagsPos]], was[flagsPos + 1..codePos];
    assert buf[..codePos] == front + (flags + body);
  }

  lemma OneGroup(g: seq<Token>)
    requires ValidTokens(g) && 0 < |g| < 8
    ensures Pack(g) == [FlagByte(g)] + Body(g) && FlagByte(g) == Flags(g)
  {
    hide Body, Flags;
    assert g[..|g|] == g;
    assert [FlagByte(g)] + Body(g) + [] == [FlagByte(g)] + Body(g);
  }

  lemma Closed(was: seq<byte>, buf: seq<byte>, codePos: nat, flagsPos: nat, left: nat, full: seq<Token>,
               part: seq<Token>)
    requires Holding(was, codePos, flagsPos, left, full, part)
    requires buf == was[flagsPos := was[flagsPos] / Pow2(left)]
    ensures buf[..if left == 8 then codePos - 1 else codePos] == Pack(full + part)
  {
    hide Pow2, Body, Pack, Flags;
    if left == 8 {
      ClosedEmpty(was, buf, codePos, flagsPos, full, part);
    } else {
      ClosedGroup(was, buf, codePos, flagsPos, left, full, part);
    }
  }

  // ---------- emitting ----------

  /** `codes` are the bit-reversed code words of `sizes`, as `tdefl_optimize_huffman_table` leaves them. */
  ghost predicate CodesFor(sizes: seq<nat>, codes: seq<nat>) {
    && |codes| == |sizes|
    && forall i :: Uses(sizes, i) ==>
         sizes[i] <= MAX_BITS && codes[i] < Pow2(sizes[i]) && Enc(codes[i], sizes[i]) == CodeWord(sizes, i)
  }

  method PutSymbol(w: Writer, sizes: seq<nat>, codes: seq<nat>, sym: nat)
    requires w.Valid() && CodesFor(sizes, codes) && Uses(sizes, sym)
    modifies w
    ensures w.Valid() && w.written == old(w.written) + CodeWord(sizes, sym) && old(w.output) <= w.output
  {
    hide Pow2, Enc, CodeWord;
    w.PutBits(codes[sym], sizes[sym]);
  }

  /** `TDEFL_PUT_BITS(v & mz_bitmasks[n], n)` */
  method PutExtra(w: Writer, v: nat, n: nat)
    requires w.Valid() && n <= 16
    modifies w
    ensures w.Valid() && w.written == old(w.written) + Enc(v, n) && old(w.output) <= w.output
  {
    hide Pow2, Enc;
    EncMod(v, n);
    w.PutBits(v % Pow2(n), n);
  }

  /** Progress of the reading loop: `c` flag bits are left in `flags`, the first `j` of which belong to
      tokens; their codes come next, then the remaining groups. */
  ghost predicate Reading(buf: seq<byte>, p: nat, flags: nat, rem: seq<Token>, j: nat, c: nat) {
    && ValidTokens(rem) && p <= |buf| && j <= c <= 8 && j <= |rem| && (j < c ==> j == |rem|)
    && flags == Pow2(c) + Flags(rem[..j])
    && buf[p..] == Body(rem[..j]) + Pack(rem[j..])
  }

  lemma ReadingStart(buf: seq<byte>, rem: seq<Token>)
    requires ValidTokens(rem) && buf == Pack(rem)
    ensures Reading(buf, 0, 1, rem, 0, 0)
  {
    assert rem[..0] == [] && rem[0..] == rem && buf[0..] == buf;
    assert Pow2(0) == 1;
    assert Body([]) + Pack(rem) == Pack(rem);
  }

  /** When only the sentinel bit is left, a whole group has been read. */
  lemma ReadingBoundary(buf: seq<byte>, p: nat, rem: seq<Token>, j: nat, c: nat)
    requires Reading(buf, p, 1, rem, j, c)
    ensures c == 0 && j == 0 && buf[p..] == Pack(rem)
  {
    assert rem[..0] == [] && rem[0..] == rem;
    assert Body([]) == [];
  }

  lemma PackHead(rem: seq<Token>) returns (n: nat)
    requires ValidTokens(rem) && rem != []
    ensures 0 < n <= 8 && n <= |rem| && (n < 8 ==> n == |rem|)
    ensures Pack(rem) == [FlagByte(rem[..n])] + (Body(rem[..n]) + Pack(rem[n..]))
  {
    hide Body, FlagByte;
    n := if |rem| <= 8 then |rem| else 8;
    if |rem| <= 8 {
      assert rem[..n] == rem && rem[n..] == [];
      assert Body(rem) + [] == Body(rem);
    } else {
      var x, y := Body(rem[..8]), Pack(rem[8..]);
      assert [FlagByte(rem[..8])] + x + y == [FlagByte(rem[..8])] + (x + y);
    }
  }

  lemma SplitHead(buf: seq<byte>, p: nat, b: byte, rest: seq<byte>)
    requires p < |buf| && buf[p..] == [b] + rest
    ensures buf[p] == b && buf[p + 1..] == rest
  {
    assert buf[p] == buf[p..][0] && buf[p + 1..] == buf[p..][1..];
  }

  /** A new flag byte: `flags = *pLZ_codes++ | 0x100`. */
  lemma ReadingGroup(buf: seq<byte>, p: nat, rem: seq<Token>, j: nat, c: nat) returns (n: nat)
    requires Reading(buf, p, 1, rem, j, c) && p < |buf|
    ensures n > 0 && Reading(buf, p + 1, BitOr(buf[p], 256), rem, n, 8)
  {
    hide Body, Pack, Flags, BitOr;
    assert rem != [] && ValidTokens(rem) && buf[p..] == Pack(rem) by {
      ReadingBoundary(buf, p, rem, j, c);
      PackEmpty(rem);
    }
    n := PackHead(rem);
    SplitHead(buf, p, FlagByte(rem[..n]), Body(rem[..n]) + Pack(rem[n..]));
    assert Pow2(8) == 256 by { Pow2Values(); }
    OrShifted(buf[p], 1, 8);
  }

  lemma PackEmpty(ts: seq<Token>)
    requires ValidTokens(ts)
    ensures Pack(ts) == [] <==> ts == []
  {
    hide Body, FlagByte;
  }

  lemma BodyEmpty(g: seq<Token>)
    requires ValidTokens(g)
    ensures Body(g) == [] <==> g == []
  {
    if g != [] {
      assert TokenBytes(g[0]) != [];
    }
  }

  lemma ReadingPending(buf: seq<byte>, p: nat, flags: nat, rem: seq<Token>, j: nat, c: nat)
    requires Reading(buf, p, flags, rem, j, c) && p < |buf| && flags != 1
    ensures c >= j > 0 && |rem| > 0
  {
    hide Pack, Body;
    assert rem[..0] == [] && rem[0..] == rem && Pow2(0) == 1;
    PackEmpty(rem);
    BodyEmpty(rem[..j]);
  }

  /** A pending flag means a pending token, whose codes come first. */
  lemma ReadingToken(buf: seq<byte>, p: nat, flags: nat, rem: seq<Token>, j: nat, c: nat)
    requires Reading(buf, p, flags, rem, j, c) && p < |buf| && flags != 1
    ensures c >= j > 0 && |rem| > 0
    ensures (flags % 2 == 1) == rem[0].Match?
    ensures p + |TokenBytes(rem[0])| <= |buf| && buf[p..p + |TokenBytes(rem[0])|] == TokenBytes(rem[0])
    ensures Reading(buf, p + |TokenBytes(rem[0])|, flags / 2, rem[1..], j - 1, c - 1)
  {
    hide TokenBytes, Pack;
    ReadingPending(buf, p, flags, rem, j, c);
    var g := rem[..j];
    assert g[0] == rem[0] && g[1..] == rem[1..][..j - 1];
    assert rem[j..] == rem[1..][j - 1..];
    var x, y, z := TokenBytes(rem[0]), Body(g[1..]), Pack(rem[j..]);
    assert buf[p..] == x + (y + z);
    assert buf[p..p + |x|] == buf[p..][..|x|] == x;
    assert buf[p + |x|..] == buf[p..][|x|..] == y + z;
    assert Pow2(c) == 2 * Pow2(c - 1);
  }

  /** At the end of the buffer no token is left. */
  lemma ReadingEnd(buf: seq<byte>, p: nat, flags: nat, rem: seq<Token>, j: nat, c: nat)
    requires Reading(buf, p, flags, rem, j, c) && p == |buf|
    ensures rem == []
  {
    hide Pack, Body;
    assert rem == rem[..j] + rem[j..];
    BodyEmpty(rem[..j]);
    PackEmpty(rem[j..]);
  }

  /** One token's codes. */
  method PutToken(w: Writer, buf: array<byte>, p: nat, isMatch: bool, sizes0: seq<nat>, codes0: seq<nat>,
                  sizes1: seq<nat>, codes1: seq<nat>, ghost t: Token)
    returns (next: nat)
    requires w.Valid() && CodesFor(sizes0, codes0) && CodesFor(sizes1, codes1) && Encodable(sizes0, sizes1, t)
    requires isMatch == t.Match? && p + |TokenBytes(t)| <= buf.Length && buf[p..p + |TokenBytes(t)|] == TokenBytes(t)
    modifies w
    ensures w.Valid() && w.written == old(w.written) + TokenBits(sizes0, sizes1, t) && old(w.output) <= w.output
    ensures next == p + |TokenBytes(t)|
  {
    hide Pow2, Enc, CodeWord, CodesFor, LenSym, LenExtraBits, SmallDistSym, SmallDistExtra, LargeDistSym,
      LargeDistExtra,
      LENGTH_BASE, LENGTH_EXTRA, DIST_BASE, DIST_EXTRA;
    ghost var bs := buf[p..p + |TokenBytes(t)|];
    ghost var was := w.written;
    if isMatch {
      assert buf[p] == bs[0] && buf[p + 1] == bs[1] && buf[p + 2] == bs[2];
      var matchLen: nat, matchDist: nat := buf[p], buf[p + 1] as int + 256 * buf[p + 2] as int;
      LengthAgrees(matchLen);
      DistAgrees(matchDist);
      PutSymbol(w, sizes0, codes0, LenSym(matchLen));
      PutExtra(w, matchLen, LenExtraBits(matchLen));
      var sym, numExtraBits;
      if matchDist < 512 {
        sym, numExtraBits := SmallDistSym(matchDist), SmallDistExtra(matchDist);
      } else {
        sym, numExtraBits := LargeDistSym(matchDist / 256), LargeDistExtra(matchDist / 256);
      }
      PutSymbol(w, sizes1, codes1, sym);
      PutExtra(w, matchDist, numExtraBits);
      next := p + 3;
      Assoc4(was, CodeWord(sizes0, LenSym(matchLen)), Enc(matchLen, LenExtraBits(matchLen)),
             CodeWord(sizes1, sym), Enc(matchDist, numExtraBits));
    } else {
      assert buf[p] == bs[0];
      PutSymbol(w, sizes0, codes0, buf[p]);
      next := p + 1;
    }
  }

  lemma Assoc4(w: bits, a: bits, b: bits, c: bits, d: bits)
    ensures w + a + b + c + d == w + (a + b + (c + d))
  {
  }

  lemma SliceTwice(s: seq<byte>, n: nat, p: nat, q: nat)
    requires p <= q <= n <= |s|
    ensures s[..n][p..q] == s[p..q]
  {
  }

  /** The body of the emitting loop: a new flag byte if the last one is used up, then one token. */
  method EmitNext(w: Writer, buf: array<byte>, codePos: nat, p0: nat, flags0: nat, sizes0: seq<nat>, codes0: seq<nat>,
                  sizes1: seq<nat>, codes1: seq<nat>,
                  ghost ts: seq<Token>, ghost i: nat, ghost j0: nat, ghost c0: nat)
    returns (p: nat, flags: nat, ghost j: nat, ghost c: nat)
    requires w.Valid() && p0 < codePos <= buf.Length && i <= |ts|
    requires Reading(buf[..codePos], p0, flags0, ts[i..], j0, c0)
    requires CodesFor(sizes0, codes0) && CodesFor(sizes1, codes1) && AllEncodable(sizes0, sizes1, ts)
    modifies w
    ensures i < |ts| && w.Valid() && old(w.output) <= w.output
    ensures w.written == old(w.written) + TokenBits(sizes0, sizes1, ts[i])
    ensures p0 < p <= codePos && Reading(buf[..codePos], p, flags, ts[i + 1..], j, c)
  {
    hide Pow2, Enc, CodeWord, CodesFor, Pack, Body, TokensBits, TokenBits, Encodable, Reading, BitOr;
    ghost var data := buf[..codePos];
    p, flags, j, c := p0, flags0, j0, c0;
    if flags == 1 {
      j := ReadingGroup(data, p, ts[i..], j, c);
      c := 8;
      flags := BitOr(buf[p], 256);
      p := p + 1;
      FlagsAbove(data, p, flags, ts[i..], j);
    }
    ReadNext(data, p, flags, ts, i, j, c);
    ghost var q := p + |TokenBytes(ts[i])|;
    SliceTwice(buf[..], codePos, p, q);
    assert buf[p..q] == buf[..][p..q] && data == buf[..][..codePos];
    p := PutToken(w, buf, p, flags % 2 == 1, sizes0, codes0, sizes1, codes1, ts[i]);
    flags := flags / 2;
    j, c := j - 1, c - 1;
  }

  /** `tdefl_compress_lz_codes` (src/external/miniz.h:3060-3101): the codes of all recorded tokens and
      the end-of-block code.  The result tells whether the output buffer had room for everything. */
  method CompressLzCodes(w: Writer, buf: array<byte>, codePos: nat, sizes0: seq<nat>, codes0: seq<nat>,
                         sizes1: seq<nat>, codes1: seq<nat>,
                         ghost ts: seq<Token>)
    returns (ok: bool)
    requires w.Valid() && codePos <= buf.Length && ValidTokens(ts) && buf[..codePos] == Pack(ts)
    requires CodesFor(sizes0, codes0) && CodesFor(sizes1, codes1)
    requires AllEncodable(sizes0, sizes1, ts) && Uses(sizes0, 256)
    modifies w
    ensures w.Valid() && w.written == old(w.written) + BodyBits(sizes0, sizes1, ts)
    ensures old(w.output) <= w.output && ok == (|w.output| < w.capacity)
  {
    hide Pow2, Enc, CodeWord, CodesFor, Pack, TokensBits, TokenBits, Encodable, Reading;
    ghost var data := buf[..codePos];
    ReadingStart(data, ts);
    var flags, p := 1, 0;
    ghost var i: nat, j: nat, c: nat := 0, 0, 0;
    EmitStart(sizes0, sizes1, ts);
    while p < codePos
      invariant w.Valid() && old(w.output) <= w.output
      invariant p <= codePos && i <= |ts| && Reading(data, p, flags, ts[i..], j, c)
      invariant AllEncodable(sizes0, sizes1, ts[..i])
      invariant w.written == old(w.written) + TokensBits(sizes0, sizes1, ts[..i])
      decreases codePos - p
    {
      p, flags, j, c := EmitNext(w, buf, codePos, p, flags, sizes0, codes0, sizes1, codes1, ts, i, j, c);
      BitsSnoc(sizes0, sizes1, ts, i);
      i := i + 1;
    }
    ReadingEnd(data, p, flags, ts[i..], j, c);
    assert ts[..i] == ts;
    PutSymbol(w, sizes0, codes0, 256);
    ok := |w.output| < w.capacity;
  }

  lemma EmitStart(sizes0: seq<nat>, sizes1: seq<nat>, ts: seq<Token>)
    ensures ts[0..] == ts && ts[..0] == []
    ensures TokensBits(sizes0, sizes1, []) == []
  {
  }

  lemma ReadNext(data: seq<byte>, p: nat, flags: nat, ts: seq<Token>, i: nat, j: nat, c: nat)
    requires i <= |ts| && Reading(data, p, flags, ts[i..], j, c) && p < |data| && flags != 1
    ensures c >= j > 0 && i < |ts| && ValidToken(ts[i]) && (flags % 2 == 1) == ts[i].Match?
    ensures p + |TokenBytes(ts[i])| <= |data| && data[p..p + |TokenBytes(ts[i])|] == TokenBytes(ts[i])
    ensures Reading(data, p + |TokenBytes(ts[i])|, flags / 2, ts[i + 1..], j - 1, c - 1)
  {
    hide Pack, Body, TokenBytes;
    ReadingToken(data, p, flags, ts[i..], j, c);
    assert ts[i..][0] == ts[i] && ts[i..][1..] == ts[i + 1..];
  }

  lemma FlagsAbove(buf: seq<byte>, p: nat, flags: nat, rem: seq<Token>, j: nat)
    requires Reading(buf, p, flags, rem, j, 8) && j > 0
    ensures flags != 1 && p < |buf|
  {
    hide Pack, Body;
    Pow2Values();
    BodyEmpty(rem[..j]);
  }

  lemma BitsSnoc(sizes0: seq<nat>, sizes1: seq<nat>, ts: seq<Token>, i: nat)
    requires i < |ts| && AllEncodable(sizes0, sizes1, ts)
    ensures AllEncodable(sizes0, sizes1, ts[..i]) && AllEncodable(sizes0, sizes1, ts[..i + 1])
    ensures TokensBits(sizes0, sizes1, ts[..i + 1])
         == TokensBits(sizes0, sizes1, ts[..i]) + TokenBits(sizes0, sizes1, ts[i])
  {
    hide Encodable, TokenBits;
    assert ts[..i + 1] == ts[..i] + [ts[i]];
    TokensBitsConcat(sizes0, sizes1, ts[..i], [ts[i]]);
    assert [ts[i]][1..] == [];
    assert TokensBits(sizes0, sizes1, [ts[i]]) == TokenBits(sizes0, sizes1, ts[i]) + [];
  }
}
