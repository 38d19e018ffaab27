/** `tinfl_decompress` (src/external/miniz.h:4321-4799): the coroutine with its bit reservoir, fast and slow
    paths and put-back, writing to a buffer for all output or to a circular one, proved against the inflate
    machine. */
module Tinfl {
  import opened Bits
  import opened Canonical
  import opened DecodeTable
  import opened Tokens
  import opened Inflate
  import opened BlockBody
  import opened BitWriting
  import opened DynamicHeader
  import opened Blocks
  import opened LzCopy
  import opened Progress
  import opened Reservoir
  import opened LittleEndian
  import Adler32

  /** How the work on one resumption point ended. */
  datatype Stop = Go | Starved | Full | Halted

  datatype Status = NeedsMoreInput | CannotMakeProgress | HasMoreOutput | Complete | Broken | AdlerMismatch | BadParam

  // ---------- steps of the machine in terms of the stream ----------

  lemma BitsRun(q: Inflater, s: bits, n: nat, v: nat)
    requires Ok(q) && Want(q) == NeedBits(n) && n <= |s| && v == Val(s[..n])
    ensures Answer(q, v) && Ok(Feed(q, v)) && Reaches(q, s, Feed(q, v), s[n..])
  {
    hide Ok, Feed, Want, Answer, Reaches;
    ValBound(s[..n]);
    BitsAnswer(q, v);
    FeedOk(q, v);
    BitsStep(q, s, n, v);
    ReachStep(q, s);
  }

  lemma BitsStep(q: Inflater, s: bits, n: nat, v: nat)
    requires Ok(q) && Want(q) == NeedBits(n) && n <= |s| && v == Val(s[..n]) && Answer(q, v)
    ensures Step(q, s) == Next(Feed(q, v), s[n..])
  {
    hide Ok, Feed, Want, Answer;
  }

  lemma BitsStuck(q: Inflater, s: bits, n: nat)
    requires Ok(q) && Want(q) == NeedBits(n) && |s| < n
    ensures Step(q, s).Stuck?
  {
    hide Ok, Want, Feed;
  }

  lemma SymbolRun(q: Inflater, s: bits, t: nat, sym: nat, len: nat)
    requires Ok(q) && Want(q) == NeedSymbol(t) && Decode(SizesOf(q, t), s) == Some(Decoded(sym, len)) && len <= |s|
    ensures Answer(q, sym) && Ok(Feed(q, sym)) && Reaches(q, s, Feed(q, sym), s[len..])
  {
    hide Ok, Feed, Want, Answer, Reaches, Decode;
    DecodeInRange(SizesOf(q, t), s);
    SymbolAnswers(q, t, sym);
    FeedOk(q, sym);
    SymbolStep(q, s, t, sym, len);
    ReachStep(q, s);
  }

  lemma SymbolStep(q: Inflater, s: bits, t: nat, sym: nat, len: nat)
    requires Ok(q) && Want(q) == NeedSymbol(t) && Decode(SizesOf(q, t), s) == Some(Decoded(sym, len)) && len <= |s|
    requires Answer(q, sym)
    ensures Step(q, s) == Next(Feed(q, sym), s[len..])
  {
    hide Ok, Feed, Want, Answer, Decode;
  }

  lemma SymbolStuck(q: Inflater, s: bits, t: nat)
    requires Ok(q) && Want(q) == NeedSymbol(t) && Decode(SizesOf(q, t), s).None?
    ensures Step(q, s).Stuck?
  {
    hide Ok, Want, Feed, Decode;
  }

  // ---------- the output buffer ----------

  /** The buffer holds the output `history`: all of it, or, when it is circular, the latest `window` bytes.
      The next byte goes to `pos`, and there is room up to `end`. */
  ghost predicate Carries(buf: seq<byte>, pos: nat, end: nat, window: nat, history: seq<byte>) {
    && pos <= end <= |buf|
    && (if window == 0 then buf[..pos] == history
        else end == |buf| == window && Recent(buf, history) && pos % window == |history| % window)
  }

  lemma CarriesBounds(buf: seq<byte>, pos: nat, end: nat, window: nat, history: seq<byte>)
    requires Carries(buf, pos, end, window, history)
    ensures pos <= end <= |buf| && (window == 0 ==> |history| == pos) && (window > 0 ==> end == |buf| == window)
  {
    hide Recent;
  }

  lemma CarriesPut(buf: seq<byte>, pos: nat, end: nat, window: nat, history: seq<byte>, b: byte)
    requires Carries(buf, pos, end, window, history) && pos < end
    ensures Carries(buf[pos := b], pos + 1, end, window, history + [b])
  {
    hide Recent;
    if window == 0 {
      assert buf[pos := b][..pos + 1] == buf[..pos] + [b];
    } else {
      DivModUnique(pos, window, 0, pos);
      RecentStep(buf, history, b);
      ModNext(pos, |history|, window);
    }
  }

  lemma ModNext(i: nat, j: nat, n: nat)
    requires n > 0 && i % n == j % n
    ensures (i + 1) % n == (j + 1) % n
  {
    if n > 1 {
      ModShift(i, n, 1);
      ModShift(j, n, 1);
    } else {
      DivModUnique(i + 1, 1, i + 1, 0);
      DivModUnique(j + 1, 1, j + 1, 0);
    }
  }

  /** What was written in one go is found where it was written. */
  lemma CarriesLatest(buf: seq<byte>, pos: nat, end: nat, window: nat, history: seq<byte>, n: nat)
    requires Carries(buf, pos, end, window, history) && n <= pos && n <= |history|
    ensures history[|history| - n..] == buf[pos - n..pos]
  {
    if window > 0 {
      var late, there := history[|history| - n..], buf[pos - n..pos];
      forall i | 0 <= i < n
        ensures late[i] == there[i]
      {
        ModBack(pos, |history|, window, n - i);
        RecentAt(buf, history, |history| - (n - i));
        DivModUnique(pos - (n - i), window, 0, pos - (n - i));
      }
    } else {
      assert buf[..pos][pos - n..] == buf[pos - n..pos];
    }
  }

  lemma ModBack(i: nat, j: nat, n: nat, k: nat)
    requires n > 0 && i % n == j % n && 0 < k <= n && k <= i && k <= j
    ensures (i - k) % n == (j - k) % n
  {
    SourceIndex(i, n, k);
    SourceIndex(j, n, k);
  }

  /** The circular buffer as it is when nothing has been written to it, as output to copy from. */
  lemma CarriesAtFirst(buf: seq<byte>, next: nat)
    requires next <= |buf| && |buf| > 0
    ensures Carries(buf, next, |buf|, |buf|, buf + buf[..next])
  {
    var n := |buf|;
    var h := buf + buf[..next];
    ModShift2(next, n);
    forall j | 0 <= j < |h| && |h| - n <= j
      ensures buf[j % n] == h[j]
    {
      if j < n {
        DivModUnique(j, n, 0, j);
      } else {
        DivModUnique(j, n, 1, j - n);
      }
    }
  }

  lemma ModShift2(i: nat, n: nat)
    requires n > 0
    ensures (n + i) % n == i % n
  {
    DivModUnique(n + i, n, i / n + 1, i % n);
  }

  /** `(size & (size - 1)) == 0` */
  predicate PowerOfTwo(n: nat) {
    n == 1 || (n > 0 && n % 2 == 0 && PowerOfTwo(n / 2))
  }

  lemma WholeBytesMore(x: nat, n: nat)
    ensures (x + 8 * n) % 8 == x % 8
    ensures x + 8 * n >= 8 ==> (x + 8 * n - 8) % 8 == x % 8
  {
  }

  // ---------- the decompressor ----------

  class Decompressor {
    /** `m_look_up` and the three trees */
    const look0: array<int>
    const look1: array<int>
    const look2: array<int>
    const tree0: array<int>
    const tree1: array<int>
    const tree2: array<int>

    /** The other fields of `tinfl_decompressor` (its `out` is not used), and the reservoir. */
    var r: Inflater
    var bitBuf: nat
    var numBits: nat

    /** Suspended inside `TINFL_HUFF_BITBUF_FILL`. */
    var filling: bool
    var checkAdler: nat

    /** The buffers of the current call (`out` is `pOut_buf_start`). */
    var input: seq<byte>
    var cur: nat
    var out: array<byte>
    var outPos: nat
    var outEnd: nat

    /** All output so far, and the reservoir at the start of the call. */
    ghost var history: seq<byte>
    ghost var lead: bits

    ghost predicate Shape() {
      && look0.Length == look1.Length == look2.Length == FAST_SIZE
      && tree0.Length == 576 && tree1.Length == 64 && tree2.Length == 38
      && look0 != tree0 && look1 != tree1 && look2 != tree2
      && look0 != look1 && look0 != tree1 && tree0 != look1 && tree0 != tree1
      && look2 !in {look0, look1, tree0, tree1} && tree2 !in {look0, look1, tree0, tree1}
    }

    ghost predicate Clean()
      reads this`bitBuf, this`numBits, this`input, this`cur, this`filling
    {
      && numBits <= 61 && bitBuf < Pow2(numBits) && cur <= |input| && (filling ==> numBits < MAX_BITS)
    }

    /** The unread bits. */
    ghost function Unread(): bits
      requires cur <= |input|
      reads this`bitBuf, this`numBits, this`input, this`cur
    {
      Stream(bitBuf, numBits, input, cur)
    }

    /** The state of the machine. */
    ghost function Machine(): Inflater
      reads this`r, this`history
    {
      r.(out := history)
    }

    // ---------- input ----------

    method GetByte() returns (ok: bool, c: byte)
      requires Clean() && numBits == 0
      modifies this`cur
      ensures Clean()
      ensures !ok ==> Unread() == old(Unread()) && |Unread()| < 8 && cur == |input|
      ensures ok ==> |old(Unread())| >= 8 && c == Val(old(Unread())[..8]) && Unread() == old(Unread())[8..]
    {
      hide Pow2, Enc, BytesBits, Val;
      EncNone(bitBuf);
      c := 0;
      ok := cur < |input|;
      if ok {
        c := input[cur];
        TailBytes(input, cur);
        ByteVal(c);
        ghost var s := Unread();
        assert s == Enc(c, 8) + BytesBits(input[cur + 1..]);
        assert s[..8] == Enc(c, 8) && s[8..] == BytesBits(input[cur + 1..]);
        cur := cur + 1;
        assert Enc(bitBuf, numBits) + BytesBits(input[cur..]) == BytesBits(input[cur..]);
      } else {
        NoTail(input);
      }
    }

    /** `TINFL_NEED_BITS` and `TINFL_GET_BITS` */
    method GetBits(n: nat) returns (ok: bool, v: nat)
      requires Clean() && n <= 16 && !filling
      modifies this`bitBuf, this`numBits, this`cur
      ensures Clean() && (n == 8 ==> numBits % 8 == old(numBits) % 8)
      ensures !ok ==> Unread() == old(Unread()) && |Unread()| < n && cur == |input|
      ensures ok ==> |old(Unread())| >= n && v == Val(old(Unread())[..n]) && Unread() == old(Unread())[n..]
    {
      hide Pow2, Enc, BytesBits, Val, BitOr, Shl, Shr, Stream;
      v := 0;
      ghost var loaded: nat := 0;
      while numBits < n
        invariant Clean() && !filling && Unread() == old(Unread()) && numBits == old(numBits) + 8 * loaded
        decreases n - numBits
      {
        if cur >= |input| {
          StreamLength(bitBuf, numBits, input, cur);
          WholeBytesMore(old(numBits), loaded);
          return false, 0;
        }
        LoadByte(bitBuf, numBits, input, cur);
        bitBuf := BitOr(bitBuf, Shl(input[cur], numBits));
        cur := cur + 1;
        numBits := numBits + 8;
        loaded := loaded + 1;
      }
      DropBits(bitBuf, numBits, n, input, cur);
      WholeBytesMore(old(numBits), loaded);
      v := bitBuf % Pow2(n);
      bitBuf := Shr(bitBuf, n);
      numBits := numBits - n;
      ok := true;
    }

    /** Eight bits that are byte aligned in the stream (states 6, 7, 41 and 42). */
    method GetEight() returns (ok: bool, v: nat)
      requires Clean() && !filling && numBits % 8 == 0
      modifies this`bitBuf, this`numBits, this`cur
      ensures Clean() && numBits % 8 == 0
      ensures !ok ==> Unread() == old(Unread()) && |Unread()| < 8 && cur == |input|
      ensures ok ==> |old(Unread())| >= 8 && v == Val(old(Unread())[..8]) && Unread() == old(Unread())[8..]
    {
      hide Pow2, Enc, BytesBits, Val, Stream;
      if numBits > 0 {
        ok, v := GetBits(8);
      } else {
        ok, v := GetByte();
      }
    }

    /** `TINFL_HUFF_DECODE` with `TINFL_HUFF_BITBUF_FILL` */
    method HuffDecode(look: array<int>, tree: array<int>, ghost sizes: seq<nat>)
      returns (ok: bool, sym: nat, ghost len: nat)
      requires Clean() && Tables(look[..], tree[..], sizes)
      requires filling ==> Decode(sizes, Enc(bitBuf, numBits)).None?
      modifies this`bitBuf, this`numBits, this`cur, this`filling
      ensures Clean() && filling == !ok
      ensures !ok ==> Unread() == old(Unread()) && Decode(sizes, Unread()).None? && cur == |input|
      ensures ok ==>
        len <= |old(Unread())| && Decode(sizes,
          old(Unread())) == Some(Decoded(sym, len)) && Unread() == old(Unread())[len..]
    {
      hide Pow2, Enc, BytesBits, Val, BitOr, Shl, Shr, Stream, Decode, Tables;
      sym, len := 0, 0;
      if numBits < MAX_BITS {
        if filling || |input| - cur < 2 {
          ok := Fill(look, tree, sizes);
          if !ok {
            return;
          }
        } else {
          LoadByte(bitBuf, numBits, input, cur);
          var b := BitOr(bitBuf, Shl(input[cur], numBits));
          LoadByte(b, numBits + 8, input, cur + 1);
          bitBuf := BitOr(b, Shl(input[cur + 1], numBits + 8));
          cur := cur + 2;
          numBits := numBits + 16;
          EnoughBits(sizes, look[..], tree[..], bitBuf, numBits);
        }
      } else {
        EnoughBits(sizes, look[..], tree[..], bitBuf, numBits);
      }
      sym, len := TakeSymbol(look, tree, sizes);
      ok := true;
    }

    /** Look a symbol up when the reservoir holds enough bits for it. */
    method TakeSymbol(look: array<int>, tree: array<int>, ghost sizes: seq<nat>) returns (sym: nat, ghost len: nat)
      requires Clean() && Tables(look[..], tree[..], sizes) && Decode(sizes, Enc(bitBuf, numBits)).Some? && !filling
      modifies this`bitBuf, this`numBits
      ensures Clean() && numBits + len == old(numBits) && len <= MAX_BITS
      ensures len <= |old(Unread())| && Decode(sizes, old(Unread())) == Some(Decoded(sym, len))
      ensures Unread() == old(Unread())[len..]
    {
      hide Pow2, Enc, BytesBits, Val, BitOr, Shl, Shr, Decode, Tables;
      ghost var a := Enc(bitBuf, numBits);
      Whole(bitBuf, numBits);
      var codeLen;
      sym, codeLen := HuffLookup(look, tree, sizes, bitBuf, a);
      len := codeLen;
      TablesValid(look[..], tree[..], sizes);
      DecodeStable(sizes, a, BytesBits(input[cur..]));
      DecodeLength(sizes, a);
      DropBits(bitBuf, numBits, codeLen, input, cur);
      bitBuf := Shr(bitBuf, codeLen);
      numBits := numBits - codeLen;
    }

    /** `TINFL_HUFF_BITBUF_FILL`: byte by byte, and no more than needed. */
    method Fill(look: array<int>, tree: array<int>, ghost sizes: seq<nat>) returns (ok: bool)
      requires Clean() && Tables(look[..], tree[..], sizes) && numBits < MAX_BITS
      requires filling ==> Decode(sizes, Enc(bitBuf, numBits)).None?
      modifies this`bitBuf, this`numBits, this`cur, this`filling
      ensures Clean() && Unread() == old(Unread()) && filling == !ok
      ensures !ok ==> Decode(sizes, Unread()).None? && cur == |input|
      ensures ok ==> Decode(sizes, Enc(bitBuf, numBits)).Some?
    {
      hide Pow2, Enc, BytesBits, Val, BitOr, Shl, Shr, Stream, Decode, Tables;
      ok := false;
      while numBits < MAX_BITS
        invariant Clean() && Unread() == old(Unread()) && !ok
        invariant filling ==> numBits < MAX_BITS && Decode(sizes, Enc(bitBuf, numBits)).None?
        decreases |input| - cur
      {
        if !filling {
          Whole(bitBuf, numBits);
          ok := FillTest(look, tree, sizes, bitBuf, numBits, Enc(bitBuf, numBits));
          if ok {
            return;
          }
        }
        if cur >= |input| {
          filling := true;
          NothingUnread(bitBuf, numBits, input, cur);
          return;
        }
        filling := false;
        LoadByte(bitBuf, numBits, input, cur);
        bitBuf := BitOr(bitBuf, Shl(input[cur], numBits));
        cur := cur + 1;
        numBits := numBits + 8;
      }
      EnoughBits(sizes, look[..], tree[..], bitBuf, numBits);
      ok := true;
    }

    // ---------- the resumption points ----------

    ghost predicate TablesOk()
      reads this`r, look0, look1, look2, tree0, tree1, tree2
    {
      && (Decoding(r.pc) ==> Tables(look0[..], tree0[..], r.sizes0) && Tables(look1[..], tree1[..], r.sizes1))
      && (r.pc.CodeLen? || r.pc.CodeLenRep? ==> Tables(look2[..], tree2[..], r.sizes2))
    }

    /** The output so far is in the buffer. */
    ghost predicate Placed()
      reads this`r, this`out, this`outPos, this`outEnd, this`history, out
    {
      Carries(out[..], outPos, outEnd, r.window, history)
    }

    /** While the input is taken byte by byte the reservoir holds whole bytes. */
    ghost predicate WholeBytes()
      reads this`r, this`numBits
    {
      Bytewise(r.pc) ==> numBits % 8 == 0
    }

    /** Suspended inside a symbol: what is in the reservoir does not decode. */
    ghost predicate Filling()
      reads this`filling, this`r, this`bitBuf, this`numBits
    {
      !filling || ((r.pc.CodeLen? || r.pc.LitLen? || r.pc.DistSym?)
        && Decode(SizesOf(r, TableOf(r.pc)), Enc(bitBuf, numBits)).None?)
    }

    ghost predicate Valid()
      reads this, look0, look1, look2, tree0, tree1, tree2, out
    {
      && Shape() && TablesOk() && Clean() && Placed() && Filling() && WholeBytes()
      && Ok(Machine()) && (r.pc.ZHdr0? || r.pc.ZHdr1? ==> numBits == 0)
      && IsSuffix(Unread(), lead + BytesBits(input))
    }

    /** One of the requests for bits has been answered or has run dry. */
    twostate predicate Advanced(stop: Stop)
      requires old(cur) <= |old(input)| && cur <= |input| && Ok(old(Machine())) && Ok(Machine())
      reads this
    {
      && Reaches(old(Machine()), old(Unread()), Machine(), Unread())
      && (stop.Go? ==> (Machine(), Unread()) != (old(Machine()), old(Unread())))
      && |history| - outPos == old(|history| - outPos) && Ended(stop)
    }

    /** The two bytes of the zlib header (states 1 and 2). */
    method DoZlibHeader() returns (stop: Stop)
      requires Valid() && (r.pc.ZHdr0? || r.pc.ZHdr1?)
      modifies this`r, this`bitBuf, this`numBits, this`cur
      ensures Valid() && Advanced(stop)
    {
      hide Pow2, Enc, BytesBits, Stream, Decode, Tables, Ok, Want, Answer, Reaches, Step, IsSuffix, Feed, Carries;
      ghost var q, s := Machine(), Unread();
      WantZlib(q);
      var n := 8;
      var ok, v := GetByte();
      if !ok {
        BitsStuck(q, s, n);
        ReachRefl(q, s);
        return Starved;
      }
      BitsRun(q, s, n, v);
      SuffixDrop(s, n, lead + BytesBits(input));
      FeedZlib(r, history, v);
      r := ZlibByte(r, v);
      return Go;
    }

    /** LEN and NLEN of a stored block (states 6 and 7). */
    method DoRawHeader() returns (stop: Stop)
      requires Valid() && r.pc.RawHdr?
      modifies this`r, this`bitBuf, this`numBits, this`cur
      ensures Valid() && Advanced(stop)
    {
      hide Pow2, Enc, BytesBits, Stream, Decode, Tables, Ok, Want, Answer, Reaches, Step, IsSuffix, Feed, Carries;
      ghost var q, s := Machine(), Unread();
      WantRawHeader(q);
      var n := 8;
      var ok, v := GetEight();
      if !ok {
        BitsStuck(q, s, n);
        ReachRefl(q, s);
        return Starved;
      }
      BitsRun(q, s, n, v);
      SuffixDrop(s, n, lead + BytesBits(input));
      FeedRawHeader(r, history, v);
      r := RawHeader(r, v);
      return Go;
    }

    /** The three table sizes (state 11). */
    method DoTableSize() returns (stop: Stop)
      requires Valid() && r.pc.TableSize?
      modifies this`r, this`bitBuf, this`numBits, this`cur
      ensures Valid() && Advanced(stop)
    {
      hide Pow2, Enc, BytesBits, Stream, Decode, Tables, Ok, Want, Answer, Reaches, Step, IsSuffix, Feed, Carries;
      ghost var q, s := Machine(), Unread();
      WantTableSize(q);
      var n := if r.pc.i == 2 then 4 else 5;
      var ok, v := GetBits(n);
      if !ok {
        BitsStuck(q, s, n);
        ReachRefl(q, s);
        return Starved;
      }
      BitsRun(q, s, n, v);
      SuffixDrop(s, n, lead + BytesBits(input));
      FeedTableSize(r, history, v);
      r := TableSizes(r, v);
      return Go;
    }

    /** The extra bits of a match length (state 25). */
    method DoLengthExtra() returns (stop: Stop)
      requires Valid() && r.pc.LenExtra?
      modifies this`r, this`bitBuf, this`numBits, this`cur
      ensures Valid() && Advanced(stop)
    {
      hide Pow2, Enc, BytesBits, Stream, Decode, Tables, Ok, Want, Answer, Reaches, Step, IsSuffix, Feed, Carries,
        LengthExtra, LengthBase;
      ghost var q, s := Machine(), Unread();
      WantLengthExtra(q);
      var n := LengthExtra(r.pc.lsym);
      var ok, v := GetBits(n);
      if !ok {
        BitsStuck(q, s, n);
        ReachRefl(q, s);
        return Starved;
      }
      BitsRun(q, s, n, v);
      SuffixDrop(s, n, lead + BytesBits(input));
      FeedLengthExtra(r, history, v);
      r := r.(counter := LengthBase(r.pc.lsym) + v, pc := DistSym);
      return Go;
    }

    /** The checksum of the zlib trailer (states 41 and 42). */
    method DoTrailer() returns (stop: Stop)
      requires Valid() && r.pc.Trailer?
      modifies this`r, this`bitBuf, this`numBits, this`cur
      ensures Valid() && Advanced(stop)
    {
      hide Pow2, Enc, BytesBits, Stream, Decode, Tables, Ok, Want, Answer, Reaches, Step, IsSuffix, Feed, Carries;
      ghost var q, s := Machine(), Unread();
      WantTrailer(q);
      var n := 8;
      var ok, v := GetEight();
      if !ok {
        BitsStuck(q, s, n);
        ReachRefl(q, s);
        return Starved;
      }
      BitsRun(q, s, n, v);
      SuffixDrop(s, n, lead + BytesBits(input));
      FeedTrailer(r, history, v);
      r := TrailerByte(r, v);
      return Go;
    }

    /** The block header (state 3), with the tables of a static block. */
    method DoBlockHeader() returns (stop: Stop)
      requires Valid() && r.pc.BlockHdr?
      modifies this`r, this`bitBuf, this`numBits, this`cur, look0, look1, tree0, tree1
      ensures Valid() && Advanced(stop)
    {
      hide Pow2, Enc, BytesBits, Stream, Decode, Tables, Ok, Want, Answer, Reaches, Step, IsSuffix, Feed, Carries;
      ghost var q, s := Machine(), Unread();
      WantBlock(q);
      var ok, v := GetBits(3);
      if !ok {
        BitsStuck(q, s, 3);
        ReachRefl(q, s);
        return Starved;
      }
      BitsRun(q, s, 3, v);
      SuffixDrop(s, 3, lead + BytesBits(input));
      FeedBlock(r, history, v);
      r := BlockType(r, v);
      if r.pc.LitLen? {
        BuildStatic();
      }
      return Go;
    }

    /** Both tables of a static block. */
    method BuildStatic()
      requires Shape() && r.sizes0 == StaticLit() && r.sizes1 == StaticDist()
      modifies look0, look1, tree0, tree1
      ensures Tables(look0[..], tree0[..], r.sizes0) && Tables(look1[..], tree1[..], r.sizes1)
    {
      hide Tables, StaticLit, StaticDist, Buildable;
      StaticLengths();
      var ok1 := BuildTable(r.sizes1, look1, tree1);
      var ok0 := BuildTable(r.sizes0, look0, tree0);
    }

    /** Skip to the byte boundary before the header of a stored block (state 5). */
    method DoRawAlign() returns (stop: Stop)
      requires Valid() && r.pc.RawAlign?
      modifies this`r, this`bitBuf, this`numBits
      ensures Valid() && Advanced(stop)
    {
      hide Pow2, Enc, BytesBits, Stream, Decode, Tables, Ok, Want, Answer, Reaches, Step, IsSuffix, Feed, Carries,
        Aligned;
      ghost var q, s := Machine(), Unread();
      SkipToByte();
      AlignRun(q, s);
      FeedRawAlign(r, history);
      r := r.(raw := [], pc := RawHdr(0));
      return Go;
    }

    method SkipToByte()
      requires Clean() && !filling
      modifies this`bitBuf, this`numBits
      ensures Clean() && numBits % 8 == 0
      ensures Unread() == Aligned(old(Unread()))
      ensures IsSuffix(old(Unread()), lead + BytesBits(input)) ==> IsSuffix(Unread(), lead + BytesBits(input))
    {
      hide Pow2, Enc, BytesBits, Shr, Stream, IsSuffix, Val, Aligned;
      var k := numBits % 8;
      AlignedIs(bitBuf, numBits, input, cur);
      DropBits(bitBuf, numBits, k, input, cur);
      bitBuf := Shr(bitBuf, k);
      numBits := numBits - k;
      if IsSuffix(old(Unread()), lead + BytesBits(input)) {
        SuffixDrop(old(Unread()), k, lead + BytesBits(input));
      }
    }

    /** Give back whole bytes that have been read in this call but not used. */
    method PutBackBytes()
      requires Clean() && !filling && IsSuffix(Unread(), lead + BytesBits(input))
      modifies this`bitBuf, this`numBits, this`cur
      ensures Clean() && Unread() == old(Unread()) && (numBits < 8 || cur == 0)
      ensures numBits % 8 == old(numBits) % 8 && numBits <= old(numBits)
      ensures numBits % 8 == 0 ==> (numBits == 0 <==> |Unread()| <= 8 * |input|)
    {
      hide Pow2, Enc, BytesBits, Stream;
      ghost var whole, s := lead + BytesBits(input), Unread();
      while cur > 0 && numBits >= 8
        invariant cur <= |input| && numBits <= 61 && Stream(bitBuf, numBits, input, cur) == s
        invariant numBits % 8 == old(numBits) % 8 && numBits <= old(numBits)
      {
        PutBack(bitBuf, numBits, input, cur, lead, |whole| - |s|);
        cur := cur - 1;
        numBits := numBits - 8;
      }
      MaskTop(bitBuf, numBits, input, cur);
      bitBuf := bitBuf % Pow2(numBits);
      StreamLength(bitBuf, numBits, input, cur);
    }

    /** Byte alignment at the end of the stream (state 32).  The assertion there, that the reservoir is empty then,
        holds exactly when the stream has ended within the input of this call. */
    method DoFinalAlign() returns (stop: Stop)
      requires Valid() && r.pc.FinalAlign?
      modifies this`r, this`bitBuf, this`numBits, this`cur
      ensures Valid() && Advanced(stop)
      ensures numBits == 0 <==> |Unread()| <= 8 * |input|
    {
      hide Pow2, Enc, BytesBits, Stream, Decode, Tables, Ok, Want, Answer, Reaches, Step, IsSuffix, Feed, Carries,
        Aligned;
      ghost var q, s := Machine(), Unread();
      SkipToByte();
      PutBackBytes();
      AlignRun(q, s);
      FeedFinalAlign(r, history);
      r := r.(pc := if r.zlib then Trailer(0) else Done);
      return Go;
    }

    /** A length of the code length code (state 14), and its table. */
    method DoCodeLengthLength() returns (stop: Stop)
      requires Valid() && r.pc.CodeLenLen?
      modifies this`r, this`bitBuf, this`numBits, this`cur, look2, tree2
      ensures Valid() && Advanced(stop)
    {
      hide Pow2, Enc, BytesBits, Stream, Decode, Tables, Ok, Want, Answer, Reaches, Step, IsSuffix, Feed, Carries;
      ghost var q, s := Machine(), Unread();
      WantCodeLenLen(q);
      var ok, v := GetBits(3);
      if !ok {
        BitsStuck(q, s, 3);
        ReachRefl(q, s);
        return Starved;
      }
      BitsRun(q, s, 3, v);
      SuffixDrop(s, 3, lead + BytesBits(input));
      FeedCodeLenLen(r, history, v);
      StoreLength(v);
      return Go;
    }

    method StoreLength(v: nat)
      requires Shape() && r.pc.CodeLenLen? && |r.tableSizes| == 3 && r.pc.i < r.tableSizes[2] <= 19 && v < 8
      requires |r.sizes2| == 19 && forall k :: 0 <= k < 19 ==> r.sizes2[k] <= 7
      modifies this`r, look2, tree2
      ensures r == CodeLengthSizes(old(r), v) && (Quiet(r.pc) || r.pc.CodeLen?) && !Bytewise(r.pc)
      ensures r.pc.CodeLen? ==> Tables(look2[..], tree2[..], r.sizes2)
    {
      hide Tables, Buildable, Transmitted;
      r := r.(sizes2 := r.sizes2[Transmitted(r.pc.i) := v]);
      if r.pc.i + 1 < r.tableSizes[2] {
        r := r.(pc := CodeLenLen(r.pc.i + 1));
      } else {
        var built := BuildTable(r.sizes2, look2, tree2);
        r := if built then r.(pc := CodeLen, lenCodes := []) else r.(pc := Failed(35));
      }
    }

    /** After some code lengths have been added (`m_len_codes`): all of them, too many, or more to come. */
    method FinishLengths()
      requires Shape() && |r.tableSizes| == 3 && 257 <= r.tableSizes[0] <= 288 && 1 <= r.tableSizes[1] <= 32
      requires forall k :: 0 <= k < |r.lenCodes| ==> r.lenCodes[k] <= MAX_BITS
      modifies this`r, look0, look1, tree0, tree1
      ensures r == CodeLengthsDone(old(r))
      ensures r.pc.LitLen? ==> Tables(look0[..], tree0[..], r.sizes0) && Tables(look1[..], tree1[..], r.sizes1)
    {
      hide Tables, Buildable;
      var total := r.tableSizes[0] + r.tableSizes[1];
      if |r.lenCodes| < total {
        r := r.(pc := CodeLen);
      } else if |r.lenCodes| != total {
        r := r.(pc := Failed(21));
      } else {
        r := r.(sizes0 := r.lenCodes[..r.tableSizes[0]], sizes1 := r.lenCodes[r.tableSizes[0]..]);
        var ok1 := BuildTable(r.sizes1, look1, tree1);
        if !ok1 {
          r := r.(pc := Failed(35));
          return;
        }
        var ok0 := BuildTable(r.sizes0, look0, tree0);
        r := if ok0 then r.(pc := LitLen) else r.(pc := Failed(35));
      }
    }

    /** More code lengths lead to the state `q`. */
    method AddLengths(more: seq<nat>, ghost q: Inflater)
      requires Shape() && Clean() && Placed() && !filling && (r.pc.CodeLen? || r.pc.CodeLenRep?)
      requires Tables(look2[..], tree2[..], r.sizes2)
      requires IsSuffix(Unread(), lead + BytesBits(input)) && |r.tableSizes| == 3
      requires 257 <= r.tableSizes[0] <= 288 && 1 <= r.tableSizes[1] <= 32
      requires forall k :: 0 <= k < |r.lenCodes| ==> r.lenCodes[k] <= MAX_BITS
      requires forall k :: 0 <= k < |more| ==> more[k] <= MAX_BITS
      requires Ok(q) && q == CodeLengthsDone(r.(lenCodes := r.lenCodes + more)).(out := history)
      modifies this`r, look0, look1, tree0, tree1
      ensures Valid() && Machine() == q && r.lenCodes == old(r.lenCodes) + more
    {
      hide Stream, BytesBits, Decode, Tables, Ok, IsSuffix, Carries, CodeLengthsDone, Pow2;
      r := r.(lenCodes := r.lenCodes + more);
      DoneFacts(r);
      FinishLengths();
    }

    /** A symbol of the code length code leads to the state `q`: a length is kept, a repetition needs its count. */
    method UseCodeLength(sym: nat, ghost q: Inflater)
      requires Shape() && Clean() && Placed() && !filling && r.pc.CodeLen? && sym < 19
      requires Tables(look2[..], tree2[..], r.sizes2)
      requires IsSuffix(Unread(), lead + BytesBits(input)) && |r.tableSizes| == 3
      requires 257 <= r.tableSizes[0] <= 288 && 1 <= r.tableSizes[1] <= 32
      requires forall k :: 0 <= k < |r.lenCodes| ==> r.lenCodes[k] <= MAX_BITS
      requires Ok(q) && q == (if sym < 16 then CodeLengthsDone(r.(lenCodes := r.lenCodes + [sym])).(out := history)
        else if sym == 16 && |r.lenCodes| == 0 then r.(pc := Failed(17), out := history)
          else r.(pc := CodeLenRep(sym), out := history))
      modifies this`r, look0, look1, tree0, tree1
      ensures Valid() && Machine() == q && (sym < 16 ==> |r.lenCodes| > |old(r.lenCodes)|)
    {
      hide Stream, BytesBits, Decode, Tables, Ok, IsSuffix, Carries, CodeLengthsDone, Pow2, Enc;
      if sym < 16 {
        AddLengths([sym], q);
      } else if sym == 16 && |r.lenCodes| == 0 {
        r := r.(pc := Failed(17));
      } else {
        r := r.(pc := CodeLenRep(sym));
      }
    }

    /** A symbol of the code length code (state 16). */
    method DoCodeLength() returns (stop: Stop)
      requires Valid() && r.pc.CodeLen?
      modifies this`r, this`bitBuf, this`numBits, this`cur, this`filling, look0, look1, tree0, tree1
      ensures Valid() && Advanced(stop)
    {
      hide Pow2, Enc, BytesBits, Stream, Decode, Tables, Ok, Want, Answer, Reaches, Step, IsSuffix, Feed, Carries,
        CodeLengthsDone;
      ghost var q, s := Machine(), Unread();
      WantCodeLen(q);
      ghost var len;
      var ok, dist;
      ok, dist, len := HuffDecode(look2, tree2, r.sizes2);
      if !ok {
        SymbolStuck(q, s, 2);
        ReachRefl(q, s);
        NothingUnread(bitBuf, numBits, input, cur);
        return Starved;
      }
      SymbolRun(q, s, 2, dist, len);
      SuffixDrop(s, len, lead + BytesBits(input));
      CodeLenFacts(q, dist);
      FeedCodeLen(r, history, dist);
      UseCodeLength(dist, Feed(q, dist));
      return Go;
    }

    /** The extra bits of a repetition (state 18); `m_len_codes` never holds more than 457 lengths. */
    method DoCodeLengthRepeat() returns (stop: Stop)
      requires Valid() && r.pc.CodeLenRep?
      modifies this`r, this`bitBuf, this`numBits, this`cur, look0, look1, tree0, tree1
      ensures Valid() && Advanced(stop) && |r.lenCodes| <= 288 + 32 + 137
    {
      hide Pow2, Enc, BytesBits, Stream, Decode, Tables, Ok, Want, Answer, Reaches, Step, IsSuffix, Feed, Carries,
        CodeLengthsDone;
      ghost var q, s := Machine(), Unread();
      WantCodeLenRep(q);
      var n := if r.pc.rep == 16 then 2 else if r.pc.rep == 17 then 3 else 7;
      var ok, v := GetBits(n);
      CodeLenRepFacts(q);
      if !ok {
        BitsStuck(q, s, n);
        ReachRefl(q, s);
        return Starved;
      }
      BitsRun(q, s, n, v);
      SuffixDrop(s, n, lead + BytesBits(input));
      FeedCodeLenRep(r, history, v);
      var times := v + (if r.pc.rep == 18 then 11 else 3);
      var value := if r.pc.rep == 16 then r.lenCodes[|r.lenCodes| - 1] else 0;
      AddLengths(Repeat(value, times), Feed(q, v));
      return Go;
    }

    // ---------- output ----------

    /** `*pOut_buf_cur++ = b` */
    method PutByte(b: byte)
      requires Placed() && outPos < outEnd
      modifies this`outPos, this`history, out
      ensures Placed() && history == old(history) + [b] && outPos == old(outPos) + 1
    {
      hide Carries;
      ghost var was := out[..];
      CarriesBounds(out[..], outPos, outEnd, r.window, history);
      CarriesPut(out[..], outPos, outEnd, r.window, history, b);
      out[outPos] := b;
      assert out[..] == was[outPos := b];
      outPos := outPos + 1;
      history := history + [b];
    }

    /** A literal for which there is room (state 24). */
    method DoLiteral() returns (stop: Stop)
      requires Valid() && r.pc.PutLit?
      modifies this`r, this`outPos, this`history, out
      ensures Valid() && Advanced(stop)
    {
      hide Pow2, Enc, BytesBits, Stream, Decode, Tables, Ok, Want, Answer, Reaches, Step, IsSuffix, Feed, Carries;
      ghost var q, s := Machine(), Unread();
      var b := r.pc.b;
      WantEmit(q);
      HistoryLength();
      if outPos >= outEnd {
        ReachRefl(q, s);
        return Full;
      }
      ReachEmit(q, s);
      FeedOk(q, b);
      FeedLiteral(q);
      PutByte(b);
      r := r.(pc := LitLen);
      return Go;
    }

    /** A byte of a stored block that came out of the reservoir (state 52). */
    method DoStoredPut() returns (stop: Stop)
      requires Valid() && r.pc.RawPut?
      modifies this`r, this`outPos, this`history, out
      ensures Valid() && Advanced(stop)
    {
      hide Pow2, Enc, BytesBits, Stream, Decode, Tables, Ok, Want, Answer, Reaches, Step, IsSuffix, Feed, Carries;
      ghost var q, s := Machine(), Unread();
      var b := r.pc.b;
      WantEmit(q);
      HistoryLength();
      if outPos >= outEnd {
        ReachRefl(q, s);
        return Full;
      }
      ReachEmit(q, s);
      FeedOk(q, b);
      FeedStoredPut(r, history);
      PutByte(b);
      r := StoredLeft(r, 1);
      return Go;
    }

    /** The bytes of a stored block: out of the reservoir (state 51), or copied (states 9 and 38). */
    method DoStoredByte() returns (stop: Stop)
      requires Valid() && r.pc.RawByte?
      modifies this`r, this`bitBuf, this`numBits, this`cur, this`outPos, this`history, out
      ensures Valid() && Advanced(stop)
    {
      hide Pow2, Enc, BytesBits, Stream, Decode, Tables, Ok, Want, Answer, Reaches, Step, IsSuffix, Feed, Carries;
      ghost var q, s := Machine(), Unread();
      WantStoredByte(q);
      if numBits > 0 {
        // whole bytes are held, so this never waits
        StreamLength(bitBuf, numBits, input, cur);
        var ok, v := GetBits(8);
        BitsRun(q, s, 8, v);
        SuffixDrop(s, 8, lead + BytesBits(input));
        FeedStoredByte(r, history, v);
        r := r.(pc := RawPut(v));
        return Go;
      }
      HistoryLength();
      if outPos >= outEnd {
        ReachRefl(q, s);
        return Full;
      }
      if cur >= |input| {
        StreamLength(bitBuf, numBits, input, cur);
        BitsStuck(q, s, 8);
        ReachRefl(q, s);
        return Starved;
      }
      CopyStored();
      return Go;
    }

    /** `memcpy` of as many bytes as there are, as fit, and as belong to the block. */
    method CopyStored()
      requires Valid() && r.pc.RawByte? && numBits == 0 && outPos < outEnd && cur < |input|
      modifies this`r, this`cur, this`outPos, this`history, out
      ensures Valid() && Advanced(Go)
    {
      hide Pow2, Enc, BytesBits, Stream, Decode, Tables, Ok, Want, Answer, Reaches, Step, IsSuffix, Feed, Carries,
        Shape;
      ghost var q, s := Machine(), Unread();
      StoredCounter(q);
      var n := if outEnd - outPos < |input| - cur then outEnd - outPos else |input| - cur;
      if r.counter < n {
        n := r.counter;
      }
      ghost var data := input[cur..cur + n];
      ghost var rest := Stream(bitBuf, numBits, input, cur + n);
      BytesAhead(bitBuf, input, cur, n);
      RunStoredSome(q, data, rest);
      SuffixDrop(s, 8 * n, lead + BytesBits(input));
      MoveStored(n, StoredLeft(q, n).(out := q.out + data));
    }

    method MoveStored(n: nat, ghost q: Inflater)
      requires Shape() && Clean() && Placed() && r.pc.RawByte? && numBits == 0 && !filling
      requires cur + n <= |input| && outPos + n <= outEnd && n <= r.counter
      requires Ok(q) && q == StoredLeft(r, n).(out := history + input[cur..cur + n])
      requires IsSuffix(Stream(bitBuf, numBits, input, cur + n), lead + BytesBits(input))
      modifies this`r, this`cur, this`outPos, this`history, out
      ensures Valid() && Machine() == q && Unread() == Stream(bitBuf, numBits, input, old(cur) + n)
      ensures |history| - outPos == old(|history| - outPos)
    {
      hide Pow2, Enc, BytesBits, Stream, Decode, Tables, Ok, Want, Answer, Reaches, Step, IsSuffix, Feed, Carries,
        Shape;
      CopyIn(n);
      cur := cur + n;
      r := StoredLeft(r, n);
    }

    method CopyIn(n: nat)
      requires cur + n <= |input| && outPos + n <= outEnd && Placed()
      modifies this`outPos, this`history, out
      ensures Placed() && history == old(history) + input[cur..cur + n] && outPos == old(outPos) + n
    {
      hide Carries;
      ghost var before := history;
      CarriesBounds(out[..], outPos, outEnd, r.window, history);
      assert before + input[cur..cur] == before;
      for i := 0 to n
        invariant cur + n <= |input| && old(outPos) + n <= outEnd && outPos == old(outPos) + i
        invariant history == before + input[cur..cur + i] && Placed()
      {
        OneMore(before, input, cur, i);
        PutByte(input[cur + i]);
      }
    }

    // ---------- the symbol loop ----------

    /** One literal/length symbol, when input or room is short (state 23). */
    method DoSymbol() returns (stop: Stop)
      requires Valid() && r.pc.LitLen?
      modifies this`r, this`bitBuf, this`numBits, this`cur, this`filling
      ensures Valid() && Advanced(stop)
    {
      hide Pow2, Enc, BytesBits, Stream, Decode, Tables, Ok, Want, Answer, Reaches, Step, IsSuffix, Feed, Carries;
      ghost var q, s := Machine(), Unread();
      WantSymbol(q);
      ghost var len;
      var ok, sym;
      ok, sym, len := HuffDecode(look0, tree0, r.sizes0);
      if !ok {
        SymbolStuck(q, s, 0);
        ReachRefl(q, s);
        NothingUnread(bitBuf, numBits, input, cur);
        return Starved;
      }
      SymbolRun(q, s, 0, sym, len);
      SuffixDrop(s, len, lead + BytesBits(input));
      FeedSymbol(r, history, sym);
      r := LitLenSym(r, sym);
      return Go;
    }

    /** `if (num_bits < 30)`: four bytes at once. */
    method LoadFast()
      requires Clean() && !filling && |input| - cur >= 4
      modifies this`bitBuf, this`numBits, this`cur
      ensures Clean() && Unread() == old(Unread()) && numBits >= 30
    {
      hide Pow2, Enc, BytesBits, BitOr, Shl, Stream, Le32;
      if numBits < 30 {
        LoadWord(bitBuf, numBits, input, cur);
        bitBuf := BitOr(bitBuf, Shl(Le32(input, cur), numBits));
        cur := cur + 4;
        numBits := numBits + 32;
      }
    }

    /** One lookup of the fast path. */
    method FastSymbol(ghost q: Inflater) returns (sym: nat)
      requires Clean() && TablesOk() && r.pc.LitLen? && !filling && numBits >= MAX_BITS
      requires Ok(q) && q == r.(out := q.out) && IsSuffix(Unread(), lead + BytesBits(input))
      modifies this`bitBuf, this`numBits
      ensures Clean() && numBits >= old(numBits) - MAX_BITS && IsSuffix(Unread(), lead + BytesBits(input))
      ensures Answer(q, sym) && Ok(Feed(q, sym)) && Reaches(q, old(Unread()), Feed(q, sym), Unread())
      ensures sym < 288 && Feed(q, sym) == LitLenSym(r, sym).(out := q.out)
      ensures (sym < 256 ==> LitLenSym(r, sym) == r.(pc := PutLit(sym)))
      ensures LitLenSym(r, sym).sizes0 == r.sizes0 && LitLenSym(r, sym).sizes1 == r.sizes1
      ensures var pc := LitLenSym(r, sym).pc; !Bytewise(pc) && (Quiet(pc) || pc.PutLit? || pc.LenExtra? || pc.DistSym?)
    {
      hide Pow2, Enc, BytesBits, Stream, Decode, Tables, Ok, Want, Answer, Reaches, Step, IsSuffix, Feed, Carries;
      ghost var s := Unread();
      WantSymbol(q);
      EnoughBits(r.sizes0, look0[..], tree0[..], bitBuf, numBits);
      ghost var len;
      sym, len := TakeSymbol(look0, tree0, r.sizes0);
      SymbolRun(q, s, 0, sym, len);
      SuffixDrop(s, len, lead + BytesBits(input));
      FeedSymbol(r, q.out, sym);
    }

    /** The fast path: two symbols from at least thirty bits. */
    method DoSymbolsFast()
      requires Valid() && r.pc.LitLen? && !filling && |input| - cur >= 4 && outEnd - outPos >= 2
      modifies this`r, this`bitBuf, this`numBits, this`cur, this`outPos, this`history, out
      ensures Valid() && Advanced(Go)
    {
      hide Pow2, Enc, BytesBits, Stream, Decode, Tables, Ok, Want, Answer, Reaches, Step, IsSuffix, Feed, Carries,
        Quiet, Shape;
      ghost var q, s := Machine(), Unread();
      LoadFast();
      var sym1 := FastSymbol(q);
      ghost var s1 := Unread();
      if sym1 / 256 % 2 == 1 {
        r := LitLenSym(r, sym1);
        QuietPc(r.pc);
        return;
      }
      ghost var q1 := LiteralNext(q, s, Feed(q, sym1), s1);
      SecondSymbol(sym1, q, s, q1);
    }

    /** The second symbol, without another look at the input; both literals are written at the end. */
    method SecondSymbol(lit: byte, ghost q: Inflater, ghost s: bits, ghost q1: Inflater)
      requires Shape() && TablesOk() && Clean() && Placed() && !filling && r.pc.LitLen? && numBits >= MAX_BITS
      requires outEnd - outPos >= 2
      requires Ok(q1) && q1 == r.(out := history + [lit]) && Reaches(q, s, q1, Unread())
      requires IsSuffix(Unread(), lead + BytesBits(input))
      modifies this`r, this`bitBuf, this`numBits, this`outPos, this`history, out
      ensures Valid() && |history| > |old(history)| && Reaches(q, s, Machine(), Unread())
      ensures |history| - outPos == old(|history| - outPos)
    {
      hide Pow2, Enc, BytesBits, Stream, Decode, Tables, Ok, Want, Answer, Reaches, Step, IsSuffix, Feed, Carries,
        Quiet, Shape;
      ghost var s1 := Unread();
      var sym2 := FastSymbol(q1);
      ghost var s2 := Unread();
      PutByte(lit);
      ReachTrans(q, s, q1, s1, Feed(q1, sym2), s2);
      if sym2 / 256 % 2 == 1 {
        r := LitLenSym(r, sym2);
        QuietPc(r.pc);
        return;
      }
      ghost var q2 := LiteralNext(q, s, Feed(q1, sym2), s2);
      PutByte(sym2);
    }

    // ---------- matches ----------

    /** The distance symbol (state 26). */
    method DoDistance() returns (stop: Stop)
      requires Valid() && r.pc.DistSym?
      modifies this`r, this`bitBuf, this`numBits, this`cur, this`filling, this`outPos, this`history, out
      ensures Valid() && Advanced(stop)
    {
      hide Pow2, Enc, BytesBits, Stream, Decode, Tables, Ok, Want, Answer, Reaches, Step, IsSuffix, Feed, Carries;
      ghost var q, s := Machine(), Unread();
      WantDistance(q);
      ghost var len;
      var ok, sym;
      ok, sym, len := HuffDecode(look1, tree1, r.sizes1);
      if !ok {
        SymbolStuck(q, s, 1);
        ReachRefl(q, s);
        NothingUnread(bitBuf, numBits, input, cur);
        return Starved;
      }
      SymbolRun(q, s, 1, sym, len);
      SuffixDrop(s, len, lead + BytesBits(input));
      FeedDistance(r, history, sym);
      if DistanceExtra(sym) > 0 {
        r := r.(pc := DistExtra(sym));
        return Go;
      }
      stop := BeginMatch(DistanceBase(sym), q, s);
    }

    /** The extra bits of the distance (state 27). */
    method DoDistanceExtra() returns (stop: Stop)
      requires Valid() && r.pc.DistExtra?
      modifies this`r, this`bitBuf, this`numBits, this`cur, this`filling, this`outPos, this`history, out
      ensures Valid() && Advanced(stop)
    {
      hide Pow2, Enc, BytesBits, Stream, Decode, Tables, Ok, Want, Answer, Reaches, Step, IsSuffix, Feed, Carries,
        TablesOk;
      ghost var q, s := Machine(), Unread();
      WantDistanceExtra(q);
      var n := DistanceExtra(r.pc.dsym);
      var base := DistanceBase(r.pc.dsym);
      var ok, v := GetBits(n);
      if !ok {
        BitsStuck(q, s, n);
        ReachRefl(q, s);
        return Starved;
      }
      BitsRun(q, s, n, v);
      SuffixDrop(s, n, lead + BytesBits(input));
      FeedDistanceExtra(r, history, v);
      stop := BeginMatch(base + v, q, s);
    }

    /** The distance is known: check it (state 37), and copy. */
    method BeginMatch(dist: nat, ghost q: Inflater, ghost s: bits) returns (stop: Stop)
      requires Shape() && TablesOk() && Clean() && Placed() && !filling && Decoding(r.pc) && !r.pc.Copy?
      requires IsSuffix(Unread(), lead + BytesBits(input)) && Ok(q) && q.pc == r.pc && !r.pc.LitLen?
      requires Ok(StartCopy(Machine(), dist)) && Reaches(q, s, StartCopy(Machine(), dist), Unread())
      modifies this`r, this`bitBuf, this`numBits, this`cur, this`filling, this`outPos, this`history, out
      ensures Valid() && Reaches(q, s, Machine(), Unread())
      ensures stop.Go? ==> r.pc != old(r.pc)
      ensures stop.Full? ==> outPos == outEnd && Want(Machine()).Emit?
      ensures (stop.Go? || stop.Full?) && |history| - outPos == old(|history| - outPos)
    {
      hide Pow2, Enc, BytesBits, Stream, Decode, Tables, Ok, Want, Answer, Reaches, Step, IsSuffix, Feed, Carries;
      CarriesBounds(out[..], outPos, outEnd, r.window, history);
      if r.window == 0 && (dist == 0 || dist > outPos) {
        r := r.(dist := dist, pc := Failed(37));
        return Go;
      }
      if r.counter == 0 {
        r := r.(dist := dist, pc := LitLen);
        return Go;
      }
      r := r.(dist := dist, pc := Copy);
      stop := CopyMatch(true, q, s);
    }

    /** The copy: in one go when neither source nor target gets to the end of the room, else byte by byte.
        `dist` bytes back is where the masked distance leads. */
    method CopyOut(entry: bool, counter: nat, ghost dist: nat) returns (left: nat)
      requires Placed() && dist == Back(r) && 1 <= dist <= |history| && counter > 0
      modifies this`outPos, this`history, out
      ensures Placed() && left <= counter && history == CopyBack(old(history), counter - left, dist)
      ensures left > 0 ==> outPos == outEnd
      ensures outPos == old(outPos) + (counter - left)
    {
      hide CopyBack, Recent, Carries, Back, Masked, Leads;
      ghost var before := history;
      ReadyToCopy(out[..], outPos, outEnd, r, before, dist);
      left := 0;
      var src := Masked(outPos - r.dist, r.window);
      if entry && (if src > outPos then src else outPos) + counter <= outEnd {
        outPos := TripleCopy(out, outPos, src, outEnd, counter, dist, before);
      } else {
        outPos, left := MaskedCopy(out, outPos, outEnd, counter, r.dist, r.window, dist, before);
      }
      history := CopyBack(before, counter - left, dist);
      Copied(out[..], old(outPos), outEnd, r.window, before, counter - left, dist);
    }

    /** A match is copied as far as there is room (state 53). */
    method CopyMatch(entry: bool, ghost q: Inflater, ghost s: bits) returns (stop: Stop)
      requires Valid() && r.pc.Copy? && Reaches(q, s, Machine(), Unread())
      modifies this`r, this`outPos, this`history, out
      ensures Valid() && Reaches(q, s, Machine(), Unread())
      ensures stop.Go? ==> r.pc.LitLen?
      ensures stop.Full? ==> outPos == outEnd && Want(Machine()).Emit? && r.pc.Copy?
      ensures (stop.Go? || stop.Full?) && |history| - outPos == old(|history| - outPos)
    {
      hide Pow2, Enc, BytesBits, Stream, Decode, Tables, Ok, Want, Answer, Reaches, Step, IsSuffix, Feed, Carries,
        CopyBack;
      ghost var q0, s0 := Machine(), Unread();
      CopyFacts(q0);
      var left := CopyOut(entry, r.counter, Back(r));
      ghost var n := r.counter - left;
      RunCopySome(q0, s0, n);
      ReachTrans(q, s, q0, s0, CopiedState(q0, n), s0);
      ReachOk(q0, s0, CopiedState(q0, n), s0);
      r := if left == 0 then r.(pc := LitLen, counter := 0) else r.(counter := left);
      assert Machine() == CopiedState(q0, n);
      if left > 0 {
        WantEmit(Machine());
        return Full;
      }
      return Go;
    }

    /** Resuming a suspended copy. */
    method DoCopy() returns (stop: Stop)
      requires Valid() && r.pc.Copy?
      modifies this`r, this`outPos, this`history, out
      ensures Valid() && Advanced(stop)
    {
      hide Pow2, Enc, BytesBits, Stream, Decode, Tables, Ok, Want, Answer, Reaches, Step, IsSuffix, Feed, Carries;
      ghost var q, s := Machine(), Unread();
      ReachRefl(q, s);
      stop := CopyMatch(false, q, s);
    }

    // ---------- a whole call ----------

    /** Go on at the current resumption point. */
    method Dispatch() returns (stop: Stop)
      requires Valid()
      modifies this`r, this`bitBuf, this`numBits, this`cur, this`filling, this`outPos, this`history,
               out, look0, look1, look2, tree0, tree1, tree2
      ensures Valid() && Advanced(stop)
    {
      hide Shape, Placed, TablesOk, Filling, Reaches, Ok, Step, Want, Stream, IsSuffix, BytesBits, Pow2;
      if r.pc.LitLen? && !filling && |input| - cur >= 4 && outEnd - outPos >= 2 {
        DoSymbolsFast();
        return Go;
      }
      match r.pc
      case ZHdr0 => stop := DoZlibHeader();
      case ZHdr1 => stop := DoZlibHeader();
      case BlockHdr => stop := DoBlockHeader();
      case RawAlign => stop := DoRawAlign();
      case RawHdr(_) => stop := DoRawHeader();
      case RawByte => stop := DoStoredByte();
      case RawPut(_) => stop := DoStoredPut();
      case TableSize(_) => stop := DoTableSize();
      case CodeLenLen(_) => stop := DoCodeLengthLength();
      case CodeLen => stop := DoCodeLength();
      case CodeLenRep(_) => stop := DoCodeLengthRepeat();
      case LitLen => stop := DoSymbol();
      case PutLit(_) => stop := DoLiteral();
      case LenExtra(_) => stop := DoLengthExtra();
      case DistSym => stop := DoDistance();
      case DistExtra(_) => stop := DoDistanceExtra();
      case Copy => stop := DoCopy();
      case FinalAlign => stop := DoFinalAlign();
      case Trailer(_) => stop := DoTrailer();
      case Done => StayHere(); stop := Halted;
      case Failed(_) => StayHere(); stop := Halted;
    }

    lemma StayHere()
      requires Ok(Machine()) && cur <= |input|
      ensures Reaches(Machine(), Unread(), Machine(), Unread())
    {
      hide Ok, Reaches, Stream;
      ReachRefl(Machine(), Unread());
    }

    /** The coroutine runs until it is suspended or has ended. */
    method Run() returns (stop: Stop)
      requires Valid()
      modifies this`r, this`bitBuf, this`numBits, this`cur, this`filling, this`outPos, this`history,
               out, look0, look1, look2, tree0, tree1, tree2
      ensures Valid() && !stop.Go? && Ended(stop)
      ensures Reaches(old(Machine()), old(Unread()), Machine(), Unread())
      ensures |history| - outPos == old(|history| - outPos)
    {
      hide Shape, Placed, TablesOk, Filling, Reaches, Ok, Step, Want, Stream, IsSuffix, BytesBits, Pow2, Closer, Rank;
      ghost var q0, s0 := Machine(), Unread();
      StayHere();
      stop := Go;
      ghost var rank: nat := Rank(Machine());
      while stop.Go?
        invariant Valid() && Reaches(q0, s0, Machine(), Unread())
        invariant out == old(out) && outEnd == old(outEnd) && rank == Rank(Machine())
        invariant |history| - outPos == old(|history| - outPos)
        invariant !stop.Go? ==> Ended(stop)
        decreases stop.Go?, |Unread()|, outEnd - outPos, rank
      {
        ghost var q, s, pos := Machine(), Unread(), outPos;
        HistoryLength();
        stop := Dispatch();
        ReachTrans(q0, s0, q, s, Machine(), Unread());
        rank := Rank(Machine());
        HistoryLength();
        if stop.Go? {
          ReachCloser(q, s, Machine(), Unread());
          CloserMeans(q, s, Machine(), Unread());
        }
      }
    }

    ghost predicate Ended(stop: Stop)
      requires cur <= |input| && Ok(Machine())
      reads this
    {
      && (stop.Starved? ==> cur == |input| && Step(Machine(), Unread()).Stuck? && !r.pc.Done? && !r.pc.Failed?)
      && (stop.Starved? && r.pc.RawByte? ==> outPos < outEnd)
      && (stop.Full? ==> outPos == outEnd && (Want(Machine()).Emit? || r.pc.RawByte?))
      && (stop.Halted? ==> r.pc.Done? || r.pc.Failed?)
    }

    /** What a caller may know about the machine. */
    lemma MachineIs()
      ensures Machine().out == history && Machine().pc == r.pc && Machine().zlib == r.zlib
      ensures Machine().zAdler == r.zAdler
      ensures Machine().window == r.window && |Held()| == numBits
    {
    }

    lemma HistoryLength()
      requires Placed()
      ensures outPos <= outEnd
    {
      hide Recent;
    }

    /** The state between two calls. */
    ghost predicate Ready()
      reads this, look0, look1, look2, tree0, tree1, tree2
    {
      && Shape() && TablesOk() && Filling() && WholeBytes() && Ok(Machine())
      && numBits <= 61 && bitBuf < Pow2(numBits) && (filling ==> numBits < MAX_BITS)
      && (r.pc.ZHdr0? || r.pc.ZHdr1? ==> numBits == 0) && Adler32.ValidWord(checkAdler)
    }

    /** The bits kept from one call to the next. */
    ghost function Held(): bits
      reads this`bitBuf, this`numBits
    {
      Enc(bitBuf, numBits)
    }

    /** `tinfl_init`, and what the first call sets up.  A circular buffer of size `window` can be read before
        it has been written; then `before` is what it holds. */
    constructor (zlib: bool, window: nat, ghost before: seq<byte>)
      requires window <= |before|
      ensures Ready() && Machine() == InitialIn(zlib, window, before) && Held() == [] && history == before
      ensures checkAdler == 1
      ensures fresh(look0) && fresh(look1) && fresh(look2) && fresh(tree0) && fresh(tree1) && fresh(tree2)
    {
      hide *;
      var l0 := ZeroInts(FAST_SIZE);
      var l1 := ZeroInts(FAST_SIZE);
      var l2 := ZeroInts(FAST_SIZE);
      var t0 := ZeroInts(576);
      var t1 := ZeroInts(64);
      var t2 := ZeroInts(38);
      look0, look1, look2, tree0, tree1, tree2 := l0, l1, l2, t0, t1, t2;
      r := InitialIn(zlib, window, []);
      bitBuf, numBits, filling, checkAdler := 0, 0, false, 1;
      input, cur, outPos, outEnd := [], 0, 0, 0;
      out := new byte[0];
      history, lead := before, [];
      new;
      ReadyAtFirst(zlib, window);
    }

    lemma ReadyAtFirst(zlib: bool, window: nat)
      requires look0.Length == FAST_SIZE && look1.Length == FAST_SIZE && look2.Length == FAST_SIZE
      requires tree0.Length == 576 && tree1.Length == 64 && tree2.Length == 38
      requires look0 != tree0 && look1 != tree1 && look2 != tree2
      requires look0 != look1 && look0 != tree1 && tree0 != look1 && tree0 != tree1
      requires look2 != look0 && look2 != look1 && look2 != tree0 && look2 != tree1
      requires tree2 != look0 && tree2 != look1 && tree2 != tree0 && tree2 != tree1
      requires r == InitialIn(zlib, window, []) && window <= |history|
      requires bitBuf == 0 && numBits == 0 && !filling && checkAdler == 1
      ensures Ready() && Machine() == InitialIn(zlib, window, history) && Held() == []
    {
      hide Tables, SizesOk, SizesPlausible;
      assert Pow2(0) == 1;
    }

    /** `tinfl_decompress`: `data` goes in, and output goes to `buf[next..next + size]`. What was written
        before is still in the buffer: all of it, or as much as a circular buffer holds. */
    method Decompress(data: seq<byte>, buf: array<byte>, next: nat, size: nat, hasMore: bool, computeAdler: bool)
      returns (status: Status, used: nat, made: nat)
      requires Ready() && Carries(buf[..], next, next + size, r.window, history)
      modifies this, buf, look0, look1, look2, tree0, tree1, tree2
      ensures Ready() && used <= |data| && made <= size && Carries(buf[..], next + made, next + size, r.window, history)
      ensures history == old(history) + buf[next..next + made] && r.window == old(r.window) && r.zlib == old(r.zlib)
      ensures Reaches(old(Machine()), old(Held()) + BytesBits(data), Machine(), Held() + BytesBits(data[used..]))
      ensures status == BadParam <==> r.window > 0 && !PowerOfTwo(r.window)
      ensures status == BadParam ==> used == made == 0 && Machine() == old(Machine()) && Held() == old(Held())
      ensures status == NeedsMoreInput || status == CannotMakeProgress ==>
        used == |data| && Step(Machine(),
          Held()).Stuck? && !r.pc.Done? && !r.pc.Failed? && (status == NeedsMoreInput <==> hasMore)
      ensures status == NeedsMoreInput || status == CannotMakeProgress ==> (r.pc.RawByte? ==> made < size)
      ensures status == HasMoreOutput ==> made == size && (Want(Machine()).Emit? || r.pc.RawByte?)
      ensures status == Complete || status == AdlerMismatch ==> r.pc.Done?
      ensures status == Broken <==> status != BadParam && r.pc.Failed?
      ensures r.pc.Done? || r.pc.Failed? ==> status == BadParam || numBits < 8 || used == 0
      ensures r.pc.Done? ==> numBits % 8 == 0
      ensures (r.zlib || computeAdler) && status != CannotMakeProgress && status != Broken && status != BadParam ==>
        checkAdler == Adler32.Adler(old(checkAdler), buf[next..next + made])
      ensures status == AdlerMismatch <==> status != BadParam && r.pc.Done? && r.zlib && checkAdler != r.zAdler
    {
      hide Shape, TablesOk, Filling, Decode, Reaches, Ok, Step, Want, BytesBits, Pow2, Enc, Carries, Adler32.Adler,
        Adler32.ValidWord;
      CarriesBounds(buf[..], next, next + size, r.window, history);
      if r.window > 0 && !PowerOfTwo(r.window) {
        Unmoved(data, buf, next);
        return BadParam, 0, 0;
      }
      var stop := Call(data, buf, next, size);
      status := match stop
        case Starved => if hasMore then NeedsMoreInput else CannotMakeProgress
        case Full => HasMoreOutput
        case _ => if r.pc.Done? then Complete else Broken;
      used, made := cur, outPos - next;
      if stop.Starved? {
        NoTail(data);
        assert Held() + [] == Held();
      }
      if (r.zlib || computeAdler) && status != CannotMakeProgress && status != Broken {
        checkAdler := Adler32.Update(checkAdler, buf[next..next + made]);
        if status == Complete && r.zlib && checkAdler != r.zAdler {
          status := AdlerMismatch;
        }
      }
    }

    lemma Unmoved(data: seq<byte>, buf: array<byte>, next: nat)
      requires Ok(Machine()) && next <= buf.Length
      ensures Reaches(Machine(), Held() + BytesBits(data), Machine(), Held() + BytesBits(data[0..]))
      ensures history == history + buf[next..next]
    {
      hide Ok, Reaches, BytesBits, Enc;
      assert data[0..] == data;
      ReachRefl(Machine(), Held() + BytesBits(data));
    }

    /** One call up to `common_exit`, and the put-back there. */
    method Call(data: seq<byte>, buf: array<byte>, next: nat, size: nat) returns (stop: Stop)
      requires Ready() && Carries(buf[..], next, next + size, r.window, history)
      modifies this`r, this`bitBuf, this`numBits, this`filling, this`input, this`cur, this`out, this`outPos,
               this`outEnd, this`history, this`lead, buf, look0, look1, look2, tree0, tree1, tree2
      ensures Ready() && cur <= |data| && next <= outPos <= next + size
      ensures Carries(buf[..], outPos, next + size, r.window, history)
      ensures history == old(history) + buf[next..outPos] && r.window == old(r.window) && r.zlib == old(r.zlib)
      ensures Reaches(old(Machine()), old(Held()) + BytesBits(data), Machine(), Held() + BytesBits(data[cur..]))
      ensures !stop.Go?
      ensures stop.Starved? ==>
        cur == |data| && Step(Machine(), Held() + BytesBits(data[cur..])).Stuck? && !r.pc.Done? && !r.pc.Failed?
      ensures stop.Starved? && r.pc.RawByte? ==> outPos < next + size
      ensures stop.Full? ==>
        outPos == next + size && (Want(Machine()).Emit? || r.pc.RawByte?) && !r.pc.Done? && !r.pc.Failed?
      ensures stop.Halted? ==> r.pc.Done? || r.pc.Failed?
      ensures r.pc.Done? || r.pc.Failed? ==> numBits < 8 || cur == 0
      ensures r.pc.Done? ==> numBits % 8 == 0
    {
      hide Shape, TablesOk, Decode, Reaches, Ok, Step, Want, Stream, IsSuffix, BytesBits, Pow2, Enc, Carries,
        Adler32.ValidWord;
      ghost var q, s := Machine(), Held() + BytesBits(data);
      Begin(data, buf, next, size);
      stop := Run();
      HistoryLength();
      if !stop.Starved? {
        NotFilling(stop);
        PutBackBytes();
      }
      StreamIs(bitBuf, numBits, input, cur);
      Written(q, s, Unread(), next);
    }

    /** What a run has written. */
    lemma Written(q: Inflater, s: bits, left: bits, next: nat)
      requires Reaches(q, s, Machine(), left) && Placed() && |history| - outPos == |q.out| - next
      ensures r.window == q.window && r.zlib == q.zlib && next <= outPos <= out.Length
      ensures history == q.out + out[next..outPos]
    {
      hide Ok, Reaches, Carries;
      CarriesBounds(out[..], outPos, outEnd, r.window, history);
      ReachOutput(q, s, Machine(), left);
      ReachFrame(q, s, Machine(), left);
      CarriesLatest(out[..], outPos, outEnd, r.window, history, outPos - next);
      assert out[..][next..outPos] == out[next..outPos];
      assert history == history[..|q.out|] + history[|q.out|..];
    }

    /** `TINFL_CR_BEGIN`, with the buffers of this call. */
    method Begin(data: seq<byte>, buf: array<byte>, next: nat, size: nat)
      requires Ready() && Carries(buf[..], next, next + size, r.window, history)
      modifies this`input, this`cur, this`out, this`outPos, this`outEnd, this`lead
      ensures Valid() && Machine() == old(Machine()) && Unread() == Held() + BytesBits(data)
      ensures input == data && cur == 0 && out == buf && outPos == next && outEnd == next + size && lead == Held()
    {
      hide Shape, TablesOk, Decode, Ok, Stream, IsSuffix, BytesBits, Pow2, Enc, Carries, Adler32.ValidWord;
      input, cur, out, outPos, outEnd := data, 0, buf, next, next + size;
      lead := Held();
      StartCall(bitBuf, numBits, data);
    }

    /** Only a starved decompressor is inside a symbol. */
    lemma NotFilling(stop: Stop)
      requires Valid() && Ended(stop) && (stop.Full? || stop.Halted?)
      ensures !filling && (stop.Full? ==> !r.pc.Done? && !r.pc.Failed?)
    {
      hide Shape, TablesOk, Clean, Placed, IsSuffix, Stream, BytesBits, Decode, SizesOk;
    }
  }

  // ---------- the transitions that do not look at the output ----------

  /** The resumption points at which input is taken byte by byte, and the end. */
  predicate Bytewise(pc: Pc) {
    pc.RawHdr? || pc.RawByte? || pc.RawPut? || pc.Trailer? || pc.Done?
  }

  /** No table and no open symbol belongs to this resumption point. */
  predicate Quiet(pc: Pc) {
    !Decoding(pc) && !pc.CodeLen? && !pc.CodeLenRep? && !pc.ZHdr0? && !pc.ZHdr1?
  }

  function LengthExtra(sym: nat): (n: nat)
    requires 257 <= sym <= 287
    ensures n <= 5
  {
    LENGTH_EXTRA[sym - 257]
  }

  function LengthBase(sym: nat): nat
    requires 257 <= sym <= 287
  {
    LENGTH_BASE[sym - 257]
  }

  function ZlibByte(r: Inflater, v: byte): Inflater {
    if r.pc.ZHdr0? then r.(zhdr0 := v, pc := ZHdr1)
    else r.(pc := if ZlibHeaderOk(r.zhdr0, v, r.window) then BlockHdr else Failed(36))
  }

  lemma WantZlib(q: Inflater)
    requires Ok(q) && (q.pc.ZHdr0? || q.pc.ZHdr1?)
    ensures Want(q) == NeedBits(8)
  {
    hide Ok;
  }

  lemma FeedZlib(r: Inflater, o: seq<byte>, v: nat)
    requires Ok(r.(out := o)) && (r.pc.ZHdr0? || r.pc.ZHdr1?) && Answer(r.(out := o), v)
    ensures v < 256 && Feed(r.(out := o), v) == ZlibByte(r, v).(out := o)
  {
    hide Ok, Pow2;
    Pow2Values();
  }

  lemma WantRawHeader(q: Inflater)
    requires Ok(q) && q.pc.RawHdr?
    ensures Want(q) == NeedBits(8)
  {
    hide Ok;
  }

  lemma FeedRawHeader(r: Inflater, o: seq<byte>, v: nat)
    requires Ok(r.(out := o)) && r.pc.RawHdr? && Answer(r.(out := o), v)
    ensures v < 256 && r.pc.i <= 3 && |r.raw| == r.pc.i && Feed(r.(out := o), v) == RawHeader(r, v).(out := o)
    ensures Quiet(RawHeader(r, v).pc)
  {
    hide Pow2, Buildable;
    Pow2Values();
  }

  lemma WantTableSize(q: Inflater)
    requires Ok(q) && q.pc.TableSize?
    ensures Want(q) == NeedBits(if q.pc.i == 2 then 4 else 5)
  {
    hide Ok;
  }

  lemma FeedTableSize(r: Inflater, o: seq<byte>, v: nat)
    requires Ok(r.(out := o)) && r.pc.TableSize? && Answer(r.(out := o), v)
    ensures r.pc.i <= 2 && |r.tableSizes| == 3 && Feed(r.(out := o), v) == TableSizes(r, v).(out := o)
    ensures Quiet(TableSizes(r, v).pc) && !Bytewise(TableSizes(r, v).pc)
  {
    hide Pow2, Buildable;
  }

  lemma WantLengthExtra(q: Inflater)
    requires Ok(q) && q.pc.LenExtra?
    ensures 257 <= q.pc.lsym <= 287 && Want(q) == NeedBits(LengthExtra(q.pc.lsym))
  {
    hide Buildable, LENGTH_EXTRA;
  }

  lemma FeedLengthExtra(r: Inflater, o: seq<byte>, v: nat)
    requires Ok(r.(out := o)) && r.pc.LenExtra? && Answer(r.(out := o), v)
    ensures 257 <= r.pc.lsym <= 287
    ensures Feed(r.(out := o), v) == r.(counter := LengthBase(r.pc.lsym) + v, pc := DistSym, out := o)
  {
    hide Pow2, Buildable, LENGTH_EXTRA, LENGTH_BASE;
  }

  function TrailerByte(r: Inflater, v: nat): Inflater
    requires r.pc.Trailer?
  {
    r.(zAdler := (r.zAdler * 256 + v) % 0x1_0000_0000, pc := if r.pc.i < 3 then Trailer(r.pc.i + 1) else Done)
  }

  lemma WantTrailer(q: Inflater)
    requires Ok(q) && q.pc.Trailer?
    ensures Want(q) == NeedBits(8)
  {
    hide Ok;
  }

  lemma FeedTrailer(r: Inflater, o: seq<byte>, v: nat)
    requires Ok(r.(out := o)) && r.pc.Trailer? && Answer(r.(out := o), v)
    ensures Feed(r.(out := o), v) == TrailerByte(r, v).(out := o)
  {
    hide Ok, Pow2;
  }

  /** `s` is what is left of `whole`. */
  ghost predicate IsSuffix(s: bits, whole: bits) {
    |s| <= |whole| && s == whole[|whole| - |s|..]
  }

  lemma SuffixDrop(s: bits, n: nat, whole: bits)
    requires IsSuffix(s, whole) && n <= |s|
    ensures IsSuffix(s[n..], whole)
  {
  }

  lemma WantBlock(q: Inflater)
    requires Ok(q) && q.pc.BlockHdr?
    ensures Want(q) == NeedBits(3)
  {
    hide Ok;
  }

  lemma FeedBlock(r: Inflater, o: seq<byte>, v: nat)
    requires Ok(r.(out := o)) && r.pc.BlockHdr? && Answer(r.(out := o), v)
    ensures Feed(r.(out := o), v) == BlockType(r, v).(out := o)
    ensures !Bytewise(BlockType(r, v).pc)
    ensures Quiet(BlockType(r, v).pc) || (BlockType(r, v).pc.LitLen? && BlockType(r,
      v).sizes0 == StaticLit() && BlockType(r, v).sizes1 == StaticDist())
  {
    hide Ok, Pow2, StaticLit, StaticDist;
  }

  lemma StaticLengths()
    ensures |StaticLit()| == 288 && |StaticDist()| == 32 && Buildable(StaticLit()) && Buildable(StaticDist())
    ensures forall i :: 0 <= i < 288 ==> StaticLit()[i] <= MAX_BITS
    ensures forall i :: 0 <= i < 32 ==> StaticDist()[i] <= MAX_BITS
  {
    StaticComplete();
  }

  /** What is left after skipping to the next byte boundary. */
  function Aligned(s: bits): bits {
    s[|s| % 8..]
  }

  lemma AlignedIs(bitBuf: nat, numBits: nat, input: seq<byte>, cur: nat)
    requires cur <= |input|
    ensures numBits % 8 <= |Stream(bitBuf, numBits, input, cur)|
    ensures Aligned(Stream(bitBuf, numBits, input, cur)) == Stream(bitBuf, numBits, input, cur)[numBits % 8..]
  {
    hide Stream;
    StreamLength(bitBuf, numBits, input, cur);
    WholeBytesMore(numBits, |input| - cur);
  }

  lemma AlignRun(q: Inflater, s: bits)
    requires Ok(q) && (q.pc.RawAlign? || q.pc.FinalAlign?)
    ensures Answer(q, 0) && Ok(Feed(q, 0)) && Reaches(q, s, Feed(q, 0), Aligned(s))
  {
    hide Ok, Feed, Reaches;
    FeedOk(q, 0);
    ReachStep(q, s);
  }

  lemma FeedRawAlign(r: Inflater, o: seq<byte>)
    requires Ok(r.(out := o)) && r.pc.RawAlign? && Answer(r.(out := o), 0)
    ensures Feed(r.(out := o), 0) == r.(raw := [], pc := RawHdr(0), out := o)
  {
    hide Ok, Pow2;
  }

  lemma FeedFinalAlign(r: Inflater, o: seq<byte>)
    requires Ok(r.(out := o)) && r.pc.FinalAlign? && Answer(r.(out := o), 0)
    ensures Feed(r.(out := o), 0) == r.(pc := if r.zlib then Trailer(0) else Done, out := o)
  {
    hide Ok, Pow2;
  }

  lemma WantCodeLenLen(q: Inflater)
    requires Ok(q) && q.pc.CodeLenLen?
    ensures Want(q) == NeedBits(3)
  {
    hide Ok;
  }

  lemma FeedCodeLenLen(r: Inflater, o: seq<byte>, v: nat)
    requires Ok(r.(out := o)) && r.pc.CodeLenLen? && Answer(r.(out := o), v)
    ensures |r.tableSizes| == 3 && |r.sizes2| == 19 && r.pc.i < r.tableSizes[2] <= 19 && v < 8
    ensures forall k :: 0 <= k < 19 ==> r.sizes2[k] <= 7
    ensures Feed(r.(out := o), v) == CodeLengthSizes(r, v).(out := o)
  {
    hide Buildable, Transmitted;
    Pow2Values();
  }

  lemma WantCodeLen(q: Inflater)
    requires Ok(q) && q.pc.CodeLen?
    ensures Want(q) == NeedSymbol(2) && SizesOf(q, 2) == q.sizes2
  {
    hide Ok;
  }

  lemma CodeLenFacts(q: Inflater, sym: nat)
    requires Ok(q) && q.pc.CodeLen? && Answer(q, sym)
    ensures sym < 19 && |q.tableSizes| == 3 && 257 <= q.tableSizes[0] <= 288 && 1 <= q.tableSizes[1] <= 32
    ensures forall k :: 0 <= k < |q.lenCodes| ==> q.lenCodes[k] <= MAX_BITS
  {
    hide Buildable;
  }

  lemma FeedCodeLen(r: Inflater, o: seq<byte>, sym: nat)
    requires Ok(r.(out := o)) && r.pc.CodeLen? && Answer(r.(out := o), sym)
    ensures |r.tableSizes| == 3
    ensures Feed(r.(out := o), sym) == if sym < 16 then CodeLengthsDone(r.(lenCodes := r.lenCodes + [sym])).(out := o)
      else if sym == 16 && |r.lenCodes| == 0 then r.(pc := Failed(17), out := o)
        else r.(pc := CodeLenRep(sym), out := o)
  {
    hide Buildable;
  }

  lemma DoneCommutes(r: Inflater, o: seq<byte>)
    requires |r.tableSizes| == 3
    ensures CodeLengthsDone(r.(out := o)) == CodeLengthsDone(r).(out := o)
  {
    hide Buildable;
  }

  /** Where the machine can be after some code lengths. */
  lemma DoneFacts(q: Inflater)
    requires |q.tableSizes| == 3
    ensures var q' := CodeLengthsDone(q); q'.pc.CodeLen? || q'.pc.LitLen? || q'.pc.Failed?
    ensures var q' := CodeLengthsDone(q); q'.sizes2 == q.sizes2 && q'.lenCodes == q.lenCodes && q'.window == q.window
  {
    hide Buildable;
  }

  lemma WantCodeLenRep(q: Inflater)
    requires Ok(q) && q.pc.CodeLenRep?
    ensures Want(q) == NeedBits(if q.pc.rep == 16 then 2 else if q.pc.rep == 17 then 3 else 7)
  {
    hide Ok;
  }

  lemma CodeLenRepFacts(q: Inflater)
    requires Ok(q) && q.pc.CodeLenRep?
    ensures 16 <= q.pc.rep <= 18 && (q.pc.rep == 16 ==> |q.lenCodes| > 0)
    ensures |q.tableSizes| == 3 && 257 <= q.tableSizes[0] <= 288 && 1 <= q.tableSizes[1] <= 32
    ensures |q.lenCodes| < q.tableSizes[0] + q.tableSizes[1]
    ensures forall k :: 0 <= k < |q.lenCodes| ==> q.lenCodes[k] <= MAX_BITS
  {
    hide Buildable;
  }

  lemma FeedCodeLenRep(r: Inflater, o: seq<byte>, v: nat)
    requires Ok(r.(out := o)) && r.pc.CodeLenRep? && Answer(r.(out := o), v)
    ensures v < 128 && (r.pc.rep == 16 ==> |r.lenCodes| > 0) && |r.tableSizes| == 3
    ensures Feed(r.(out := o), v) == CodeLengthsDone(r.(lenCodes := r.lenCodes
      + Repeat(if r.pc.rep == 16 then r.lenCodes[|r.lenCodes| - 1] else 0,
               v + (if r.pc.rep == 18 then 11 else 3)))).(out := o)
  {
    hide Buildable, CodeLengthsDone;
    Pow2Values();
    var value := if r.pc.rep == 16 then r.lenCodes[|r.lenCodes| - 1] else 0;
    DoneCommutes(r.(lenCodes := r.lenCodes + Repeat(value, v + (if r.pc.rep == 18 then 11 else 3))), o);
  }

  // ---------- the transitions that write ----------

  lemma WantEmit(q: Inflater)
    requires Ok(q) && (q.pc.PutLit? || q.pc.RawPut? || q.pc.Copy?)
    ensures Want(q).Emit? && (q.pc.PutLit? || q.pc.RawPut? ==> Want(q).b == q.pc.b)
  {
    hide SizesOk;
  }

  lemma FeedLiteral(q: Inflater)
    requires Ok(q) && q.pc.PutLit? && Answer(q, q.pc.b)
    ensures Feed(q, q.pc.b) == q.(pc := LitLen, out := q.out + [q.pc.b])
  {
    hide SizesOk;
  }

  /** `n` bytes of a stored block have been written. */
  function StoredLeft(r: Inflater, n: nat): Inflater
    requires n <= r.counter
  {
    if n == r.counter then EndBlock(r.(counter := 0)) else r.(counter := r.counter - n, pc := RawByte)
  }

  lemma FeedStoredPut(r: Inflater, o: seq<byte>)
    requires Ok(r.(out := o)) && r.pc.RawPut? && Answer(r.(out := o), r.pc.b)
    ensures r.counter > 0 && Feed(r.(out := o), r.pc.b) == StoredLeft(r, 1).(out := o + [r.pc.b])
    ensures Quiet(StoredLeft(r, 1).pc)
  {
    hide SizesOk;
  }

  lemma WantStoredByte(q: Inflater)
    requires Ok(q) && q.pc.RawByte?
    ensures Want(q) == NeedBits(8)
  {
    hide Ok;
  }

  lemma FeedStoredByte(r: Inflater, o: seq<byte>, v: nat)
    requires Ok(r.(out := o)) && r.pc.RawByte? && Answer(r.(out := o), v)
    ensures v < 256 && Feed(r.(out := o), v) == r.(pc := RawPut(v), out := o)
  {
    hide Ok;
    Pow2Values();
  }

  lemma StoredCounter(q: Inflater)
    requires Ok(q) && q.pc.RawByte?
    ensures q.counter > 0
  {
    hide SizesOk;
  }

  lemma BytesAhead(bitBuf: nat, input: seq<byte>, cur: nat, n: nat)
    requires cur + n <= |input|
    ensures Stream(bitBuf, 0, input, cur) == BytesBits(input[cur..cur + n]) + Stream(bitBuf, 0, input, cur + n)
    ensures |BytesBits(input[cur..cur + n])| == 8 * n
    ensures 8 * n <= |Stream(bitBuf, 0, input, cur)|
    ensures Stream(bitBuf, 0, input, cur)[8 * n..] == Stream(bitBuf, 0, input, cur + n)
  {
    hide BytesBits;
    EncNone(bitBuf);
    assert input[cur..] == input[cur..cur + n] + input[cur + n..];
    BytesBitsConcat(input[cur..cur + n], input[cur + n..]);
  }

  /** Some bytes of a stored block, as many as `data` has. */
  lemma {:induction false} RunStoredSome(q: Inflater, data: seq<byte>, rest: bits)
    requires Ok(q) && q.pc.RawByte? && 0 < |data| <= q.counter
    ensures Reaches(q, BytesBits(data) + rest, StoredLeft(q, |data|).(out := q.out + data), rest)
    ensures Ok(StoredLeft(q, |data|).(out := q.out + data)) && Quiet(StoredLeft(q, |data|).pc)
    decreases |data|
  {
    hide Ok, Reaches, Enc, Feed, Answer, Want;
    var s1 := BytesBits(data[1..]) + rest;
    var s := Enc(data[0], 8) + s1;
    assert BytesBits(data) + rest == s;
    var q2 := RunOneStored(q, data[0], s1);
    if |data| == 1 {
      assert s1 == rest;
      assert q.out + data == q.out + [data[0]];
    } else {
      RunStoredSome(q2, data[1..], rest);
      assert q2.out + data[1..] == q.out + data;
      ReachTrans(q, s, q2, s1, StoredLeft(q, |data|).(out := q.out + data), rest);
    }
  }

  lemma RunOneStored(q: Inflater, b: byte, rest: bits) returns (q': Inflater)
    requires Ok(q) && q.pc.RawByte? && q.counter > 0
    ensures q' == StoredLeft(q, 1).(out := q.out + [b]) && Ok(q') && Quiet(q'.pc)
    ensures Reaches(q, Enc(b, 8) + rest, q', rest)
  {
    hide Ok, Reaches, Enc, Answer, Want, Pow2, StoredLeft, Feed;
    WantStoredByte(q);
    assert b < Pow2(8) by { Pow2Values(); }
    var q1 := RunBits(q, b, rest);
    FeedStoredByte(q, q.out, b);
    WantEmit(q1);
    ReachEmit(q1, rest);
    FeedStoredPut(q1, q1.out);
    FeedOk(q1, b);
    q' := Feed(q1, b);
    ReachTrans(q, Enc(b, 8) + rest, q1, rest, q', rest);
    assert StoredLeft(q1, 1) == StoredLeft(q, 1) by { LeftSame(q, q1.pc); }
  }

  lemma LeftSame(q: Inflater, pc: Pc)
    requires q.counter > 0
    ensures StoredLeft(q.(pc := pc), 1) == StoredLeft(q, 1)
  {
  }

  lemma WantSymbol(q: Inflater)
    requires Ok(q) && q.pc.LitLen?
    ensures Want(q) == NeedSymbol(0) && SizesOf(q, 0) == q.sizes0
  {
    hide Ok;
  }

  lemma FeedSymbol(r: Inflater, o: seq<byte>, sym: nat)
    requires Ok(r.(out := o)) && r.pc.LitLen? && Answer(r.(out := o), sym)
    ensures sym < 288 && Feed(r.(out := o), sym) == LitLenSym(r, sym).(out := o)
    ensures sym < 256 ==> LitLenSym(r, sym) == r.(pc := PutLit(sym))
    ensures LitLenSym(r, sym).sizes0 == r.sizes0 && LitLenSym(r, sym).sizes1 == r.sizes1
    ensures var pc := LitLenSym(r, sym).pc; !Bytewise(pc) && (Quiet(pc) || pc.PutLit? || pc.LenExtra? || pc.DistSym?)
  {
    hide Buildable, LENGTH_BASE, LENGTH_EXTRA;
  }

  lemma QuietPc(pc: Pc)
    ensures Quiet(pc) ==> !Decoding(pc) && !pc.CodeLen? && !pc.CodeLenRep? && !pc.ZHdr0? && !pc.ZHdr1?
  {
  }

  /** After a literal symbol the literal is written and the loop goes on. */
  lemma LiteralNext(q: Inflater, s: bits, q1: Inflater, s1: bits) returns (q2: Inflater)
    requires Reaches(q, s, q1, s1) && Ok(q1) && q1.pc.PutLit?
    ensures q2 == q1.(pc := LitLen, out := q1.out + [q1.pc.b]) && Ok(q2) && Reaches(q, s, q2, s1)
  {
    hide Ok, Reaches, Want, Answer, Feed;
    WantEmit(q1);
    ReachEmit(q1, s1);
    FeedOk(q1, q1.pc.b);
    FeedLiteral(q1);
    q2 := Feed(q1, q1.pc.b);
    ReachTrans(q, s, q1, s1, q2, s1);
  }

  function DistanceExtra(sym: nat): (n: nat)
    requires sym < 32
    ensures n <= 13
  {
    DIST_EXTRA[sym]
  }

  function DistanceBase(sym: nat): nat
    requires sym < 32
  {
    DIST_BASE[sym]
  }

  lemma WantDistance(q: Inflater)
    requires Ok(q) && q.pc.DistSym?
    ensures Want(q) == NeedSymbol(1) && SizesOf(q, 1) == q.sizes1
  {
    hide Ok;
  }

  lemma FeedDistance(r: Inflater, o: seq<byte>, sym: nat)
    requires Ok(r.(out := o)) && r.pc.DistSym? && Answer(r.(out := o), sym)
    ensures sym < 32
    ensures Feed(r.(out := o), sym) == if DistanceExtra(sym) > 0 then r.(pc := DistExtra(sym), out := o)
      else StartCopy(r.(out := o), DistanceBase(sym))
  {
    hide Buildable, DIST_BASE, DIST_EXTRA;
  }

  lemma WantDistanceExtra(q: Inflater)
    requires Ok(q) && q.pc.DistExtra?
    ensures q.pc.dsym < 32 && Want(q) == NeedBits(DistanceExtra(q.pc.dsym))
  {
    hide Buildable, DIST_BASE, DIST_EXTRA;
  }

  lemma FeedDistanceExtra(r: Inflater, o: seq<byte>, v: nat)
    requires Ok(r.(out := o)) && r.pc.DistExtra? && Answer(r.(out := o), v)
    ensures r.pc.dsym < 32 && Feed(r.(out := o), v) == StartCopy(r.(out := o), DistanceBase(r.pc.dsym) + v)
  {
    hide Buildable, DIST_BASE, DIST_EXTRA;
  }

  /** `n` bytes of a match have been copied. */
  function CopiedState(q: Inflater, n: nat): Inflater
    requires 1 <= Back(q) <= |q.out| && n <= q.counter
  {
    var q' := q.(out := CopyBack(q.out, n, Back(q)));
    if n == q.counter then q'.(pc := LitLen, counter := 0) else q'.(counter := q.counter - n)
  }

  lemma CopyFacts(q: Inflater)
    requires Ok(q) && q.pc.Copy?
    ensures q.counter > 0 && 1 <= Back(q) <= |q.out|
  {
    hide SizesOk;
  }

  lemma {:induction false} RunCopySome(q: Inflater, s: bits, n: nat)
    requires Ok(q) && q.pc.Copy? && 1 <= Back(q) <= |q.out| && n <= q.counter && q.counter > 0
    ensures Reaches(q, s, CopiedState(q, n), s)
    decreases n
  {
    hide Ok, Reaches, Want, Answer, Feed;
    if n == 0 {
      ReachRefl(q, s);
      assert CopiedState(q, 0) == q by { CopyNone(q.out, Back(q)); }
    } else {
      var q1 := RunOneCopied(q, s);
      if n > 1 {
        RunCopySome(q1, s, n - 1);
        ReachTrans(q, s, q1, s, CopiedState(q, n), s);
      } else {
        CopyNone(q1.out, Back(q));
      }
    }
  }

  lemma RunOneCopied(q: Inflater, s: bits) returns (q': Inflater)
    requires Ok(q) && q.pc.Copy? && 1 <= Back(q) <= |q.out| && q.counter > 0
    ensures q'
         == q.(out := q.out + [q.out[|q.out| - Back(q)]], counter := q.counter - 1,
              pc := if q.counter == 1 then LitLen else Copy)
    ensures Ok(q') && Reaches(q, s, q', s)
  {
    hide Ok, Reaches, Answer, Feed;
    ReachEmit(q, s);
    FeedOk(q, Want(q).b);
    FeedCopy(q);
    q' := Feed(q, Want(q).b);
  }

  lemma FeedCopy(q: Inflater)
    requires Ok(q) && q.pc.Copy? && 1 <= Back(q) <= |q.out| && q.counter > 0
    requires Answer(q, q.out[|q.out| - Back(q)])
    ensures Feed(q, q.out[|q.out| - Back(q)])
         == q.(out := q.out + [q.out[|q.out| - Back(q)]], counter := q.counter - 1,
              pc := if q.counter == 1 then LitLen else Copy)
  {
    hide SizesOk;
  }

  /** What the copy loops ask for. */
  lemma ReadyToCopy(buf: seq<byte>, pos: nat, end: nat, r: Inflater, history: seq<byte>, back: nat)
    requires Carries(buf, pos, end, r.window, history) && back == Back(r) && 1 <= back <= |history|
    ensures pos <= end <= |buf| && Recent(buf, history) && back <= |buf| && Leads(r.window, |buf|, r.dist, back)
    ensures if r.window == 0 then pos == |history|
      else end == |buf| == r.window && pos % r.window == |history| % r.window
    ensures pos == |history| % |buf| || pos == end
    ensures Masked(pos - r.dist, r.window) >= 0
    ensures pos < end ==> Masked(pos - r.dist, r.window) == (|history| - back) % |buf|
  {
    hide Recent;
    if r.window == 0 {
      RecentWhole(buf, history);
    }
    if pos < |buf| {
      DivModUnique(pos, |buf|, 0, pos);
      MaskedSource(pos, r.window, |buf|, r.dist, back);
      SourceIndex(|history|, |buf|, back);
    }
  }

  lemma Copied(buf: seq<byte>, pos: nat, end: nat, window: nat, history: seq<byte>, n: nat, back: nat)
    requires 1 <= back <= |history| && pos + n <= end <= |buf| && Recent(buf, CopyBack(history, n, back))
    requires if window == 0 then pos == |history| else end == |buf| == window && pos % window == |history| % window
    ensures Carries(buf, pos + n, end, window, CopyBack(history, n, back))
  {
    hide Recent;
    if window == 0 {
      RecentWhole(buf, CopyBack(history, n, back));
    } else {
      ModAdd(pos, |history|, window, n);
    }
  }

  lemma {:induction false} ModAdd(i: nat, j: nat, n: nat, k: nat)
    requires n > 0 && i % n == j % n
    ensures (i + k) % n == (j + k) % n
  {
    if k > 0 {
      ModAdd(i, j, n, k - 1);
      ModNext(i + k - 1, j + k - 1, n);
    }
  }

  method ZeroInts(n: nat) returns (a: array<int>)
    ensures fresh(a) && a.Length == n
  {
    a := new int[n](_ => 0);
  }

  lemma CloserMeans(q: Inflater, s: bits, q': Inflater, s': bits)
    requires Ok(q) && Ok(q') && Closer(q, s, q', s')
    ensures |s'| < |s| || (|s'| == |s| && (|q'.out| > |q.out| || (|q'.out| == |q.out| && Rank(q') < Rank(q))))
  {
    hide Ok, Rank;
  }

  lemma StartCall(bitBuf: nat, numBits: nat, data: seq<byte>)
    ensures Stream(bitBuf, numBits, data, 0) == Enc(bitBuf, numBits) + BytesBits(data)
    ensures IsSuffix(Stream(bitBuf, numBits, data, 0), Enc(bitBuf, numBits) + BytesBits(data))
  {
    hide Enc, BytesBits;
    assert data[0..] == data;
  }

  lemma StreamIs(bitBuf: nat, numBits: nat, input: seq<byte>, cur: nat)
    requires cur <= |input|
    ensures Stream(bitBuf, numBits, input, cur) == Enc(bitBuf, numBits) + BytesBits(input[cur..])
  {
    hide Enc, BytesBits;
  }

  predicate Decoding(pc: Pc) {
    pc.LitLen? || pc.PutLit? || pc.LenExtra? || pc.DistSym? || pc.DistExtra? || pc.Copy?
  }

  function TableOf(pc: Pc): nat {
    if pc.LitLen? then 0 else if pc.DistSym? then 1 else 2
  }

  lemma ByteVal(c: byte)
    ensures Val(Enc(c, 8)) == c
  {
    hide Enc, Val, Pow2;
    Pow2Values();
    ValEnc(c, 8);
  }

  lemma NoTail(input: seq<byte>)
    ensures BytesBits(input[|input|..]) == []
  {
  }

  lemma OneMore(before: seq<byte>, input: seq<byte>, cur: nat, i: nat)
    requires cur + i < |input|
    ensures before + input[cur..cur + i] + [input[cur + i]] == before + input[cur..cur + (i + 1)]
  {
    assert input[cur..cur + (i + 1)] == input[cur..cur + i] + [input[cur + i]];
  }

  lemma StreamLength(bitBuf: nat, numBits: nat, input: seq<byte>, cur: nat)
    requires cur <= |input|
    ensures |Stream(bitBuf, numBits, input, cur)| == numBits + 8 * (|input| - cur)
  {
  }

  lemma NothingUnread(bitBuf: nat, numBits: nat, input: seq<byte>, cur: nat)
    requires cur == |input|
    ensures Stream(bitBuf, numBits, input, cur) == Enc(bitBuf, numBits)
  {
    NoTail(input);
  }

  lemma TablesValid(look: seq<int>, tree: seq<int>, sizes: seq<nat>)
    requires Tables(look, tree, sizes)
    ensures Valid(sizes) && Buildable(sizes)
  {
    hide Buildable, Valid;
    BuildableValid(sizes);
  }

  /** Fifteen bits are enough for any symbol. */
  lemma EnoughBits(sizes: seq<nat>, look: seq<int>, tree: seq<int>, bitBuf: nat, numBits: nat)
    requires Tables(look, tree, sizes) && numBits >= MAX_BITS
    ensures Decode(sizes, Enc(bitBuf, numBits)).Some?
  {
    hide Tables, Decode, Enc;
    TablesValid(look, tree, sizes);
    DecodeFull(sizes, Enc(bitBuf, numBits));
  }

  /** No symbol takes more than fifteen bits. */
  lemma DecodeLength(sizes: seq<nat>, a: bits)
    requires Valid(sizes) && Decode(sizes, a).Some?
    ensures Decode(sizes, a).value.len <= MAX_BITS
  {
    hide Decode, Valid;
    DecodeStable(sizes, a, []);
    if |a| > MAX_BITS {
      DecodeFull(sizes, a[..MAX_BITS]);
      DecodeStable(sizes, a[..MAX_BITS], a[MAX_BITS..]);
      assert a == a[..MAX_BITS] + a[MAX_BITS..];
    }
  }
}
