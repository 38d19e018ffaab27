/** `tdefl_start_dynamic_block` and `tdefl_start_static_block` (src/external/miniz.h:2853-2963). */
module BlockStart {
  import opened Bits
  import opened Canonical
  import opened DecodeTable
  import opened Tokens
  import opened CodeLengths
  import opened Inflate
  import opened BlockBody
  import opened BitWriting
  import opened MergeQueues
  import opened MinRedundancy
  import opened DynamicHeader
  import HuffmanTable
  import LzCodes

  // ---------- trailing unused symbols are not transmitted ----------

  ghost predicate TrailingZeros(sizes: seq<nat>, n: nat) {
    n <= |sizes| && forall k :: n <= k < |sizes| ==> sizes[k] == 0
  }

  lemma {:induction false} TrimCountTo(sizes: seq<nat>, n: nat, i: nat, len: nat)
    requires i <= n <= |sizes|
    ensures CountTo(sizes[..n], i, len) == CountTo(sizes, i, len)
  {
    if i > 0 {
      TrimCountTo(sizes, n, i - 1, len);
    }
  }

  lemma {:induction false} NoneCounted(sizes: seq<nat>, n: nat, i: nat, len: nat)
    requires TrailingZeros(sizes, n) && n <= i <= |sizes| && len > 0
    ensures CountTo(sizes, i, len) == CountTo(sizes, n, len)
  {
    if i > n {
      NoneCounted(sizes, n, i - 1, len);
    }
  }

  lemma TrimCount(sizes: seq<nat>, n: nat, len: nat)
    requires TrailingZeros(sizes, n) && len > 0
    ensures Count(sizes[..n], len) == Count(sizes, len)
  {
    TrimCountTo(sizes, n, n, len);
    NoneCounted(sizes, n, |sizes|, len);
  }

  lemma {:induction false} TrimCovered(sizes: seq<nat>, n: nat, len: nat)
    requires TrailingZeros(sizes, n)
    ensures Covered(sizes[..n], len) == Covered(sizes, len)
  {
    hide Count;
    if len > 0 {
      TrimCount(sizes, n, len);
      TrimCovered(sizes, n, len - 1);
    }
  }

  lemma {:induction false} TrimUsed(sizes: seq<nat>, n: nat, len: nat)
    requires TrailingZeros(sizes, n)
    ensures UsedTo(sizes[..n], n, len) == UsedTo(sizes, |sizes|, len)
  {
    if len > 0 {
      TrimCount(sizes, n, len);
      TrimUsed(sizes, n, len - 1);
    }
  }

  lemma TrimBuildable(sizes: seq<nat>, n: nat)
    requires TrailingZeros(sizes, n) && Buildable(sizes)
    ensures Buildable(sizes[..n])
  {
    hide UsedTo, Covered;
    TrimCovered(sizes, n, MAX_BITS);
    TrimUsed(sizes, n, MAX_BITS);
  }

  lemma TrimCodeWord(sizes: seq<nat>, n: nat, sym: nat)
    requires TrailingZeros(sizes, n) && Uses(sizes, sym)
    ensures Uses(sizes[..n], sym) && CodeWord(sizes[..n], sym) == CodeWord(sizes, sym)
  {
    hide Covered, CountTo;
    TrimCovered(sizes, n, sizes[sym] - 1);
    TrimCountTo(sizes, n, sym, sizes[sym]);
  }

  lemma TrimTokenBits(lit: seq<nat>, dist: seq<nat>, n: nat, m: nat, t: Token)
    requires TrailingZeros(lit, n) && TrailingZeros(dist, m) && Encodable(lit, dist, t)
    ensures Encodable(lit[..n], dist[..m], t) && TokenBits(lit[..n], dist[..m], t) == TokenBits(lit, dist, t)
  {
    hide CodeWord, LenSym, DistSymOf, LenExtraBits, DistExtraBits, Enc, TrailingZeros;
    match t
    case Literal(b) => TrimCodeWord(lit, n, b);
    case Match(len, d) =>
      TrimCodeWord(lit, n, LenSym(len - MIN_MATCH_LEN));
      TrimCodeWord(dist, m, DistSymOf(d - 1));
  }

  lemma {:induction false} TrimTokensBits(lit: seq<nat>, dist: seq<nat>, n: nat, m: nat, ts: seq<Token>)
    requires TrailingZeros(lit, n) && TrailingZeros(dist, m) && AllEncodable(lit, dist, ts)
    ensures AllEncodable(lit[..n], dist[..m], ts) && TokensBits(lit[..n], dist[..m], ts) == TokensBits(lit, dist, ts)
  {
    hide TrailingZeros, Encodable, TokenBits;
    if |ts| > 0 {
      TrimTokenBits(lit, dist, n, m, ts[0]);
      TrimTokensBits(lit, dist, n, m, ts[1..]);
    }
  }

  /** A block body reads the same with the transmitted part of the code lengths. */
  lemma TrimBody(lit: seq<nat>, dist: seq<nat>, n: nat, m: nat, ts: seq<Token>)
    requires TrailingZeros(lit, n) && TrailingZeros(dist, m) && AllEncodable(lit, dist, ts) && Uses(lit, 256)
    ensures AllEncodable(lit[..n], dist[..m], ts) && Uses(lit[..n], 256)
    ensures BodyBits(lit[..n], dist[..m], ts) == BodyBits(lit, dist, ts)
  {
    hide TrailingZeros, AllEncodable, TokensBits, CodeWord;
    TrimTokensBits(lit, dist, n, m, ts);
    TrimCodeWord(lit, n, 256);
  }

  // ---------- the block headers ----------

  /** `for (n = hi; n > lo; n--) if (sizes[n - 1]) break;` */
  method CountTransmitted(sizes: seq<nat>, lo: nat, hi: nat) returns (n: nat)
    requires 0 < lo <= hi && TrailingZeros(sizes, hi)
    ensures lo <= n <= hi && TrailingZeros(sizes, n)
    ensures n == lo || sizes[n - 1] > 0
  {
    n := hi;
    while n > lo
      invariant lo <= n <= hi && TrailingZeros(sizes, n)
    {
      if sizes[n - 1] > 0 {
        return;
      }
      n := n - 1;
    }
  }

  /** How many lengths of the code length code must be sent; at least four are. */
  method CountLengths(sizes2: seq<nat>) returns (n: nat)
    requires |sizes2| == 19
    ensures 4 <= n <= 19 && forall k :: n <= k < 19 ==> sizes2[Transmitted(k)] == 0
  {
    hide Transmitted;
    var last: int := 18;
    while last >= 0
      invariant -1 <= last <= 18 && forall k :: last < k < 19 ==> sizes2[Transmitted(k)] == 0
    {
      if sizes2[Transmitted(last)] > 0 {
        break;
      }
      last := last - 1;
    }
    n := if last + 1 > 4 then last + 1 else 4;
  }

  method PutLengths(w: Writer, sizes2: seq<nat>, n: nat)
    requires w.Valid() && |sizes2| == 19 && n <= 19 && forall k :: 0 <= k < 19 ==> sizes2[k] <= 7
    modifies w
    ensures w.Valid() && w.written == old(w.written) + LengthsBits(sizes2, 0, n) && old(w.output) <= w.output
  {
    hide Enc, Pow2, Transmitted;
    Pow2Values();
    ghost var total := w.written + LengthsBits(sizes2, 0, n);
    for i := 0 to n
      invariant w.Valid() && w.written + LengthsBits(sizes2, i, n) == total && old(w.output) <= w.output
    {
      var v := sizes2[Transmitted(i)];
      Assoc3(w.written, Enc(v, 3), LengthsBits(sizes2, i + 1, n));
      w.PutBits(v, 3);
    }
  }

  lemma {:induction false} BytesPrefix(xs: seq<Item>, k: nat)
    requires ValidItems(xs) && k <= |xs|
    ensures ItemsBytes(xs[..k]) <= ItemsBytes(xs)
  {
    if k == |xs| {
      assert xs[..k] == xs;
    } else {
      assert xs[..|xs| - 1][..k] == xs[..k];
      BytesPrefix(xs[..|xs| - 1], k);
    }
  }

  /** What the packed bytes hold at the start of the `k`-th item. */
  lemma ItemAt(xs: seq<Item>, k: nat)
    requires ValidItems(xs) && k < |xs|
    ensures var p := |ItemsBytes(xs[..k])|;
      && p < |ItemsBytes(xs)| && ItemsBytes(xs)[p] == xs[k].sym
      && (xs[k].sym >= 16 ==> p + 1 < |ItemsBytes(xs)| && ItemsBytes(xs)[p + 1] == xs[k].extra)
      && |ItemsBytes(xs[..k + 1])| == p + (if xs[k].sym < 16 then 1 else 2)
  {
    BytesPrefix(xs, k + 1);
    assert xs[..k + 1][..k] == xs[..k];
  }

  lemma BytesEnd(xs: seq<Item>, k: nat)
    requires ValidItems(xs) && k <= |xs|
    ensures |ItemsBytes(xs[..k])| < |ItemsBytes(xs)| <==> k < |xs|
  {
    hide ItemsBytes;
    if k < |xs| {
      ItemAt(xs, k);
    } else {
      assert xs[..k] == xs;
    }
  }

  lemma ExtraFits(x: Item)
    requires ValidItem(x)
    ensures x.sym < 16 ==> x.extra == 0
    ensures ExtraBits(x.sym) <= 7
  {
  }

  /** The last loop of `tdefl_start_dynamic_block`. */
  method PutItems(w: Writer, packed: seq<byte>, sizes2: seq<nat>, codes2: seq<nat>, ghost xs: seq<Item>)
    requires w.Valid() && ItemsUse(sizes2, xs) && packed == ItemsBytes(xs) && LzCodes.CodesFor(sizes2, codes2)
    modifies w
    ensures w.Valid() && w.written == old(w.written) + ItemsBits(sizes2, xs) && old(w.output) <= w.output
  {
    hide Enc, Pow2, CodeWord, ItemsBytes, LzCodes.CodesFor;
    ghost var total := w.written + ItemsBits(sizes2, xs);
    ghost var k: nat := 0;
    var p: nat := 0;
    assert xs[0..] == xs;
    EmptyBytes(xs);
    BytesEnd(xs, 0);
    while p < |packed|
      invariant w.Valid() && k <= |xs| && p == |ItemsBytes(xs[..k])| && (p < |packed| <==> k < |xs|)
      invariant w.written + ItemsBits(sizes2, xs[k..]) == total && old(w.output) <= w.output
      decreases |xs| - k
    {
      ItemAt(xs, k);
      ExtraFits(xs[k]);
      ItemsStep(sizes2, xs, k);
      ghost var rest := ItemsBits(sizes2, xs[k + 1..]);
      var sym := packed[p];
      p := p + 1;
      Assoc3(w.written, ItemBits(sizes2, xs[k]), rest);
      Assoc3(w.written, CodeWord(sizes2, sym), Enc(xs[k].extra, ExtraBits(sym)));
      LzCodes.PutSymbol(w, sizes2, codes2, sym);
      if sym >= 16 {
        w.PutBits(packed[p], ExtraBits(sym));
        p := p + 1;
      } else {
        EncNone(xs[k].extra);
      }
      k := k + 1;
      BytesEnd(xs, k);
    }
    assert xs[k..] == [];
  }

  lemma EmptyBytes(xs: seq<Item>)
    ensures ItemsBytes(xs[..0]) == []
  {
  }

  lemma ItemsStep(sizes2: seq<nat>, xs: seq<Item>, k: nat)
    requires ItemsUse(sizes2, xs) && k < |xs|
    ensures ItemsBits(sizes2, xs[k..]) == ItemBits(sizes2, xs[k]) + ItemsBits(sizes2, xs[k + 1..])
  {
    hide ItemBits;
    assert xs[k..][1..] == xs[k + 1..];
  }

  lemma AllCountedUsed(counts: seq<nat>, sizes2: seq<nat>, xs: seq<Item>)
    requires ValidItems(xs) && ItemsCounted(counts, xs) && |sizes2| == 19
    requires forall v :: 0 <= v < 19 ==> (sizes2[v] > 0 <==> counts[v] > 0)
    ensures ItemsUse(sizes2, xs)
  {
  }

  /** The three code lengths tables and the header that transmits two of them. */
  method StartDynamicBlock(w: Writer, counts0: seq<nat>, counts1: seq<nat>)
    returns (sizes0: seq<nat>, codes0: seq<nat>, sizes1: seq<nat>, codes1: seq<nat>, ghost h: Header)
    requires w.Valid() && |counts0| == 288 && |counts1| == 32
    requires Sum(counts0) + 1 < 65536 && Sum(counts1) < 65536 && counts0[256] == 0
    requires counts0[286] == counts0[287] == 0 && counts1[30] == counts1[31] == 0
    modifies w
    ensures w.Valid() && old(w.output) <= w.output
    ensures |sizes0| == 288 && |sizes1| == 32 && Describes(h, sizes0, sizes1)
    ensures w.written == old(w.written) + HeaderBits(h)
    ensures forall v :: 0 <= v < 288 ==> (sizes0[v] > 0 <==> v == 256 || counts0[v] > 0)
    ensures forall v :: 0 <= v < 32 ==> (sizes1[v] > 0 <==> counts1[v] > 0)
    ensures Buildable(sizes0) && Buildable(sizes1)
    ensures LzCodes.CodesFor(sizes0, codes0) && LzCodes.CodesFor(sizes1, codes1)
    ensures HuffmanTable.NearOptimal(counts0[256 := 1], sizes0) && HuffmanTable.NearOptimal(counts1, sizes1)
  {
    hide HuffmanTable.NearOptimal, Enc, Pow2, Sum, Buildable, DecodeTable.Used, Covered, CodeWord, ItemsBytes,
      ItemsUse, CanUnpack, Unpack, LengthsBits, ItemsBits, Transmitted, HeaderBits;
    Pow2Values();
    var counted := counts0[256 := 1];
    LzCodes.SumUpdate(counts0, 256, 1);
    CountsFit(counted);
    CountsFit(counts1);
    TableSizesFit();
    sizes0, codes0 := HuffmanTable.OptimizeHuffmanTable(counted, 15);
    sizes1, codes1 := HuffmanTable.OptimizeHuffmanTable(counts1, 15);
    var numLit := CountTransmitted(sizes0, 257, 286);
    var numDist := CountTransmitted(sizes1, 1, 30);
    var toPack := sizes0[..numLit] + sizes1[..numDist];
    var packed, counts2, items := PackCodeSizes(toPack);
    CountsFit(counts2);
    var sizes2, codes2 := HuffmanTable.OptimizeHuffmanTable(counts2, 7);
    AllCountedUsed(counts2, sizes2, items);
    var numLengths := CountLengths(sizes2);
    h := Header(numLit, numDist, numLengths, sizes2, items);
    PutHeader(w, numLit, numDist, numLengths, sizes2, packed, codes2, h);
  }

  lemma CountsFit(counts: seq<nat>)
    requires Sum(counts) < 65536
    ensures forall i :: 0 <= i < |counts| ==> counts[i] < 65536
  {
    forall i | 0 <= i < |counts|
      ensures counts[i] < 65536
    {
      SumMember(counts, i);
    }
  }

  lemma TableSizesFit()
    ensures Pow2(15) >= 288 && Pow2(7) >= 32
  {
    Pow2Values();
  }

  method PutHeader(w: Writer, numLit: nat, numDist: nat, numLengths: nat, sizes2: seq<nat>, packed: seq<byte>,
                   codes2: seq<nat>,
                   ghost h: Header)
    requires w.Valid() && WellFormed(h) && h == Header(numLit, numDist, numLengths, sizes2, h.items)
    requires packed == ItemsBytes(h.items) && LzCodes.CodesFor(sizes2, codes2)
    modifies w
    ensures w.Valid() && old(w.output) <= w.output
    ensures w.written == old(w.written) + HeaderBits(h)
  {
    hide Enc, Pow2, Buildable, ItemsBytes, ItemsUse, CanUnpack, Unpack, LengthsBits, ItemsBits, Transmitted,
      HeaderBits, LzCodes.CodesFor;
    Pow2Values();
    ghost var was := w.written;
    HeaderIs(h);
    w.PutBits(2, 2);
    w.PutBits(numLit - 257, 5);
    w.PutBits(numDist - 1, 5);
    w.PutBits(numLengths - 4, 4);
    PutLengths(w, sizes2, numLengths);
    PutItems(w, packed, sizes2, codes2, h.items);
    AssocLeft(was, Enc(2, 2), Enc(h.numLit - 257, 5), Enc(h.numDist - 1, 5), Enc(h.numLengths - 4, 4),
              LengthsBits(h.sizes2, 0, h.numLengths), ItemsBits(h.sizes2, h.items));
  }

  lemma AssocLeft(f: bits, t: bits, a: bits, b: bits, c: bits, d: bits, e: bits)
    ensures f + t + a + b + c + d + e == f + (t + (a + (b + (c + (d + e)))))
  {
    Assoc3(f, t, a + (b + (c + (d + e))));
    Assoc3(f + t, a, b + (c + (d + e)));
    Assoc3(f + t + a, b, c + (d + e));
    Assoc3(f + t + a + b, c, d + e);
    Assoc3(f + t + a + b + c, d, e);
  }

  /** The fixed codes of RFC 1951, section 3.2.6. */
  method StartStaticBlock(w: Writer) returns (sizes0: seq<nat>, codes0: seq<nat>, sizes1: seq<nat>, codes1: seq<nat>)
    requires w.Valid()
    modifies w
    ensures w.Valid() && w.written == old(w.written) + Enc(1, 2) && old(w.output) <= w.output
    ensures sizes0 == StaticLit() && sizes1 == StaticDist()
    ensures LzCodes.CodesFor(sizes0, codes0) && LzCodes.CodesFor(sizes1, codes1)
  {
    hide Enc, Pow2, Covered, CodeWord;
    Pow2Values();
    StaticComplete();
    sizes0 := [];
    for i := 0 to 144
      invariant |sizes0| == i && forall k :: 0 <= k < i ==> sizes0[k] == 8
    {
      sizes0 := sizes0 + [8];
    }
    for i := 144 to 256
      invariant |sizes0| == i && forall k :: 0 <= k < i ==> sizes0[k] == StaticLitSize(k)
    {
      sizes0 := sizes0 + [9];
    }
    for i := 256 to 280
      invariant |sizes0| == i && forall k :: 0 <= k < i ==> sizes0[k] == StaticLitSize(k)
    {
      sizes0 := sizes0 + [7];
    }
    for i := 280 to 288
      invariant |sizes0| == i && forall k :: 0 <= k < i ==> sizes0[k] == StaticLitSize(k)
    {
      sizes0 := sizes0 + [8];
    }
    assert sizes0 == StaticLit();
    sizes1 := seq(32, _ => 5);
    assert sizes1 == StaticDist();
    codes0 := AssignCodes(sizes0, 15);
    codes1 := AssignCodes(sizes1, 15);
    w.PutBits(1, 2);
  }
}
