/** How many bits a dynamic block takes (src/external/miniz.h:2853-2936, 3060-3111).  Because its codes are nearly
    optimal it is never too long for the output buffer: the case that the source calls "extremely unlikely (if not
    impossible)" (3198-3199) is impossible. */
module BlockSize {
  import opened Bits
  import opened Canonical
  import opened Tokens
  import opened BlockBody
  import opened LzCodes
  import opened MergeQueues
  import opened OptimalCode
  import opened CodeLengths
  import opened Inflate
  import opened DynamicHeader
  import HuffmanTable

  // ---------- the tokens ----------

  function Literals(ts: seq<Token>): nat {
    if |ts| == 0 then 0 else Literals(ts[..|ts| - 1]) + if ts[|ts| - 1].Literal? then 1 else 0
  }

  function Matches(ts: seq<Token>): nat {
    if |ts| == 0 then 0 else Matches(ts[..|ts| - 1]) + if ts[|ts| - 1].Match? then 1 else 0
  }

  lemma {:induction false} LiteralsAndMatches(ts: seq<Token>)
    ensures Literals(ts) + Matches(ts) == |ts|
  {
    if |ts| > 0 {
      LiteralsAndMatches(ts[..|ts| - 1]);
    }
  }

  lemma BumpCost(count: seq<nat>, k: nat, sizes: seq<nat>)
    requires k < |count| == |sizes|
    ensures Cost(Bump(count, k), sizes) == Cost(count, sizes) + sizes[k]
  {
    hide Cost;
    WeightUpdate(count, sizes, k, count[k] + 1);
    PlusOne(count[k], sizes[k]);
  }

  lemma PlusOne(a: nat, b: nat)
    ensures (a + 1) * b == a * b + b
  {
  }

  lemma {:induction false} ZeroCost(count: seq<nat>, sizes: seq<nat>)
    requires |count| == |sizes| && forall i :: 0 <= i < |count| ==> count[i] == 0
    ensures Cost(count, sizes) == 0
  {
    if |count| > 0 {
      ZeroCost(count[1..], sizes[1..]);
    }
  }

  lemma TokenLength(lit: seq<nat>, dist: seq<nat>, t: Token)
    requires Encodable(lit, dist, t) && |lit| == 288 && |dist| == 32
    ensures |TokenBits(lit, dist, t)| <= lit[LitSymbol(t)] + if t.Match? then dist[DistSymbol(t.dist)] + 18 else 0
  {
    hide CodeWord, Enc, Pow2;
    if t.Match? {
      ExtraAtMost(t.len - MIN_MATCH_LEN, t.dist - 1);
    }
  }

  lemma ExtraAtMost(l: nat, d: nat)
    requires l < 256 && d < LZ_DICT_SIZE
    ensures LenExtraBits(l) <= 5 && DistExtraBits(d) <= 13
  {
  }

  /** The bits of the tokens are the cost of their counts, and the extra bits. */
  lemma {:induction false} TokensLength(lit: seq<nat>, dist: seq<nat>, ts: seq<Token>)
    requires AllEncodable(lit, dist, ts) && ValidTokens(ts) && |lit| == 288 && |dist| == 32
    ensures |TokensBits(lit, dist, ts)| <= Cost(LitCounts(ts), lit) + Cost(DistCounts(ts), dist) + 18 * Matches(ts)
  {
    hide TokenBits, Cost, Encodable, Zeros, LitSymbol, DistSymbol;
    if |ts| > 0 {
      var init, t := ts[..|ts| - 1], ts[|ts| - 1];
      assert ts == init + [t];
      TokensLength(lit, dist, init);
      TokensBitsConcat(lit, dist, init, [t]);
      OneToken(lit, dist, t);
      TokenLength(lit, dist, t);
      BumpCost(LitCounts(init), LitSymbol(t), lit);
      if t.Match? {
        BumpCost(DistCounts(init), DistSymbol(t.dist), dist);
      }
    }
  }

  lemma OneToken(lit: seq<nat>, dist: seq<nat>, t: Token)
    requires Encodable(lit, dist, t)
    ensures AllEncodable(lit, dist, [t]) && TokensBits(lit, dist, [t]) == TokenBits(lit, dist, t)
  {
    hide TokenBits, Encodable;
    assert [t][1..] == [];
    assert TokenBits(lit, dist, t) + [] == TokenBits(lit, dist, t);
  }

  // ---------- a code to compare with ----------

  lemma {:induction false} KraftConcat(a: seq<nat>, b: seq<nat>, m: nat)
    requires UpTo(a, m) && UpTo(b, m)
    ensures UpTo(a + b, m) && Kraft(a + b, m) == Kraft(a, m) + Kraft(b, m)
  {
    hide Pow2;
    if |a| == 0 {
      assert a + b == b;
    } else {
      KraftConcat(a[1..], b, m);
      assert (a + b)[1..] == a[1..] + b;
    }
  }

  lemma {:induction false} KraftRepeat(v: nat, n: nat, m: nat)
    requires v <= m
    ensures UpTo(Repeat(v, n), m) && Kraft(Repeat(v, n), m) == n * Pow2(m - v)
  {
    hide Pow2;
    if n > 0 {
      KraftRepeat(v, n - 1, m);
      assert Repeat(v, n)[1..] == Repeat(v, n - 1);
      PlusOne(n - 1, Pow2(m - v));
    }
  }

  /** Nine bits for literals, six for lengths and the end of the block. */
  function PlainLit(): (r: seq<nat>)
    ensures |r| == 288 && forall i :: 0 <= i < 288 ==> r[i] == if 256 <= i < 286 then 6 else 9
  {
    Repeat(9, 256) + (Repeat(6, 30) + Repeat(9, 2))
  }

  function PlainDist(): (r: seq<nat>)
    ensures |r| == 32 && forall i :: 0 <= i < 32 ==> r[i] == 5
  {
    Repeat(5, 32)
  }

  lemma KraftRepeats(v: nat, n: nat, m: nat, unit: nat)
    requires v <= m && Pow2(m - v) == unit
    ensures UpTo(Repeat(v, n), m) && Kraft(Repeat(v, n), m) == n * unit
  {
    KraftRepeat(v, n, m);
  }

  lemma Powers()
    ensures Pow2(0) == 1 && Pow2(3) == 8 && Pow2(5) == 32 && Pow2(9) == 512
  {
    assert Pow2(3) == 8 && Pow2(5) == 32;
    assert Pow2(7) == 128 && Pow2(9) == 512;
  }

  lemma PlainCodes()
    ensures IsCode(PlainLit(), 9) && IsCode(PlainDist(), 5)
  {
    hide Pow2, Kraft, Repeat;
    Powers();
    KraftRepeats(9, 256, 9, 1);
    KraftRepeats(6, 30, 9, 8);
    KraftRepeats(9, 2, 9, 1);
    KraftRepeats(5, 32, 5, 1);
    KraftConcat(Repeat(6, 30), Repeat(9, 2), 9);
    KraftConcat(Repeat(9, 256), Repeat(6, 30) + Repeat(9, 2), 9);
  }

  lemma {:induction false} PlainCost(ts: seq<Token>)
    requires ValidTokens(ts)
    ensures Cost(LitCounts(ts), PlainLit()) == 9 * Literals(ts) + 6 * Matches(ts)
    ensures Cost(DistCounts(ts), PlainDist()) == 5 * Matches(ts)
  {
    hide Cost, PlainLit, PlainDist, Zeros, LenSymbol, DistSymbol;
    if |ts| == 0 {
      ZeroCost(Zeros(288), PlainLit());
      ZeroCost(Zeros(32), PlainDist());
    } else {
      var init, t := ts[..|ts| - 1], ts[|ts| - 1];
      PlainCost(init);
      BumpCost(LitCounts(init), LitSymbol(t), PlainLit());
      if t.Match? {
        BumpCost(DistCounts(init), DistSymbol(t.dist), PlainDist());
      }
    }
  }

  /** Counting the end of the block. */
  lemma EndCost(count: seq<nat>, sizes: seq<nat>)
    requires |count| == |sizes| == 288 && count[256] == 0
    ensures Cost(count[256 := 1], sizes) == Cost(count, sizes) + sizes[256]
  {
    hide Cost;
    WeightUpdate(count, sizes, 256, 1);
  }

  // ---------- the body of the block ----------

  /** The code lengths of a dynamic block come from its counts. */
  ghost predicate NearlyOptimal(lit: seq<nat>, dist: seq<nat>, count0: seq<nat>, count1: seq<nat>) {
    && |lit| == |count0| == 288 && |dist| == |count1| == 32
    && HuffmanTable.NearOptimal(count0[256 := 1], lit) && HuffmanTable.NearOptimal(count1, dist)
  }

  lemma NearOptimalMeans(count: seq<nat>, sizes: seq<nat>, r: seq<nat>, m: nat)
    requires |count| == |sizes| == |r| && HuffmanTable.NearOptimal(count, sizes) && IsCode(r, m)
    ensures Cost(count, sizes) <= Cost(count, r) + Sum(count)
  {
    hide Cost, Sum, IsCode;
  }

  /** Ten bits for a literal and thirty-one for a match are enough on the whole. */
  lemma BodyLength(lit: seq<nat>, dist: seq<nat>, count0: seq<nat>, count1: seq<nat>, ts: seq<Token>)
    requires ValidTokens(ts) && Counted(count0, count1, ts) && NearlyOptimal(lit, dist, count0, count1)
    requires AllEncodable(lit, dist, ts) && Uses(lit, 256)
    ensures |BodyBits(lit, dist, ts)| <= 10 * Literals(ts) + 31 * Matches(ts) + 7
  {
    hide Cost, Sum, TokensBits, PlainLit, PlainDist, CodeWord, LitCounts, DistCounts, IsCode,
      HuffmanTable.NearOptimal, Literals, Matches, AllEncodable, TokenCounted;
    PlainCodes();
    NearOptimalMeans(count0[256 := 1], lit, PlainLit(), 9);
    NearOptimalMeans(count1, dist, PlainDist(), 5);
    EndCost(count0, lit);
    EndCost(count0, PlainLit());
    SumUpdate(count0, 256, 1);
    PlainCost(ts);
    TokensLength(lit, dist, ts);
    LiteralsAndMatches(ts);
    MatchesCounted(ts);
    CodeLength(lit, 256);
  }

  lemma CodeLength(sizes: seq<nat>, sym: nat)
    requires Uses(sizes, sym)
    ensures |CodeWord(sizes, sym)| == sizes[sym]
  {
  }

  lemma {:induction false} MatchesCounted(ts: seq<Token>)
    requires ValidTokens(ts)
    ensures Sum(DistCounts(ts)) == Matches(ts)
  {
    hide Sum, Zeros, DistSymbol;
    if |ts| == 0 {
      ZeroCounts(Zeros(32));
    } else {
      var init, t := ts[..|ts| - 1], ts[|ts| - 1];
      MatchesCounted(init);
      if t.Match? {
        SumUpdate(DistCounts(init), DistSymbol(t.dist), DistCounts(init)[DistSymbol(t.dist)] + 1);
      }
    }
  }

  // ---------- the buffer ----------

  lemma {:induction false} CountsConcat(a: seq<Token>, b: seq<Token>)
    ensures Literals(a + b) == Literals(a) + Literals(b) && Matches(a + b) == Matches(a) + Matches(b)
  {
    if |b| == 0 {
      assert a + b == a;
    } else {
      CountsConcat(a, b[..|b| - 1]);
      assert (a + b)[..|a + b| - 1] == a + b[..|b| - 1];
    }
  }

  lemma CountsOne(t: Token)
    ensures Literals([t]) == (if t.Literal? then 1 else 0) && Matches([t]) == (if t.Match? then 1 else 0)
  {
    assert [t][..0] == [];
  }

  lemma {:induction false} BodyBytes(g: seq<Token>)
    requires ValidTokens(g)
    ensures |Body(g)| == Literals(g) + 3 * Matches(g)
  {
    hide Literals, Matches;
    if |g| == 0 {
      LiteralsAndMatches(g);
    } else {
      BodyBytes(g[1..]);
      CountsOne(g[0]);
      CountsConcat([g[0]], g[1..]);
      assert g == [g[0]] + g[1..];
    }
  }

  /** Eight literals take nine bytes of the code buffer, eight matches twenty-five. */
  lemma {:induction false} PackBytes(ts: seq<Token>)
    requires ValidTokens(ts)
    ensures 9 * Literals(ts) + 25 * Matches(ts) <= 8 * |Pack(ts)|
  {
    hide Body, FlagByte, Literals, Matches;
    LiteralsAndMatches(ts);
    if 0 < |ts| <= 8 {
      BodyBytes(ts);
    } else if |ts| > 8 {
      BodyBytes(ts[..8]);
      PackBytes(ts[8..]);
      CountsConcat(ts[..8], ts[8..]);
      LiteralsAndMatches(ts[..8]);
      assert ts == ts[..8] + ts[8..];
    }
  }

  /** So the body takes less than ten bits for each byte of the code buffer. */
  lemma BodySmall(lit: seq<nat>, dist: seq<nat>, count0: seq<nat>, count1: seq<nat>, ts: seq<Token>)
    requires ValidTokens(ts) && Counted(count0, count1, ts) && NearlyOptimal(lit, dist, count0, count1)
    requires AllEncodable(lit, dist, ts) && Uses(lit, 256) && |Pack(ts)| <= LZ_CODE_BUF_SIZE
    ensures |BodyBits(lit, dist, ts)| <= 10 * LZ_CODE_BUF_SIZE
  {
    hide BodyBits, Counted, NearlyOptimal, Pack, Literals, Matches, AllEncodable;
    BodyLength(lit, dist, count0, count1, ts);
    PackBytes(ts);
  }

  // ---------- the header ----------

  lemma {:induction false} ItemsShort(xs: seq<Item>)
    requires CanUnpack(xs)
    ensures |xs| <= |Unpack(xs)|
  {
    if |xs| > 0 {
      ItemsShort(xs[..|xs| - 1]);
    }
  }

  lemma {:induction false} ItemsLength(sizes2: seq<nat>, xs: seq<Item>)
    requires ItemsUse(sizes2, xs) && |sizes2| == 19 && forall k :: 0 <= k < 19 ==> sizes2[k] <= 7
    ensures |ItemsBits(sizes2, xs)| <= 14 * |xs|
  {
    hide CodeWord, Enc, Pow2;
    if |xs| > 0 {
      ItemsLength(sizes2, xs[1..]);
      CodeLength(sizes2, xs[0].sym);
    }
  }

  lemma {:induction false} LengthsLength(sizes2: seq<nat>, i: nat, n: nat)
    requires |sizes2| == 19 && i <= n <= 19
    ensures |LengthsBits(sizes2, i, n)| == 3 * (n - i)
    decreases n - i
  {
    hide Enc;
    if i < n {
      LengthsLength(sizes2, i + 1, n);
    }
  }

  lemma HeaderSmall(h: Header)
    requires WellFormed(h) && h.numLit <= 288 && h.numDist <= 32
    ensures |HeaderBits(h)| <= 4600
  {
    hide ItemsBits, LengthsBits, Enc, Unpack, CanUnpack, ItemsUse;
    ItemsShort(h.items);
    ItemsLength(h.sizes2, h.items);
    LengthsLength(h.sizes2, 0, h.numLengths);
  }
}
