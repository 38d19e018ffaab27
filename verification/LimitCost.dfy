/** What limiting code lengths to 15 bits costs (src/external/miniz.h:2718-2739): at most one bit for each symbol
    counted.  The symbols that get longer codes are rare, because weights grow like Fibonacci numbers. */
module LimitCost {
  import opened Bits
  import opened Canonical
  import opened Histograms
  import opened LengthLimit
  import opened MergeQueues
  import opened MinRedundancy
  import opened OptimalCode
  import DecodeTable

  const MAX_SYMBOLS: nat := 288

  /** The limited lengths `lens'` in sorted order go with the histogram `num`. */
  ghost predicate Sized(lens': seq<nat>, num: seq<int>) {
    && NonIncreasing(lens') && MAX_BITS < |num|
    && (forall j :: 0 <= j < |lens'| ==> 1 <= lens'[j] <= MAX_BITS)
    && (forall l :: 1 <= l <= MAX_BITS ==> CountTo(lens', |lens'|, l) == num[l])
  }

  // ---------- untouched symbols ----------

  lemma {:induction false} UsedAtLeast(a: seq<nat>, b: seq<nat>, x: nat)
    requires forall l :: 1 <= l <= x ==> CountTo(a, |a|, l) <= CountTo(b, |b|, l)
    ensures DecodeTable.UsedTo(a, |a|, x) <= DecodeTable.UsedTo(b, |b|, x)
  {
    hide CountTo;
    if x > 0 {
      UsedAtLeast(a, b, x - 1);
    }
  }

  /** All from `j` on have codes of at most `x` bits. */
  lemma {:induction false} UsedFromOn(a: seq<nat>, n: nat, j: nat, x: nat)
    requires j <= n <= |a| && forall k :: j <= k < n ==> 1 <= a[k] <= x
    ensures DecodeTable.UsedTo(a, n, x) >= n - j
  {
    if j < n {
      UsedFromOn(a, n - 1, j, x);
      DecodeTable.UsedStep(a, n - 1, x);
    }
  }

  /** Up to `j` all have longer codes. */
  lemma {:induction false} UsedUpTo(a: seq<nat>, n: nat, j: nat, x: nat)
    requires j <= n <= |a| && forall k :: 0 <= k < j ==> a[k] > x
    ensures DecodeTable.UsedTo(a, n, x) <= n - j
  {
    if n == 0 {
      DecodeTable.UsedNone(a, x);
    } else if j < n {
      UsedUpTo(a, n - 1, j, x);
      DecodeTable.UsedStep(a, n - 1, x);
    } else {
      UsedUpTo(a, n - 1, j - 1, x);
      DecodeTable.UsedStep(a, n - 1, x);
    }
  }

  /** A symbol that was not touched does not get a longer code. */
  lemma Untouched(lens: seq<nat>, num: seq<int>, p: nat, lens': seq<nat>, j: nat)
    requires Reached(lens, num, p, MAX_BITS) && Sized(lens', num) && |lens'| == |lens| && p <= j < |lens|
    ensures lens'[j] <= lens[j]
  {
    hide CountTo, DecodeTable.UsedTo;
    var x, t := lens[j], lens[p..];
    forall l | 1 <= l <= x
      ensures CountTo(t, |t|, l) <= CountTo(lens', |lens'|, l)
    {
      assert Extra(lens, num, p, l) >= 0;
    }
    UsedAtLeast(t, lens', x);
    UsedFromOn(t, |t|, j - p, x);
    if lens'[j] > x {
      UsedUpTo(lens', |lens'|, j + 1, x);
    }
  }

  // ---------- touched symbols ----------

  /** The bits added when the symbols in `lo..hi` get codes of the full length. */
  function Added(f: seq<nat>, lens: seq<nat>, lo: nat, hi: nat): nat
    requires lo <= hi <= |f| == |lens| && forall j :: lo <= j < hi ==> lens[j] <= MAX_BITS
    decreases hi
  {
    if lo == hi then 0 else Added(f, lens, lo, hi - 1) + f[hi - 1] * (MAX_BITS - lens[hi - 1])
  }

  /** The part of the code space that their codes leave free then, in units of codes of full length. */
  function Freed(lens: seq<nat>, lo: nat, hi: nat): int
    requires lo <= hi <= |lens| && forall j :: lo <= j < hi ==> lens[j] <= MAX_BITS
    decreases hi
  {
    if lo == hi then 0 else Freed(lens, lo, hi - 1) + Pow2(MAX_BITS - lens[hi - 1]) - 1
  }

  lemma FibTable()
    ensures Fib(2) == 1 && Fib(3) == 2 && Fib(4) == 3 && Fib(5) == 5 && Fib(6) == 8 && Fib(7) == 13 && Fib(8) == 21
    ensures Fib(9) == 34 && Fib(10) == 55 && Fib(11) == 89 && Fib(12) == 144 && Fib(13) == 233 && Fib(14) == 377
    ensures Fib(15) == 610
  {
    assert Fib(2) == 1 && Fib(3) == 2;
    assert Fib(4) == 3 && Fib(5) == 5;
    assert Fib(6) == 8 && Fib(7) == 13;
    assert Fib(8) == 21 && Fib(9) == 34;
    assert Fib(10) == 55 && Fib(11) == 89;
    assert Fib(12) == 144 && Fib(13) == 233;
    assert Fib(14) == 377 && Fib(15) == 610;
  }

  lemma PowTable()
    ensures Pow2(1) == 2 && Pow2(2) == 4 && Pow2(3) == 8 && Pow2(4) == 16 && Pow2(5) == 32 && Pow2(6) == 64
    ensures Pow2(7) == 128 && Pow2(8) == 256
    ensures Pow2(9) == 512 && Pow2(10) == 1024 && Pow2(11) == 2048 && Pow2(12) == 4096 && Pow2(13) == 8192
    ensures Pow2(14) == 16384
  {
    assert Pow2(1) == 2 && Pow2(2) == 4;
    assert Pow2(3) == 8 && Pow2(4) == 16;
    assert Pow2(5) == 32 && Pow2(6) == 64;
    assert Pow2(7) == 128 && Pow2(8) == 256;
    assert Pow2(9) == 512 && Pow2(10) == 1024;
    assert Pow2(11) == 2048 && Pow2(12) == 4096;
    assert Pow2(13) == 8192 && Pow2(14) == 16384;
  }

  /** At every length the freed space outweighs the added bits, measured by Fibonacci numbers. */
  lemma PerLength(l: nat)
    requires 1 <= l < MAX_BITS
    ensures 540 * (MAX_BITS - l) <= Fib(l + 1) * (Pow2(MAX_BITS - l) - 1)
    ensures l >= 7 ==> 21 * (MAX_BITS - l) <= 8 * Fib(l + 1)
  {
    FibTable();
    PowTable();
    hide Fib, Pow2;
  }

  lemma Scaled(f: nat, w: nat, fib: nat, d: nat, u: nat, c: nat)
    requires f * fib <= w && c * d <= fib * u
    ensures c * (f * d) <= w * u
  {
    assert c * (f * d) == f * (c * d);
    assert f * (c * d) <= f * (fib * u) by { MulMono(c * d, fib * u, f); }
    assert f * (fib * u) == (f * fib) * u;
    assert (f * fib) * u <= w * u by { MulMonoLeft(f * fib, w, u); }
  }

  lemma MulMonoLeft(a: nat, b: nat, d: nat)
    requires a <= b
    ensures a * d <= b * d
  {
    assert (b - a) * d >= 0;
  }

  lemma {:induction false} AddedBound(f: seq<nat>, lens: seq<nat>, lo: nat, hi: nat, w: nat)
    requires lo <= hi <= |f| == |lens| && FibBounded(f, lens, w) && forall j :: lo <= j < hi ==> 1 <= lens[j] < MAX_BITS
    ensures 540 * Added(f, lens, lo, hi) <= w * Freed(lens, lo, hi)
    decreases hi
  {
    hide Fib, Pow2;
    if lo < hi {
      AddedBound(f, lens, lo, hi - 1, w);
      var l := lens[hi - 1];
      PerLength(l);
      PowAtLeastOne(MAX_BITS - l);
      Scaled(f[hi - 1], w, Fib(l + 1), MAX_BITS - l, Pow2(MAX_BITS - l) - 1, 540);
      AddProducts(w, Freed(lens, lo, hi - 1), Pow2(MAX_BITS - l) - 1);
    }
  }

  lemma PowAtLeastOne(n: nat)
    ensures Pow2(n) >= 1
  {
  }

  lemma AddProducts(w: nat, a: int, b: int)
    ensures w * a + w * b == w * (a + b)
  {
  }

  lemma {:induction false} FreedIsKraft(lens: seq<nat>, lo: nat, hi: nat)
    requires lo <= hi <= |lens| && forall j :: lo <= j < |lens| ==> lens[j] <= MAX_BITS
    ensures UpTo(lens[lo..], MAX_BITS) && UpTo(lens[hi..], MAX_BITS)
    ensures Freed(lens, lo, hi) == Kraft(lens[lo..], MAX_BITS) - Kraft(lens[hi..], MAX_BITS) - (hi - lo)
    decreases hi
  {
    hide Pow2;
    if lo < hi {
      FreedIsKraft(lens, lo, hi - 1);
      KraftCons(lens, hi - 1, MAX_BITS);
    }
  }

  /** Codes longer than the limit leave less than the whole space to the others. */
  lemma OthersCover(lens: seq<nat>, c: nat)
    requires c <= |lens| && UpTo(lens, MAX_SUPPORTED) && Kraft(lens, MAX_SUPPORTED) == Pow2(MAX_SUPPORTED)
    requires forall j :: c <= j < |lens| ==> lens[j] <= MAX_BITS
    ensures UpTo(lens[c..], MAX_BITS) && Kraft(lens[c..], MAX_BITS) <= Pow2(MAX_BITS)
    ensures c > 0 ==> Kraft(lens[c..], MAX_BITS) < Pow2(MAX_BITS)
  {
    hide Pow2, Kraft;
    var t := lens[c..];
    KraftSuffix(lens, c, MAX_SUPPORTED);
    KraftScale(t, MAX_BITS, MAX_SUPPORTED - MAX_BITS);
    Pow2Add(MAX_BITS, MAX_SUPPORTED - MAX_BITS);
    PowAtLeastOne(MAX_SUPPORTED - MAX_BITS);
    if Kraft(t, MAX_BITS) > Pow2(MAX_BITS) {
      MulGap(Pow2(MAX_BITS), Kraft(t, MAX_BITS), Pow2(MAX_SUPPORTED - MAX_BITS));
    }
  }

  /** A suffix covers no more than all, and less when something is before it. */
  lemma {:induction false} KraftSuffix(lens: seq<nat>, c: nat, m: nat)
    requires c <= |lens| && UpTo(lens, m)
    ensures UpTo(lens[c..], m) && Kraft(lens[c..], m) + c <= Kraft(lens, m)
  {
    hide Pow2;
    if c == 0 {
      assert lens[0..] == lens;
    } else {
      KraftSuffix(lens, c - 1, m);
      KraftCons(lens, c - 1, m);
      PowAtLeastOne(m - lens[c - 1]);
    }
  }

  /** The last symbol touched had a code of 7 bits at least: one that short frees more than all symbols need. */
  lemma LastTouched(lens: seq<nat>, p: nat, c: nat)
    requires c < p <= |lens| <= MAX_SYMBOLS && NonIncreasing(lens) && UpTo(lens, MAX_SUPPORTED)
    requires Kraft(lens, MAX_SUPPORTED) == Pow2(MAX_SUPPORTED)
    requires (forall j :: c <= j < |lens| ==> 1 <= lens[j] < MAX_BITS) && TakenLate(lens, p, MAX_BITS)
    ensures lens[p - 1] >= 7
  {
    hide Kraft, Pow2;
    var t, l := lens[p - 1..], lens[p - 1];
    OthersCover(lens, c);
    assert p - 1 > 0;
    OthersCover(lens, p - 1);
    KraftMultiple(t, MAX_BITS, l);
    PowMultiple(MAX_BITS, l);
    MultipleGap(Kraft(t, MAX_BITS), Pow2(MAX_BITS), Pow2(MAX_BITS - l));
    if l < 7 {
      Pow2Mono(9, MAX_BITS - l);
      PowTable();
    }
  }

  /** The touched symbols cost at most the total count. */
  lemma TouchedCost(f: seq<nat>, lens: seq<nat>, p: nat, c: nat, w: nat)
    requires c <= p <= |lens| == |f| <= MAX_SYMBOLS && NonIncreasing(lens) && UpTo(lens, MAX_SUPPORTED)
    requires Kraft(lens, MAX_SUPPORTED) == Pow2(MAX_SUPPORTED) && FibBounded(f, lens, w)
    requires forall j :: c <= j < |lens| ==> 1 <= lens[j] < MAX_BITS
    requires c < p ==> TakenLate(lens, p, MAX_BITS)
    ensures Added(f, lens, c, p) <= w
  {
    hide Kraft, Pow2, Fib, Freed, UpTo, NonIncreasing, TakenLate;
    if c < p {
      AddedBound(f, lens, c, p - 1, w);
      FreedFew(lens, p, c);
      MulMonoInt(Freed(lens, c, p - 1), 287, w);
      LastTouched(lens, p, c);
      var l := lens[p - 1];
      PerLength(l);
      Scaled(f[p - 1], w, Fib(l + 1), MAX_BITS - l, 8, 21);
      Shares(Added(f, lens, c, p - 1), f[p - 1] * (MAX_BITS - l), w);
    }
  }

  /** The symbols before the last one touched free less space than all symbols need. */
  lemma FreedFew(lens: seq<nat>, p: nat, c: nat)
    requires c < p <= |lens| <= MAX_SYMBOLS && UpTo(lens, MAX_SUPPORTED)
    requires Kraft(lens, MAX_SUPPORTED) == Pow2(MAX_SUPPORTED)
    requires (forall j :: c <= j < |lens| ==> 1 <= lens[j] < MAX_BITS) && TakenLate(lens, p, MAX_BITS)
    ensures Freed(lens, c, p - 1) <= 287
  {
    hide Kraft, Pow2, Freed;
    FreedIsKraft(lens, c, p - 1);
    OthersCover(lens, c);
  }

  lemma Shares(a: int, b: int, w: nat)
    requires 540 * a <= w * 287 && 21 * b <= w * 8
    ensures a + b <= w
  {
  }

  lemma MulMonoInt(a: int, b: int, w: nat)
    requires a <= b
    ensures w * a <= w * b
  {
    assert w * (b - a) >= 0;
  }

  // ---------- together ----------

  lemma {:induction false} CostSplit(f: seq<nat>, lens: seq<nat>, lens': seq<nat>, p: nat, c: nat, n: nat)
    requires n <= |f| == |lens| == |lens'| && c <= p <= |f| && (forall j :: c <= j < |lens| ==> lens[j] <= MAX_BITS)
    requires forall j :: 0 <= j < c ==> lens'[j] <= lens[j]
    requires forall j :: c <= j < p ==> lens'[j] <= MAX_BITS
    requires forall j :: p <= j < |f| ==> lens'[j] <= lens[j]
    ensures CostTo(f, lens', n) <= CostTo(f, lens, n) + if n <= c then 0 else Added(f, lens, c, if n < p then n else p)
  {
    if n > 0 {
      CostSplit(f, lens, lens', p, c, n - 1);
      if c < n <= p {
        MulMono(lens'[n - 1], MAX_BITS, f[n - 1]);
        assert f[n - 1] * MAX_BITS == f[n - 1] * lens[n - 1] + f[n - 1] * (MAX_BITS - lens[n - 1]);
      } else {
        MulMono(lens'[n - 1], lens[n - 1], f[n - 1]);
      }
    }
  }

  /** `Cost`, from the front. */
  function CostTo(f: seq<nat>, lens: seq<nat>, n: nat): nat
    requires n <= |f| == |lens|
  {
    if n == 0 then 0 else CostTo(f, lens, n - 1) + f[n - 1] * lens[n - 1]
  }

  lemma {:induction false} CostFromFront(f: seq<nat>, lens: seq<nat>, n: nat)
    requires n <= |f| == |lens|
    ensures Cost(f, lens) == CostTo(f, lens, n) + Cost(f[n..], lens[n..])
  {
    if n == 0 {
      assert f[0..] == f && lens[0..] == lens;
    } else {
      CostFromFront(f, lens, n - 1);
      assert f[n - 1..][1..] == f[n..] && lens[n - 1..][1..] == lens[n..];
    }
  }

  /** The lengths that the limiter leads to cost at most one bit a symbol more than Huffman's. */
  lemma LimitedCost(f: seq<nat>, lens: seq<nat>, num: seq<int>, p: nat, lens': seq<nat>, w: nat)
    requires |f| == |lens| == |lens'| <= MAX_SYMBOLS && Reached(lens, num, p, MAX_BITS) && Sized(lens', num)
    requires (forall j :: 0 <= j < |lens| ==> 1 <= lens[j] <= MAX_SUPPORTED)
    requires Kraft(lens, MAX_SUPPORTED) == Pow2(MAX_SUPPORTED)
    requires FibBounded(f, lens, w)
    ensures Cost(f, lens') <= Cost(f, lens) + w
  {
    hide Kraft, Pow2, CountTo, Cost, FibBounded;
    var c := FirstShorter(lens, MAX_BITS, |lens|);
    assert p < |lens| ==> lens[p] < MAX_BITS;
    forall j | p <= j < |f|
      ensures lens'[j] <= lens[j]
    {
      Untouched(lens, num, p, lens', j);
    }
    TouchedCost(f, lens, p, c, w);
    CostSplit(f, lens, lens', p, c, |f|);
    CostFromFront(f, lens, |f|);
    CostFromFront(f, lens', |f|);
    NoCost(f[|f|..], lens[|f|..]);
    NoCost(f[|f|..], lens'[|f|..]);
    NoneAdded(f, lens, c);
  }

  lemma NoCost(f: seq<nat>, lens: seq<nat>)
    requires |f| == |lens| == 0
    ensures Cost(f, lens) == 0
  {
  }

  lemma NoneAdded(f: seq<nat>, lens: seq<nat>, c: nat)
    requires c <= |f| == |lens|
    ensures Added(f, lens, c, c) == 0
  {
  }
}
