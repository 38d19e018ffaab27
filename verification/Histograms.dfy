/** Histograms of code lengths, `num_codes` in `tdefl_optimize_huffman_table` (src/external/miniz.h:2717-2770): what
    part of the code space they cover, and how they relate to lists of lengths. */
module Histograms {
  import opened Bits
  import opened Canonical
  import opened MinRedundancy
  import opened OptimalCode
  import DecodeTable

  // ---------- histograms of code lengths ----------

  /** `Covered` for a histogram instead of a vector of sizes. */
  function Cov(num: seq<int>, len: nat): int
    requires len < |num|
  {
    if len == 0 then 0 else 2 * Cov(num, len - 1) + num[len]
  }

  /** The number of codes of length `lo < l <= hi`. */
  function CodesIn(num: seq<int>, lo: nat, hi: nat): int
    requires lo <= hi < |num|
    decreases hi
  {
    if lo == hi then 0 else CodesIn(num, lo, hi - 1) + num[hi]
  }

  predicate NonNegative(num: seq<int>) {
    forall i :: 0 <= i < |num| ==> num[i] >= 0
  }

  lemma {:induction false} CovUpdate(num: seq<int>, i: nat, v: int, len: nat)
    requires 1 <= i < |num| && len < |num|
    ensures Cov(num[i := v], len) == Cov(num, len) + (if i <= len then (v - num[i]) * Pow2(len - i) else 0)
  {
    if len > 0 {
      CovUpdate(num, i, v, len - 1);
      if i < len {
        assert Pow2(len - i) == 2 * Pow2(len - 1 - i);
        DoubleProduct(v - num[i], Pow2(len - 1 - i));
      }
    }
  }

  lemma DoubleProduct(a: int, b: int)
    ensures a * (2 * b) == 2 * (a * b)
  {
  }

  lemma {:induction false} CodesUpdate(num: seq<int>, i: nat, v: int, lo: nat, hi: nat)
    requires i < |num| && lo <= hi < |num|
    ensures CodesIn(num[i := v], lo, hi) == CodesIn(num, lo, hi) + (if lo < i <= hi then v - num[i] else 0)
    decreases hi
  {
    if lo < hi {
      CodesUpdate(num, i, v, lo, hi - 1);
    }
  }

  lemma {:induction false} CovNonNegative(num: seq<int>, len: nat)
    requires NonNegative(num) && len < |num|
    ensures Cov(num, len) >= 0
  {
    if len > 0 {
      CovNonNegative(num, len - 1);
    }
  }

  /** A complete code is not oversubscribed at any length. */
  lemma {:induction false} CovBound(num: seq<int>, len: nat, top: nat)
    requires NonNegative(num) && len <= top < |num| && Cov(num, top) <= Pow2(top)
    ensures Cov(num, len) <= Pow2(len)
    decreases top - len
  {
    if len < top {
      CovBound(num, len + 1, top);
    }
  }

  /** Moving all longer codes up to `len` can only increase the covered part. */
  lemma {:induction false} CovRaised(num: seq<int>, len: nat, top: nat)
    requires NonNegative(num) && len <= top < |num|
    ensures Cov(num, top) <= Pow2(top - len) * (Cov(num, len) + CodesIn(num, len, top))
    decreases top
  {
    if len < top {
      CovRaised(num, len, top - 1);
      var p, x := Pow2(top - 1 - len), Cov(num, len) + CodesIn(num, len, top - 1);
      assert Pow2(top - len) == 2 * p;
      Spread(p, x, num[top]);
    }
  }

  lemma Spread(p: int, x: int, n: int)
    requires p >= 1 && n >= 0
    ensures 2 * (p * x) + n <= 2 * p * (x + n)
  {
    assert 2 * p * (x + n) == 2 * (p * x) + 2 * (p * n);
    assert p * n == n + (p - 1) * n;
    assert (p - 1) * n >= 0;
  }

  lemma {:induction false} NoneShorter(num: seq<int>, len: nat)
    requires len < |num| && forall i :: 1 <= i <= len ==> num[i] == 0
    ensures Cov(num, len) == 0 && CodesIn(num, 0, len) == 0
  {
    if len > 0 {
      NoneShorter(num, len - 1);
    }
  }

  lemma {:induction false} CodesSplit(num: seq<int>, mid: nat, hi: nat)
    requires mid <= hi < |num|
    ensures CodesIn(num, 0, hi) == CodesIn(num, 0, mid) + CodesIn(num, mid, hi)
  {
    if mid < hi {
      CodesSplit(num, mid, hi - 1);
    }
  }

  lemma {:induction false} NoneLonger(num: seq<int>, lo: nat, hi: nat)
    requires NonNegative(num) && lo <= hi < |num| && CodesIn(num, lo, hi) == 0
    ensures forall i :: lo < i <= hi ==> num[i] == 0
  {
    if lo < hi {
      CodesNonNegative(num, lo, hi - 1);
      NoneLonger(num, lo, hi - 1);
    }
  }

  lemma {:induction false} CodesNonNegative(num: seq<int>, lo: nat, hi: nat)
    requires NonNegative(num) && lo <= hi < |num|
    ensures CodesIn(num, lo, hi) >= 0
  {
    if lo < hi {
      CodesNonNegative(num, lo, hi - 1);
    }
  }

  // ---------- from lengths in sorted order to a histogram ----------

  /** What the codes of the first `n` symbols cover. */
  function CoveredTo(lens: seq<nat>, n: nat, len: nat): nat
    requires n <= |lens|
  {
    if len == 0 then 0 else 2 * CoveredTo(lens, n, len - 1) + CountTo(lens, n, len)
  }

  lemma {:induction false} CoveredToStep(lens: seq<nat>, n: nat, len: nat)
    requires n < |lens|
    ensures CoveredTo(lens, n + 1, len)
         == CoveredTo(lens, n, len) + (if 1 <= lens[n] <= len then Pow2(len - lens[n]) else 0)
  {
    if len > 0 {
      CoveredToStep(lens, n, len - 1);
      if 1 <= lens[n] < len {
        assert Pow2(len - lens[n]) == 2 * Pow2(len - 1 - lens[n]);
      }
    }
  }

  lemma {:induction false} CoveredToNone(lens: seq<nat>, len: nat)
    ensures CoveredTo(lens, 0, len) == 0
  {
    if len > 0 {
      CoveredToNone(lens, len - 1);
    }
  }

  lemma {:induction false} KraftFrom(lens: seq<nat>, n: nat, m: nat)
    requires n <= |lens| && forall i :: 0 <= i < |lens| ==> 1 <= lens[i] <= m
    ensures CoveredTo(lens, |lens|, m) == CoveredTo(lens, n, m) + Kraft(lens[n..], m)
    decreases |lens| - n
  {
    if n < |lens| {
      KraftFrom(lens, n + 1, m);
      CoveredToStep(lens, n, m);
      KraftCons(lens, n, m);
    }
  }

  ghost predicate IsHistogram(num: seq<int>, lens: seq<nat>, n: nat) {
    && |num| == MAX_SUPPORTED + 1 && n <= |lens|
    && forall l :: 0 <= l <= MAX_SUPPORTED ==> num[l] == CountTo(lens, n, l)
  }

  lemma HistogramStart(num: seq<int>, lens: seq<nat>)
    requires |num| == MAX_SUPPORTED + 1 && forall l :: 0 <= l < |num| ==> num[l] == 0
    ensures IsHistogram(num, lens, 0)
  {
  }

  lemma HistogramNext(num: seq<int>, lens: seq<nat>, n: nat)
    requires IsHistogram(num, lens, n) && n < |lens| && lens[n] <= MAX_SUPPORTED
    ensures IsHistogram(num[lens[n] := num[lens[n]] + 1], lens, n + 1)
  {
  }

  lemma {:induction false} HistogramSums(num: seq<int>, lens: seq<nat>, m: nat)
    requires IsHistogram(num, lens, |lens|) && m <= MAX_SUPPORTED
    ensures Cov(num, m) == CoveredTo(lens, |lens|, m)
    ensures CodesIn(num, 0, m) == DecodeTable.UsedTo(lens, |lens|, m)
  {
    if m > 0 {
      HistogramSums(num, lens, m - 1);
    }
  }

  lemma {:induction false} AllCounted(lens: seq<nat>, n: nat, m: nat)
    requires n <= |lens| && forall i :: 0 <= i < |lens| ==> 1 <= lens[i] <= m
    ensures DecodeTable.UsedTo(lens, n, m) == n
  {
    if n > 0 {
      AllCounted(lens, n - 1, m);
      DecodeTable.UsedStep(lens, n - 1, m);
    } else {
      DecodeTable.UsedNone(lens, m);
    }
  }

  /** The histogram of the Huffman lengths is what the limiter expects. */
  lemma HistogramComplete(num: seq<int>, lens: seq<nat>)
    requires IsHistogram(num, lens, |lens|)
    requires forall i :: 0 <= i < |lens| ==> 1 <= lens[i] <= MAX_SUPPORTED
    ensures NonNegative(num) && CodesIn(num, 0, MAX_SUPPORTED) == |lens|
    ensures Kraft(lens, MAX_SUPPORTED) == Pow2(MAX_SUPPORTED) ==> Cov(num, MAX_SUPPORTED) == Pow2(MAX_SUPPORTED)
  {
    hide Pow2, Kraft, Cov, CodesIn, CoveredTo, DecodeTable.UsedTo;
    HistogramSums(num, lens, MAX_SUPPORTED);
    AllCounted(lens, |lens|, MAX_SUPPORTED);
    CoveredToNone(lens, MAX_SUPPORTED);
    KraftFrom(lens, 0, MAX_SUPPORTED);
    assert lens[0..] == lens;
  }
}
