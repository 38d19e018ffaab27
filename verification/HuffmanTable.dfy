/** Length-limited Huffman tables from symbol counts: `tdefl_optimize_huffman_table`
    (src/external/miniz.h:2741-2790). */
module HuffmanTable {
  import opened Bits
  import opened Canonical
  import opened Histograms
  import opened LengthLimit
  import LimitCost
  import opened MergeQueues
  import opened MinRedundancy
  import opened OptimalCode
  import opened RadixSort
  import opened SymbolOrder
  import DecodeTable

  // ---------- from the histogram back to sizes ----------

  /** Giving symbol `k` size `l` counts one more code of that length. */
  lemma {:induction false} CountUpdate(sizes: seq<nat>, k: nat, v: nat, n: nat, l: nat)
    requires k < |sizes| && n <= |sizes|
    ensures CountTo(sizes[k := v], n, l) == CountTo(sizes, n, l)
      + (if k < n then (if v == l then 1 else 0) - (if sizes[k] == l then 1 else 0) else 0)
  {
    if n > 0 {
      CountUpdate(sizes, k, v, n - 1, l);
    }
  }

  lemma {:induction false} CountZeros(sizes: seq<nat>, n: nat, l: nat)
    requires n <= |sizes| && l > 0 && forall i :: 0 <= i < |sizes| ==> sizes[i] == 0
    ensures CountTo(sizes, n, l) == 0
  {
    if n > 0 {
      CountZeros(sizes, n - 1, l);
    }
  }

  lemma {:induction false} CovIsCovered(num: seq<int>, sizes: seq<nat>, m: nat)
    requires m < |num| && forall l :: 1 <= l <= m ==> num[l] == Count(sizes, l)
    ensures Cov(num, m) == Covered(sizes, m)
  {
    if m > 0 {
      CovIsCovered(num, sizes, m - 1);
    }
  }

  lemma {:induction false} CoveredGrows(sizes: seq<nat>, m: nat, n: nat)
    requires m <= n && forall i :: 0 <= i < |sizes| ==> sizes[i] <= m
    requires Covered(sizes, m) == Pow2(m)
    ensures Covered(sizes, n) == Pow2(n)
  {
    if m < n {
      CoveredGrows(sizes, m, n - 1);
      CountNone(sizes, |sizes|, n);
    }
  }

  lemma {:induction false} CountNone(sizes: seq<nat>, n: nat, l: nat)
    requires n <= |sizes| && forall i :: 0 <= i < |sizes| ==> sizes[i] < l
    ensures CountTo(sizes, n, l) == 0
  {
    if n > 0 {
      CountNone(sizes, n - 1, l);
    }
  }

  // ---------- the table ----------

  /** The used symbols with their counts, in symbol order. */
  function UsedSyms(counts: seq<nat>, n: nat): (r: seq<SymFreq>)
    requires n <= |counts|
    ensures |r| <= n
  {
    if n == 0 then []
    else UsedSyms(counts, n - 1) + (if counts[n - 1] > 0 then [SymFreq(counts[n - 1], n - 1)] else [])
  }

  lemma {:induction false} UsedSymsAre(counts: seq<nat>, n: nat)
    requires n <= |counts|
    ensures forall i :: 0 <= i < |UsedSyms(counts, n)| ==>
      var x := UsedSyms(counts, n)[i]; x.sym < n && counts[x.sym] == x.key > 0
    ensures forall v: nat :: v < n && counts[v] > 0 ==> SymFreq(counts[v], v) in UsedSyms(counts, n)
    ensures forall i, j :: 0 <= i < j < |UsedSyms(counts, n)| ==>
      UsedSyms(counts, n)[i].sym < UsedSyms(counts, n)[j].sym
  {
    if n > 0 {
      UsedSymsAre(counts, n - 1);
    }
  }

  function KeySum(s: seq<SymFreq>): nat {
    if |s| == 0 then 0 else KeySum(s[..|s| - 1]) + s[|s| - 1].key
  }

  lemma {:induction false} MultisetOfKey(s: seq<SymFreq>, x: SymFreq)
    ensures multiset(WithKey(s, x.key))[x] == multiset(s)[x]
  {
    if |s| > 0 {
      MultisetOfKey(s[..|s| - 1], x);
      assert s == s[..|s| - 1] + [s[|s| - 1]];
    }
  }

  lemma StableIsPermutation(s: seq<SymFreq>, r: seq<SymFreq>)
    requires StableRearrangement(s, r)
    ensures multiset(r) == multiset(s)
  {
    forall x: SymFreq
      ensures multiset(r)[x] == multiset(s)[x]
    {
      MultisetOfKey(s, x);
      MultisetOfKey(r, x);
      assert WithKey(r, x.key) == WithKey(s, x.key);
    }
  }

  lemma {:induction false} KeySumRemove(s: seq<SymFreq>, k: nat)
    requires k < |s|
    ensures KeySum(s) == s[k].key + KeySum(s[..k] + s[k + 1..])
  {
    if k == |s| - 1 {
      assert s[..k] + s[k + 1..] == s[..|s| - 1];
    } else {
      var t := s[..|s| - 1];
      KeySumRemove(t, k);
      var u := s[..k] + s[k + 1..];
      assert u[..|u| - 1] == t[..k] + t[k + 1..];
      assert u[|u| - 1] == s[|s| - 1];
    }
  }

  lemma {:induction false} KeySumPermutation(s: seq<SymFreq>, r: seq<SymFreq>)
    requires multiset(s) == multiset(r)
    ensures KeySum(s) == KeySum(r)
  {
    if |r| == 0 {
      assert |multiset(s)| == 0;
    } else {
      var x := r[|r| - 1];
      assert r == r[..|r| - 1] + [x];
      assert x in multiset(s);
      var k :| 0 <= k < |s| && s[k] == x;
      assert s == s[..k] + [x] + s[k + 1..];
      KeySumRemove(s, k);
      assert multiset(s[..k] + s[k + 1..]) == multiset(s) - multiset{x};
      KeySumPermutation(s[..k] + s[k + 1..], r[..|r| - 1]);
    }
  }

  lemma DistinctSyms(s: seq<SymFreq>, r: seq<SymFreq>)
    requires multiset(r) == multiset(s)
    requires forall i, j :: 0 <= i < j < |s| ==> s[i].sym < s[j].sym
    ensures forall i, j :: 0 <= i < j < |r| ==> r[i].sym != r[j].sym
  {
    forall i, j | 0 <= i < j < |r|
      ensures r[i].sym != r[j].sym
    {
      if r[i].sym == r[j].sym {
        assert r[i] in multiset(s) && r[j] in multiset(s);
        assert r[i] == r[j];
        assert r == r[..i] + [r[i]] + r[i + 1..j] + [r[j]] + r[j + 1..];
        assert multiset(r)[r[i]] >= 2;
        AtMostOnce(s, r[i]);
      }
    }
  }

  lemma {:induction false} AtMostOnce(s: seq<SymFreq>, x: SymFreq)
    requires forall i, j :: 0 <= i < j < |s| ==> s[i].sym < s[j].sym
    ensures multiset(s)[x] <= 1
  {
    if |s| > 0 {
      var t := s[..|s| - 1];
      AtMostOnce(t, x);
      assert s == t + [s[|s| - 1]];
      if x == s[|s| - 1] {
        assert x !in t;
      }
    }
  }

  lemma {:induction false} KeySumIsSum(s: seq<SymFreq>, keys: seq<nat>)
    requires |keys| == |s| && forall i :: 0 <= i < |s| ==> keys[i] == s[i].key
    ensures Sum(keys) == KeySum(s)
  {
    if |s| > 0 {
      var t, u := s[..|s| - 1], keys[..|s| - 1];
      KeySumIsSum(t, u);
      assert keys == u + [keys[|s| - 1]];
      SumConcat(u, [keys[|s| - 1]]);
      SumOne(keys[|s| - 1]);
    }
  }

  lemma {:induction false} KeySumOfUsed(counts: seq<nat>, n: nat)
    requires n <= |counts|
    ensures KeySum(UsedSyms(counts, n)) == Sum(counts[..n])
  {
    if n > 0 {
      KeySumOfUsed(counts, n - 1);
      assert counts[..n] == counts[..n - 1] + [counts[n - 1]];
      SumConcat(counts[..n - 1], [counts[n - 1]]);
      SumOne(counts[n - 1]);
      var t, x := UsedSyms(counts, n - 1), SymFreq(counts[n - 1], n - 1);
      assert (t + [x])[..|t|] == t;
      assert t + [] == t;
    }
  }

  method CollectUsed(counts: seq<nat>, syms0: array<SymFreq>) returns (numUsed: nat)
    requires syms0.Length >= |counts|
    modifies syms0
    ensures numUsed <= |counts| && syms0[..numUsed] == UsedSyms(counts, |counts|)
  {
    numUsed := 0;
    var i := 0;
    while i < |counts|
      invariant 0 <= i <= |counts| && numUsed <= i
      invariant syms0[..numUsed] == UsedSyms(counts, i)
    {
      if counts[i] != 0 {
        ghost var was := syms0[..numUsed];
        syms0[numUsed] := SymFreq(counts[i], i);
        assert syms0[..numUsed + 1] == was + [SymFreq(counts[i], i)];
        numUsed := numUsed + 1;
      }
      i := i + 1;
    }
  }

  /** The sorted symbols: `r` lists the used symbols once each, by ascending count. */
  ghost predicate SortedUse(r: seq<SymFreq>, counts: seq<nat>) {
    && SortedByKey(r)
    && (forall i :: 0 <= i < |r| ==> r[i].sym < |counts| && counts[r[i].sym] == r[i].key > 0)
    && (forall i, j :: 0 <= i < j < |r| ==> r[i].sym != r[j].sym)
    && (forall v: nat :: v < |counts| && counts[v] > 0 ==> SymFreq(counts[v], v) in r)
    && KeySum(r) == Sum(counts)
  }

  method SortUsed(counts: seq<nat>) returns (sorted: seq<SymFreq>)
    requires forall i :: 0 <= i < |counts| ==> counts[i] < 65536
    ensures SortedUse(sorted, counts) && |sorted| <= |counts|
  {
    var syms0 := new SymFreq[|counts|](_ => SymFreq(0, 0));
    var syms1 := new SymFreq[|counts|](_ => SymFreq(0, 0));
    var n := CollectUsed(counts, syms0);
    ghost var s := syms0[..n];
    UsedSymsAre(counts, |counts|);
    KeySumOfUsed(counts, |counts|);
    assert counts[..|counts|] == counts;
    var p := RadixSortSyms(n, syms0, syms1);
    sorted := p[..n];
    StableIsPermutation(s, sorted);
    PermutedUse(s, sorted, counts);
  }

  lemma PermutedUse(s: seq<SymFreq>, r: seq<SymFreq>, counts: seq<nat>)
    requires multiset(r) == multiset(s) && SortedByKey(r) && KeySum(s) == Sum(counts)
    requires forall i :: 0 <= i < |s| ==> s[i].sym < |counts| && counts[s[i].sym] == s[i].key > 0
    requires forall v: nat :: v < |counts| && counts[v] > 0 ==> SymFreq(counts[v], v) in s
    requires forall i, j :: 0 <= i < j < |s| ==> s[i].sym < s[j].sym
    ensures SortedUse(r, counts)
  {
    KeySumPermutation(s, r);
    DistinctSyms(s, r);
    forall i | 0 <= i < |r|
      ensures r[i] in s
    {
      assert r[i] in multiset(r);
    }
    forall v: nat | v < |counts| && counts[v] > 0
      ensures SymFreq(counts[v], v) in r
    {
      assert SymFreq(counts[v], v) in multiset(s);
    }
  }

  /** The counts of the sorted symbols. */
  function Keys(s: seq<SymFreq>): (r: seq<nat>)
    ensures |r| == |s| && forall i :: 0 <= i < |s| ==> r[i] == s[i].key
  {
    seq(|s|, i requires 0 <= i < |s| => s[i].key)
  }

  /** What is known of the lengths before they are limited. */
  ghost predicate HuffmanLengthsOf(sorted: seq<SymFreq>, counts: seq<nat>, lens: seq<nat>) {
    && |lens| == |sorted| && NonIncreasing(lens) && (forall i :: 0 <= i < |lens| ==> 1 <= lens[i] <= MAX_SUPPORTED)
    && (|sorted| > 1 ==> Kraft(lens, MAX_SUPPORTED) == Pow2(MAX_SUPPORTED))
    && (|sorted| > 1 ==> Optimal(Keys(sorted), lens) && FibBounded(Keys(sorted), lens, Sum(counts)))
  }

  /** Code lengths of the sorted symbols, and their histogram. */
  method SortedLengths(sorted: seq<SymFreq>, counts: seq<nat>) returns (numCodes: array<int>, ghost lens: seq<nat>)
    requires SortedUse(sorted, counts) && Sum(counts) < 65536
    ensures fresh(numCodes) && numCodes.Length == MAX_SUPPORTED + 1
    ensures NonNegative(numCodes[..]) && CodesIn(numCodes[..], 0, MAX_SUPPORTED) == |sorted|
    ensures |sorted| > 1 ==> Cov(numCodes[..], MAX_SUPPORTED) == Pow2(MAX_SUPPORTED)
    ensures |sorted| <= 1 ==> CodesIn(numCodes[..], 0, 1) == |sorted|
    ensures HuffmanLengthsOf(sorted, counts, lens) && IsHistogram(numCodes[..], lens, |lens|)
  {
    hide Kraft, Cov, CodesIn, Pow2, Sum, KeySum, DecodeTable.UsedTo, Optimal, FibBounded, IsHistogram;
    var n := |sorted|;
    var a := new nat[n](i requires 0 <= i < n => sorted[i].key);
    assert a[..] == Keys(sorted);
    KeySumIsSum(sorted, a[..]);
    CalculateMinimumRedundancy(a);
    lens := a[..];
    numCodes := new int[MAX_SUPPORTED + 1](_ => 0);
    var i := 0;
    HistogramStart(numCodes[..], lens);
    while i < n
      invariant 0 <= i <= n && a[..] == lens
      invariant IsHistogram(numCodes[..], lens, i)
    {
      HistogramNext(numCodes[..], lens, i);
      numCodes[a[i]] := numCodes[a[i]] + 1;
      i := i + 1;
    }
    HistogramComplete(numCodes[..], lens);
    if n <= 1 {
      HistogramSums(numCodes[..], lens, 1);
      AllCounted(lens, n, 1);
    }
  }

  /** The first `i` lengths are given out down to position `j`, `left` codes of length `i` being still due. */
  ghost predicate GivenOut(sizes: seq<nat>, counts: seq<nat>, sorted: seq<SymFreq>, num: seq<int>, i: nat, j: nat,
                           left: int) {
    && |sizes| == |counts| && j <= |sorted| && 1 <= i < |num|
    && (forall q :: 0 <= q < |sorted| ==> sorted[q].sym < |counts|)
    && (forall q :: j <= q < |sorted| ==> 1 <= sizes[sorted[q].sym] <= i)
    && (forall q, t :: j <= q < t < |sorted| ==> sizes[sorted[q].sym] >= sizes[sorted[t].sym])
    && (forall q :: 0 <= q < j ==> sizes[sorted[q].sym] == 0)
    && (forall v :: 0 <= v < |counts| && counts[v] == 0 ==> sizes[v] == 0)
    && (forall l :: 1 <= l < |num| ==> Count(sizes, l) == if l < i then num[l] else if l == i then num[i] - left else 0)
    && j == |sorted| - CodesIn(num, 0, i) + left && 0 <= left <= num[i]
  }

  lemma GiveOne(sizes: seq<nat>, counts: seq<nat>, sorted: seq<SymFreq>, num: seq<int>, i: nat, j: nat, left: int)
    requires SortedUse(sorted, counts) && GivenOut(sizes, counts, sorted, num, i, j, left)
    requires 0 < left && 0 < j
    ensures sorted[j - 1].sym < |sizes|
    ensures GivenOut(sizes[sorted[j - 1].sym := i], counts, sorted, num, i, j - 1, left - 1)
  {
    hide Sum, KeySum, CodesIn;
    var k := sorted[j - 1].sym;
    var sizes' := sizes[k := i];
    forall l | 1 <= l < |num|
      ensures Count(sizes', l) == if l < i then num[l] else if l == i then num[i] - (left - 1) else 0
    {
      CountUpdate(sizes, k, i, |sizes|, l);
      assert Count(sizes', l) == Count(sizes, l) + (if l == i then 1 else 0);
    }
  }

  /** Every listed symbol has a size, the rarer ones the longer codes, and no other symbol has one. */
  ghost predicate InSortedOrder(sizes: seq<nat>, counts: seq<nat>, sorted: seq<SymFreq>) {
    && |sizes| == |counts| && (forall q :: 0 <= q < |sorted| ==> sorted[q].sym < |counts| && sizes[sorted[q].sym] >= 1)
    && (forall q, t :: 0 <= q < t < |sorted| ==> sizes[sorted[q].sym] >= sizes[sorted[t].sym])
    && (forall v :: 0 <= v < |counts| && counts[v] == 0 ==> sizes[v] == 0)
  }

  method AssignSizes(sorted: seq<SymFreq>, counts: seq<nat>, numCodes: array<int>, limit: nat) returns (sizes: seq<nat>)
    requires SortedUse(sorted, counts) && numCodes.Length == MAX_SUPPORTED + 1 && 1 <= limit <= MAX_BITS
    requires NonNegative(numCodes[..]) && CodesIn(numCodes[..], 0, limit) == |sorted|
    ensures |sizes| == |counts| && forall v :: 0 <= v < |sizes| ==> sizes[v] <= limit
    ensures forall v :: 0 <= v < |sizes| ==> (sizes[v] > 0 <==> counts[v] > 0)
    ensures forall u, v :: 0 <= u < |sizes| && 0 <= v < |sizes| && 0 < counts[u] < counts[v] ==> sizes[u] >= sizes[v]
    ensures forall l :: 1 <= l <= limit ==> Count(sizes, l) == numCodes[l]
    ensures InSortedOrder(sizes, counts, sorted)
  {
    hide CodesIn, Sum, KeySum, GivenOut, SortedUse, NonNegative, InSortedOrder;
    sizes := seq(|counts|, _ => 0);
    ghost var num := numCodes[..];
    GiveNone(sizes, counts, sorted, num);
    NonNegativeAt(num);
    var i: nat, j: nat := 1, |sorted|;
    while i <= limit
      invariant 1 <= i <= limit + 1
      invariant |sizes| == |counts| && GivenOut(sizes, counts, sorted, num, i, j, num[i])
    {
      var l := numCodes[i];
      while l > 0
        invariant |sizes| == |counts| && l >= 0 && GivenOut(sizes, counts, sorted, num, i, j, l)
        decreases l
      {
        EnoughLeft(sizes, counts, sorted, num, i, j, l, limit);
        GiveOne(sizes, counts, sorted, num, i, j, l);
        j := j - 1;
        sizes := sizes[sorted[j].sym := i];
        l := l - 1;
      }
      NextLength(sizes, counts, sorted, num, i, j);
      i := i + 1;
    }
    AllGiven(sizes, counts, sorted, num, limit, j);
  }

  lemma NonNegativeAt(num: seq<int>)
    requires NonNegative(num)
    ensures forall l :: 0 <= l < |num| ==> num[l] >= 0
  {
  }

  lemma GiveNone(sizes: seq<nat>, counts: seq<nat>, sorted: seq<SymFreq>, num: seq<int>)
    requires SortedUse(sorted, counts) && |num| > 1 && NonNegative(num)
    requires sizes == seq(|counts|, _ => 0)
    ensures GivenOut(sizes, counts, sorted, num, 1, |sorted|, num[1])
  {
    forall l | 1 <= l < |num|
      ensures Count(sizes, l) == 0
    {
      CountZeros(sizes, |sizes|, l);
    }
  }

  lemma EnoughLeft(sizes: seq<nat>, counts: seq<nat>, sorted: seq<SymFreq>, num: seq<int>, i: nat, j: nat, left: int,
                   limit: nat)
    requires GivenOut(sizes, counts, sorted, num, i, j, left) && left > 0
    requires i <= limit < |num| && NonNegative(num) && CodesIn(num, 0, limit) == |sorted|
    ensures 0 < j <= |sorted|
  {
    CodesSplit(num, i, limit);
    CodesNonNegative(num, i, limit);
  }

  lemma NextLength(sizes: seq<nat>, counts: seq<nat>, sorted: seq<SymFreq>, num: seq<int>, i: nat, j: nat)
    requires GivenOut(sizes, counts, sorted, num, i, j, 0) && i + 1 < |num| && NonNegative(num)
    ensures GivenOut(sizes, counts, sorted, num, i + 1, j, num[i + 1])
  {
  }

  lemma AllGiven(sizes: seq<nat>, counts: seq<nat>, sorted: seq<SymFreq>, num: seq<int>, limit: nat, j: nat)
    requires SortedUse(sorted, counts) && limit + 1 < |num|
    requires GivenOut(sizes, counts, sorted, num, limit + 1, j, num[limit + 1]) && CodesIn(num, 0, limit) == |sorted|
    ensures forall v :: 0 <= v < |sizes| ==> sizes[v] <= limit
    ensures forall v :: 0 <= v < |sizes| ==> (sizes[v] > 0 <==> counts[v] > 0)
    ensures forall u, v :: 0 <= u < |sizes| && 0 <= v < |sizes| && 0 < counts[u] < counts[v] ==> sizes[u] >= sizes[v]
    ensures forall l :: 1 <= l <= limit ==> Count(sizes, l) == num[l]
    ensures InSortedOrder(sizes, counts, sorted)
  {
    assert CodesIn(num, 0, limit + 1) == CodesIn(num, 0, limit) + num[limit + 1];
    assert j == 0;
    forall v | 0 <= v < |sizes|
      ensures sizes[v] <= limit
    {
      NotThatLong(sizes, v, limit + 1);
      if counts[v] > 0 {
        assert SymFreq(counts[v], v) in sorted;
      }
    }
    forall u, v | 0 <= u < |sizes| && 0 <= v < |sizes| && 0 < counts[u] < counts[v]
      ensures sizes[u] >= sizes[v]
    {
      assert SymFreq(counts[u], u) in sorted && SymFreq(counts[v], v) in sorted;
      var a :| 0 <= a < |sorted| && sorted[a] == SymFreq(counts[u], u);
      var b :| 0 <= b < |sorted| && sorted[b] == SymFreq(counts[v], v);
      assert a < b;
    }
  }

  lemma NotThatLong(sizes: seq<nat>, v: nat, l: nat)
    requires v < |sizes|
    ensures Count(sizes, l) == 0 ==> sizes[v] != l
  {
    CountToMono(sizes, v + 1, |sizes|, l);
  }

  lemma {:induction false} UsedIsCodes(num: seq<int>, sizes: seq<nat>, m: nat)
    requires m < |num| && forall l :: 1 <= l <= m ==> Count(sizes, l) == num[l]
    ensures DecodeTable.UsedTo(sizes, |sizes|, m) == CodesIn(num, 0, m)
  {
    if m > 0 {
      UsedIsCodes(num, sizes, m - 1);
    }
  }

  lemma {:induction false} UsedStops(sizes: seq<nat>, m: nat, n: nat)
    requires m <= n && forall i :: 0 <= i < |sizes| ==> sizes[i] <= m
    ensures DecodeTable.UsedTo(sizes, |sizes|, n) == DecodeTable.UsedTo(sizes, |sizes|, m)
  {
    if m < n {
      UsedStops(sizes, m, n - 1);
      CountNone(sizes, |sizes|, n);
    }
  }

  /** What the decoder demands of the sizes follows from the limited histogram. */
  lemma SizesBuildable(sizes: seq<nat>, num: seq<int>, limit: nat, used: nat)
    requires 1 <= limit <= MAX_BITS && limit < |num|
    requires forall v :: 0 <= v < |sizes| ==> sizes[v] <= limit
    requires forall l :: 1 <= l <= limit ==> Count(sizes, l) == num[l]
    requires CodesIn(num, 0, limit) == used && (used > 1 ==> Cov(num, limit) == Pow2(limit))
    ensures DecodeTable.Buildable(sizes) && DecodeTable.Used(sizes) == used
    ensures used > 1 ==> Complete(sizes)
  {
    hide Pow2, Cov, CodesIn, Covered, DecodeTable.UsedTo;
    UsedIsCodes(num, sizes, limit);
    UsedStops(sizes, limit, MAX_BITS);
    if used > 1 {
      CovIsCovered(num, sizes, limit);
      CoveredGrows(sizes, limit, MAX_BITS);
    }
  }

  /** Limiting leaves as many codes as there are symbols. */
  method LimitedHistogram(sorted: seq<SymFreq>, counts: seq<nat>, limit: nat)
    returns (numCodes: array<int>, ghost lens: seq<nat>, ghost touched: nat)
    requires SortedUse(sorted, counts) && Sum(counts) < 65536 && 1 <= limit <= MAX_BITS && |sorted| <= Pow2(limit)
    ensures fresh(numCodes) && numCodes.Length == MAX_SUPPORTED + 1 && NonNegative(numCodes[..])
    ensures CodesIn(numCodes[..], 0, limit) == |sorted|
    ensures |sorted| > 1 ==> Cov(numCodes[..], limit) == Pow2(limit)
    ensures HuffmanLengthsOf(sorted, counts, lens)
    ensures |sorted| <= 1 ==> CodesIn(numCodes[..], 0, 1) == |sorted|
    ensures |sorted| > 1 ==> Reached(lens, numCodes[..], touched, limit)
  {
    hide Pow2, Cov, CodesIn, SortedUse, Sum, NonNegative, Reached, Optimal, FibBounded, Kraft;
    numCodes, lens := SortedLengths(sorted, counts);
    ghost var num := numCodes[..];
    touched := EnforceMaxCodeSize(numCodes, |sorted|, limit, lens);
    if |sorted| <= 1 {
      AtLengthOne(num, limit);
    }
  }

  lemma AtLengthOne(num: seq<int>, limit: nat)
    requires |num| == MAX_SUPPORTED + 1 && NonNegative(num) && 1 <= limit <= MAX_BITS
    requires CodesIn(num, 0, 1) == CodesIn(num, 0, MAX_SUPPORTED)
    ensures CodesIn(num, 0, limit) == CodesIn(num, 0, 1)
  {
    hide CodesIn;
    CodesSplit(num, 1, limit);
    CodesSplit(num, limit, MAX_SUPPORTED);
    CodesNonNegative(num, 1, limit);
    CodesNonNegative(num, limit, MAX_SUPPORTED);
  }

  // ---------- what the table costs ----------

  /** No prefix code for all the symbols needs fewer bits, by more than one for each symbol counted. */
  ghost predicate NearOptimal(counts: seq<nat>, sizes: seq<nat>)
    requires |counts| == |sizes|
  {
    forall r: seq<nat>, m: nat :: |r| == |counts| && IsCode(r, m) ==>
      Cost(counts, sizes) <= Cost(counts, r) + Sum(counts)
  }

  function Syms(s: seq<SymFreq>): (r: seq<nat>)
    ensures |r| == |s| && forall i :: 0 <= i < |s| ==> r[i] == s[i].sym
  {
    seq(|s|, i requires 0 <= i < |s| => s[i].sym)
  }

  lemma SymsSelect(sorted: seq<SymFreq>, counts: seq<nat>)
    requires SortedUse(sorted, counts)
    ensures (forall i :: 0 <= i < |sorted| ==> Syms(sorted)[i] < |counts|) && Distinct(Syms(sorted))
    ensures forall v :: 0 <= v < |counts| && v !in Syms(sorted) ==> counts[v] == 0
    ensures Select(counts, Syms(sorted)) == Keys(sorted)
  {
    hide Sum, KeySum;
    forall v: nat | v < |counts| && counts[v] > 0
      ensures v in Syms(sorted)
    {
      var i :| 0 <= i < |sorted| && sorted[i] == SymFreq(counts[v], v);
      assert Syms(sorted)[i] == v;
    }
  }

  /** The sizes in sorted order. */
  lemma SortedSizes(sorted: seq<SymFreq>, counts: seq<nat>, num: seq<int>, sizes: seq<nat>)
    requires SortedUse(sorted, counts) && InSortedOrder(sizes, counts, sorted) && MAX_BITS < |num|
    requires (forall v :: 0 <= v < |sizes| ==> sizes[v] <= MAX_BITS)
    requires forall l :: 1 <= l <= MAX_BITS ==> Count(sizes, l) == num[l]
    ensures (forall i :: 0 <= i < |sorted| ==> Syms(sorted)[i] < |sizes|)
    ensures LimitCost.Sized(Select(sizes, Syms(sorted)), num)
    ensures Cost(Keys(sorted), Select(sizes, Syms(sorted))) == Cost(counts, sizes)
  {
    hide CountTo, Count, Sum, KeySum, Cost, SortedUse;
    var idx := Syms(sorted);
    SymsSelect(sorted, counts);
    forall l | 1 <= l <= MAX_BITS
      ensures CountTo(Select(sizes, idx), |idx|, l) == num[l]
    {
      SelectCount(sizes, idx, l);
    }
    SelectCost(counts, sizes, idx);
  }

  lemma TableNearOptimal(sorted: seq<SymFreq>, counts: seq<nat>, num: seq<int>, sizes: seq<nat>, lens: seq<nat>,
                         touched: nat)
    requires SortedUse(sorted, counts) && InSortedOrder(sizes, counts, sorted)
    requires |sorted| <= |counts| <= LimitCost.MAX_SYMBOLS && MAX_BITS < |num|
    requires (forall v :: 0 <= v < |sizes| ==> sizes[v] <= MAX_BITS)
    requires forall l :: 1 <= l <= MAX_BITS ==> Count(sizes, l) == num[l]
    requires |sizes| == |counts| && |sorted| > 1 && HuffmanLengthsOf(sorted, counts, lens)
    requires Reached(lens, num, touched, MAX_BITS)
    ensures NearOptimal(counts, sizes)
  {
    hide Sum, KeySum, Cost, IsCode, Kraft, Pow2, SortedUse, InSortedOrder, Count, Reached, LimitCost.Sized,
      FibBounded, Optimal, NonIncreasing;
    var idx := Syms(sorted);
    SymsSelect(sorted, counts);
    SortedSizes(sorted, counts, num, sizes);
    LimitCost.LimitedCost(Keys(sorted), lens, num, touched, Select(sizes, idx), Sum(counts));
    forall r: seq<nat>, m: nat | |r| == |counts| && IsCode(r, m)
      ensures Cost(counts, sizes) <= Cost(counts, r) + Sum(counts)
    {
      SelectCode(r, idx, m);
      SelectCost(counts, r, idx);
      OptimalMeans(Keys(sorted), lens, Select(r, idx), m);
    }
  }

  lemma OptimalMeans(f: seq<nat>, lens: seq<nat>, r: seq<nat>, m: nat)
    requires |f| == |lens| == |r| && Optimal(f, lens) && IsCode(r, m)
    ensures Cost(f, lens) <= Cost(f, r)
  {
    hide Cost, IsCode;
  }

  /** A single symbol gets a code of one bit. */
  lemma SingleNearOptimal(counts: seq<nat>, sizes: seq<nat>, num: seq<int>, limit: nat, used: nat)
    requires |sizes| == |counts| && limit < |num| && 1 <= limit && NonNegative(num) && used <= 1
    requires CodesIn(num, 0, limit) == used == CodesIn(num, 0, 1)
    requires (forall v :: 0 <= v < |sizes| ==> sizes[v] <= limit)
    requires forall l :: 1 <= l <= limit ==> Count(sizes, l) == num[l]
    ensures NearOptimal(counts, sizes)
  {
    hide Cost, Sum, IsCode, Count, CodesIn;
    CodesSplit(num, 1, limit);
    NoneLonger(num, 1, limit);
    forall v | 0 <= v < |sizes|
      ensures sizes[v] <= 1
    {
      if sizes[v] > 1 {
        NotThatLong(sizes, v, sizes[v]);
      }
    }
    OneBitEach(counts, sizes);
  }

  /** `tdefl_optimize_huffman_table` for counted symbols: the sizes and bit-reversed codes of a code
      that the decompressor accepts, that uses exactly the counted symbols, and in which a more
      frequent symbol never has the longer code. */
  method OptimizeHuffmanTable(counts: seq<nat>, limit: nat) returns (sizes: seq<nat>, codes: seq<nat>)
    requires 1 <= limit <= MAX_BITS && |counts| <= Pow2(limit)
    requires Sum(counts) < 65536 && forall i :: 0 <= i < |counts| ==> counts[i] < 65536
    ensures |sizes| == |counts| == |codes| && forall v :: 0 <= v < |sizes| ==> sizes[v] <= limit
    ensures forall v :: 0 <= v < |sizes| ==> (sizes[v] > 0 <==> counts[v] > 0)
    ensures forall u, v :: 0 <= u < |sizes| && 0 <= v < |sizes| && 0 < counts[u] < counts[v] ==> sizes[u] >= sizes[v]
    ensures DecodeTable.Buildable(sizes)
    ensures DecodeTable.Used(sizes) > 1 ==> Complete(sizes)
    ensures forall i :: Uses(sizes, i) ==>
      codes[i] < Pow2(sizes[i]) && Enc(codes[i], sizes[i]) == CodeWord(sizes, i)
    ensures limit == MAX_BITS && |counts| <= LimitCost.MAX_SYMBOLS ==> NearOptimal(counts, sizes)
  {
    hide NearOptimal, InSortedOrder, HuffmanLengthsOf, Reached, Pow2, Cov, CodesIn, SortedUse, Sum, NonNegative,
      DecodeTable.UsedTo, Covered, CodeWord, Enc;
    var sorted := SortUsed(counts);
    ghost var lens, touched;
    var numCodes;
    numCodes, lens, touched := LimitedHistogram(sorted, counts, limit);
    sizes := AssignSizes(sorted, counts, numCodes, limit);
    SizesBuildable(sizes, numCodes[..], limit, |sorted|);
    if limit == MAX_BITS && |counts| <= LimitCost.MAX_SYMBOLS {
      if |sorted| > 1 {
        TableNearOptimal(sorted, counts, numCodes[..], sizes, lens, touched);
      } else {
        SingleNearOptimal(counts, sizes, numCodes[..], limit, |sorted|);
      }
    }
    DecodeTable.BuildableValid(sizes);
    codes := AssignCodes(sizes, limit);
  }
}
