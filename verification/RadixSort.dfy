/** The stable two-pass radix sort of symbols by 16-bit frequency (src/external/miniz.h:2637-2667). */
module RadixSort {

  datatype SymFreq = SymFreq(key: nat, sym: nat)

  /** The byte of the key that pass `pass` looks at: `(key >> (8 * pass)) & 0xFF`. */
  function Digit(x: SymFreq, pass: nat): (d: nat)
    ensures d < 256
  {
    (if pass == 0 then x.key else x.key / 256) % 256
  }

  predicate Keys16(s: seq<SymFreq>) {
    forall i :: 0 <= i < |s| ==> s[i].key < 65536
  }

  /** The elements of `s` with digit `d`, in their order in `s`. */
  function Bucket(s: seq<SymFreq>, pass: nat, d: nat): (r: seq<SymFreq>)
    ensures |r| <= |s|
  {
    if |s| == 0 then []
    else Bucket(s[..|s| - 1], pass, d) + (if Digit(s[|s| - 1], pass) == d then [s[|s| - 1]] else [])
  }

  /** The first `m` buckets, one after the other. */
  function Buckets(s: seq<SymFreq>, pass: nat, m: nat): seq<SymFreq> {
    if m == 0 then [] else Buckets(s, pass, m - 1) + Bucket(s, pass, m - 1)
  }

  /** The elements of `s` with key `k`, in their order in `s`. */
  function WithKey(s: seq<SymFreq>, k: nat): seq<SymFreq> {
    if |s| == 0 then []
    else WithKey(s[..|s| - 1], k) + (if s[|s| - 1].key == k then [s[|s| - 1]] else [])
  }

  predicate SortedByKey(s: seq<SymFreq>) {
    forall i, j :: 0 <= i < j < |s| ==> s[i].key <= s[j].key
  }

  /** `r` is `s` rearranged, with equal keys in their original order. */
  ghost predicate StableRearrangement(s: seq<SymFreq>, r: seq<SymFreq>) {
    |r| == |s| && forall k: nat :: WithKey(r, k) == WithKey(s, k)
  }

  predicate SortedByDigit(s: seq<SymFreq>, pass: nat) {
    forall i, j :: 0 <= i < j < |s| ==> Digit(s[i], pass) <= Digit(s[j], pass)
  }

  // ---------- what one pass does to the order ----------

  lemma {:induction false} BucketDigit(s: seq<SymFreq>, pass: nat, d: nat)
    ensures forall i :: 0 <= i < |Bucket(s, pass, d)| ==>
      Digit(Bucket(s, pass, d)[i], pass) == d && Bucket(s, pass, d)[i] in s
  {
    if |s| > 0 {
      BucketDigit(s[..|s| - 1], pass, d);
    }
  }

  lemma {:induction false} BucketsDigit(s: seq<SymFreq>, pass: nat, m: nat)
    ensures SortedByDigit(Buckets(s, pass, m), pass)
    ensures forall i :: 0 <= i < |Buckets(s, pass, m)| ==>
      Digit(Buckets(s, pass, m)[i], pass) < m && Buckets(s, pass, m)[i] in s
  {
    if m > 0 {
      BucketsDigit(s, pass, m - 1);
      BucketDigit(s, pass, m - 1);
    }
  }

  lemma {:induction false} WithKeyConcat(a: seq<SymFreq>, b: seq<SymFreq>, k: nat)
    ensures WithKey(a + b, k) == WithKey(a, k) + WithKey(b, k)
  {
    if |b| == 0 {
      assert a + b == a;
    } else {
      assert (a + b)[..|a + b| - 1] == a + b[..|b| - 1];
      WithKeyConcat(a, b[..|b| - 1], k);
    }
  }

  lemma {:induction false} WithKeyBucket(s: seq<SymFreq>, pass: nat, d: nat, k: nat)
    ensures WithKey(Bucket(s, pass, d), k) == if Digit(SymFreq(k, 0), pass) == d then WithKey(s, k) else []
  {
    if |s| > 0 {
      var t, x := s[..|s| - 1], s[|s| - 1];
      WithKeyBucket(t, pass, d, k);
      WithKeyConcat(Bucket(t, pass, d), [x], k);
      assert [x][..0] == [];
      assert WithKey([x], k) == if x.key == k then [x] else [];
      assert Bucket(t, pass, d) + [] == Bucket(t, pass, d);
    }
  }

  lemma {:induction false} WithKeyBuckets(s: seq<SymFreq>, pass: nat, m: nat, k: nat)
    ensures WithKey(Buckets(s, pass, m), k) == if Digit(SymFreq(k, 0), pass) < m then WithKey(s, k) else []
  {
    hide Bucket, Buckets, WithKey, Digit;
    if m == 0 {
      NoBuckets(s, pass, k);
    } else {
      WithKeyBuckets(s, pass, m - 1, k);
      BucketsStep(s, pass, m);
      WithKeyConcat(Buckets(s, pass, m - 1), Bucket(s, pass, m - 1), k);
      WithKeyBucket(s, pass, m - 1, k);
    }
  }

  lemma NoBuckets(s: seq<SymFreq>, pass: nat, k: nat)
    ensures Buckets(s, pass, 0) == [] && WithKey([], k) == [] && Bucket([], pass, k) == []
  {
  }

  lemma BucketsStep(s: seq<SymFreq>, pass: nat, m: nat)
    requires m > 0
    ensures Buckets(s, pass, m) == Buckets(s, pass, m - 1) + Bucket(s, pass, m - 1)
  {
    hide Bucket;
  }

  lemma {:induction false} BucketsLength(s: seq<SymFreq>, pass: nat, m: nat)
    requires forall i :: 0 <= i < |s| ==> Digit(s[i], pass) < m
    ensures |Buckets(s, pass, m)| == |s|
  {
    if |s| == 0 {
      BucketsEmpty(pass, m);
    } else {
      BucketsLength(s[..|s| - 1], pass, m);
      BucketsGrow(s[..|s| - 1], s[|s| - 1], pass, m);
      assert s == s[..|s| - 1] + [s[|s| - 1]];
    }
  }

  lemma {:induction false} BucketsEmpty(pass: nat, m: nat)
    ensures Buckets([], pass, m) == []
  {
    if m > 0 {
      BucketsEmpty(pass, m - 1);
    }
  }

  lemma {:induction false} BucketsGrow(s: seq<SymFreq>, x: SymFreq, pass: nat, m: nat)
    ensures |Buckets(s + [x], pass, m)| == |Buckets(s, pass, m)| + (if Digit(x, pass) < m then 1 else 0)
  {
    if m > 0 {
      BucketsGrow(s, x, pass, m - 1);
      assert (s + [x])[..|s|] == s;
    }
  }

  /** Each pass is a stable rearrangement. */
  lemma PassStable(s: seq<SymFreq>, pass: nat)
    ensures StableRearrangement(s, Buckets(s, pass, 256))
  {
    BucketsLength(s, pass, 256);
    forall k: nat
      ensures WithKey(Buckets(s, pass, 256), k) == WithKey(s, k)
    {
      WithKeyBuckets(s, pass, 256, k);
    }
  }

  /** A bucket inherits the order of the sequence it is drawn from. */
  lemma {:induction false} BucketKeepsOrder(s: seq<SymFreq>, pass: nat, d: nat, q: nat)
    requires SortedByDigit(s, q)
    ensures SortedByDigit(Bucket(s, pass, d), q)
    ensures forall i :: 0 <= i < |Bucket(s, pass, d)| ==> Bucket(s, pass, d)[i] in s
  {
    if |s| > 0 {
      BucketKeepsOrder(s[..|s| - 1], pass, d, q);
    }
  }

  lemma {:induction false} SecondPassSorts(s: seq<SymFreq>, m: nat)
    requires Keys16(s) && SortedByDigit(s, 0)
    ensures SortedByKey(Buckets(s, 1, m))
  {
    hide Digit, Bucket, Buckets;
    if m == 0 {
      NoBuckets(s, 1, 0);
    } else {
      SecondPassSorts(s, m - 1);
      BucketsDigit(s, 1, m - 1);
      BucketDigit(s, 1, m - 1);
      BucketKeepsOrder(s, 1, m - 1, 0);
      BucketsStep(s, 1, m);
      var a, b := Buckets(s, 1, m - 1), Bucket(s, 1, m - 1);
      var c := a + b;
      forall i, j | 0 <= i < j < |c|
        ensures c[i].key <= c[j].key
      {
        KeyByDigits(c[i], c[j]);
      }
    }
  }

  lemma KeyByDigits(x: SymFreq, y: SymFreq)
    requires x.key < 65536 && y.key < 65536
    ensures x.key <= y.key <==>
      Digit(x, 1) < Digit(y, 1) || (Digit(x, 1) == Digit(y, 1) && Digit(x, 0) <= Digit(y, 0))
  {
    assert x.key == 256 * Digit(x, 1) + Digit(x, 0);
    assert y.key == 256 * Digit(y, 1) + Digit(y, 0);
  }

  // ---------- the passes on arrays ----------

  function Start(s: seq<SymFreq>, pass: nat, d: nat): nat {
    |Buckets(s, pass, d)|
  }

  lemma StartNext(s: seq<SymFreq>, pass: nat, d: nat)
    ensures Start(s, pass, d + 1) == Start(s, pass, d) + |Bucket(s, pass, d)|
  {
    hide Bucket;
  }

  lemma StartEnd(s: seq<SymFreq>, pass: nat)
    ensures Start(s, pass, 256) == |s|
  {
    hide Buckets;
    BucketsLength(s, pass, 256);
  }

  lemma {:induction false} StartMono(s: seq<SymFreq>, pass: nat, d: nat, e: nat)
    requires d <= e
    ensures Start(s, pass, d) <= Start(s, pass, e)
  {
    if d < e {
      StartMono(s, pass, d, e - 1);
    }
  }

  lemma {:induction false} BucketPrefix(s: seq<SymFreq>, i: nat, pass: nat, d: nat)
    requires i <= |s|
    ensures |Bucket(s[..i], pass, d)| <= |Bucket(s, pass, d)|
  {
    if i == |s| {
      assert s[..i] == s;
    } else {
      BucketPrefix(s[..|s| - 1], i, pass, d);
      assert s[..|s| - 1][..i] == s[..i];
    }
  }

  /** Bucket `d` of the part read so far has its elements in place. */
  ghost predicate Placed(out: seq<SymFreq>, s: seq<SymFreq>, i: nat, pass: nat, d: nat)
    requires i <= |s|
  {
    var b := Bucket(s[..i], pass, d);
    Start(s, pass, d) + |b| <= |out| && out[Start(s, pass, d)..Start(s, pass, d) + |b|] == b
  }

  /** The place for element `i` is inside the array and after its bucket's earlier elements. */
  lemma PlaceInRange(s: seq<SymFreq>, i: nat, pass: nat)
    requires i < |s|
    ensures var e := Digit(s[i], pass);
      && Bucket(s[..i + 1], pass, e) == Bucket(s[..i], pass, e) + [s[i]]
      && Start(s, pass, e) + |Bucket(s[..i], pass, e)| < Start(s, pass, e + 1) <= |s|
  {
    hide Buckets, Start;
    var e := Digit(s[i], pass);
    assert s[..i + 1][..i] == s[..i] && s[..i + 1][i] == s[i];
    BucketPrefix(s, i + 1, pass, e);
    StartNext(s, pass, e);
    StartMono(s, pass, e + 1, 256);
    StartEnd(s, pass);
  }

  /** Different buckets do not overlap. */
  lemma BucketsApart(s: seq<SymFreq>, i: nat, pass: nat, d: nat, e: nat)
    requires i <= |s| && d != e
    ensures Start(s, pass, e) >= Start(s, pass, d) + |Bucket(s[..i], pass, d)| || Start(s, pass, e + 1) <= Start(s,
      pass, d)
  {
    hide Bucket, Start;
    BucketPrefix(s, i, pass, d);
    StartNext(s, pass, d);
    if e < d {
      StartMono(s, pass, e + 1, d);
    } else {
      StartMono(s, pass, d + 1, e);
    }
  }

  /** Putting element `i` after the elements of its bucket leaves the other buckets alone. */
  lemma PlaceOne(out: seq<SymFreq>, s: seq<SymFreq>, i: nat, pass: nat, at: nat, d: nat)
    requires i < |s| <= |out|
    requires at == Start(s, pass, Digit(s[i], pass)) + |Bucket(s[..i], pass, Digit(s[i], pass))| < |s|
    requires Placed(out, s, i, pass, d)
    ensures Placed(out[at := s[i]], s, i + 1, pass, d)
  {
    hide Bucket, Start, Digit;
    var e := Digit(s[i], pass);
    PlaceInRange(s, i, pass);
    if d != e {
      assert s[..i + 1] == s[..i] + [s[i]];
      BucketSnoc(s[..i], s[i], pass, d);
      BucketsApart(s, i, pass, d, e);
      assert Bucket(s[..i + 1], pass, d) == Bucket(s[..i], pass, d) + [];
    }
  }

  lemma {:induction false} AllPlaced(out: seq<SymFreq>, s: seq<SymFreq>, pass: nat, m: nat)
    requires forall d :: 0 <= d < m ==> Placed(out, s, |s|, pass, d)
    ensures Start(s, pass, m) <= |out| && out[..Start(s, pass, m)] == Buckets(s, pass, m)
  {
    assert s[..|s|] == s;
    if m > 0 {
      AllPlaced(out, s, pass, m - 1);
      assert Placed(out, s, |s|, pass, m - 1);
    }
  }

  /** The histogram entry of digit `d`. */
  ghost predicate Histogram(hist: seq<nat>, s: seq<SymFreq>, pass: nat) {
    |hist| == 256 && forall d :: 0 <= d < 256 ==> hist[d] == |Bucket(s, pass, d)|
  }

  method Offsets(hist: seq<nat>, ghost s: seq<SymFreq>, ghost pass: nat) returns (offsets: array<nat>)
    requires Histogram(hist, s, pass)
    ensures fresh(offsets) && offsets.Length == 256
    ensures forall d :: 0 <= d < 256 ==> offsets[d] == Start(s, pass, d)
  {
    offsets := new nat[256];
    var curOfs, i := 0, 0;
    while i < 256
      invariant 0 <= i <= 256 && curOfs == Start(s, pass, i)
      invariant forall d :: 0 <= d < i ==> offsets[d] == Start(s, pass, d)
    {
      offsets[i] := curOfs;
      curOfs := curOfs + hist[i];
      i := i + 1;
    }
  }

  method Pass(cur: array<SymFreq>, new_: array<SymFreq>, numSyms: nat, hist: seq<nat>, pass: nat)
    requires cur != new_ && numSyms <= cur.Length && numSyms <= new_.Length
    requires Histogram(hist, cur[..numSyms], pass)
    modifies new_
    ensures new_[..numSyms] == Buckets(cur[..numSyms], pass, 256)
  {
    hide Histogram, Buckets, Digit;
    ghost var s := cur[..numSyms];
    var offsets := Offsets(hist, s, pass);
    NonePlaced(new_[..], s, pass);
    var i := 0;
    while i < numSyms
      invariant 0 <= i <= numSyms && cur[..numSyms] == s
      invariant forall d :: 0 <= d < 256 ==> offsets[d] == Start(s, pass, d) + |Bucket(s[..i], pass, d)|
      invariant AllBucketsPlaced(new_[..], s, i, pass)
    {
      ghost var out := new_[..];
      var e := Digit(cur[i], pass);
      PlaceNext(out, s, i, pass, offsets[e]);
      new_[offsets[e]] := cur[i];
      assert new_[..] == out[offsets[e] := s[i]];
      offsets[e] := offsets[e] + 1;
      i := i + 1;
    }
    assert s[..numSyms] == s;
    BucketsLength(s, pass, 256);
    AllPlaced(new_[..], s, pass, 256);
  }

  ghost predicate AllBucketsPlaced(out: seq<SymFreq>, s: seq<SymFreq>, i: nat, pass: nat)
    requires i <= |s|
  {
    forall d :: 0 <= d < 256 ==> Placed(out, s, i, pass, d)
  }

  lemma NonePlaced(out: seq<SymFreq>, s: seq<SymFreq>, pass: nat)
    requires |s| <= |out|
    ensures AllBucketsPlaced(out, s, 0, pass)
    ensures forall d :: 0 <= d < 256 ==> Bucket(s[..0], pass, d) == []
  {
    BucketsLength(s, pass, 256);
    forall d | 0 <= d < 256
      ensures Placed(out, s, 0, pass, d)
    {
      StartMono(s, pass, d, 256);
    }
  }

  lemma PlaceNext(out: seq<SymFreq>, s: seq<SymFreq>, i: nat, pass: nat, at: nat)
    requires i < |s| <= |out| && AllBucketsPlaced(out, s, i, pass)
    requires at == Start(s, pass, Digit(s[i], pass)) + |Bucket(s[..i], pass, Digit(s[i], pass))|
    ensures at < |s|
    ensures AllBucketsPlaced(out[at := s[i]], s, i + 1, pass)
    ensures forall d :: 0 <= d < 256 ==>
      |Bucket(s[..i + 1], pass, d)| == |Bucket(s[..i], pass, d)| + (if d == Digit(s[i], pass) then 1 else 0)
  {
    hide Buckets;
    PlaceInRange(s, i, pass);
    var out', n := out[at := s[i]], i + 1;
    forall d | 0 <= d < 256
      ensures Placed(out', s, n, pass, d)
    {
      PlaceOne(out, s, i, pass, at, d);
    }
    assert s[..i + 1][..i] == s[..i];
  }

  /** Both histograms in one pass over the keys. */
  method Histograms(syms: array<SymFreq>, numSyms: nat) returns (lo: seq<nat>, hi: seq<nat>)
    requires numSyms <= syms.Length
    ensures Histogram(lo, syms[..numSyms], 0) && Histogram(hi, syms[..numSyms], 1)
  {
    lo, hi := seq(256, _ => 0), seq(256, _ => 0);
    var i := 0;
    while i < numSyms
      invariant 0 <= i <= numSyms
      invariant Histogram(lo, syms[..i], 0) && Histogram(hi, syms[..i], 1)
    {
      assert syms[..i + 1][..i] == syms[..i];
      var a, b := Digit(syms[i], 0), Digit(syms[i], 1);
      lo := lo[a := lo[a] + 1];
      hi := hi[b := hi[b] + 1];
      i := i + 1;
    }
  }

  lemma {:induction false} FullBucket(s: seq<SymFreq>, pass: nat, d: nat)
    requires |Bucket(s, pass, d)| == |s|
    ensures forall i :: 0 <= i < |s| ==> Digit(s[i], pass) == d
  {
    if |s| > 0 {
      FullBucket(s[..|s| - 1], pass, d);
    }
  }

  lemma {:induction false} CountsUnchanged(s: seq<SymFreq>, pass: nat, d: nat)
    ensures |Bucket(Buckets(s, 0, 256), pass, d)| == |Bucket(s, pass, d)|
  {
    CountsInBuckets(s, 0, pass, d, 256);
    BucketsLength(Bucket(s, pass, d), 0, 256);
  }

  lemma {:induction false} BucketConcat(a: seq<SymFreq>, b: seq<SymFreq>, pass: nat, d: nat)
    ensures Bucket(a + b, pass, d) == Bucket(a, pass, d) + Bucket(b, pass, d)
  {
    if |b| == 0 {
      assert a + b == a;
    } else {
      assert (a + b)[..|a + b| - 1] == a + b[..|b| - 1];
      BucketConcat(a, b[..|b| - 1], pass, d);
    }
  }

  lemma BucketSnoc(t: seq<SymFreq>, x: SymFreq, pass: nat, d: nat)
    ensures Bucket(t + [x], pass, d) == Bucket(t, pass, d) + (if Digit(x, pass) == d then [x] else [])
  {
    assert (t + [x])[..|t|] == t;
  }

  lemma {:induction false} BucketSwap(s: seq<SymFreq>, p: nat, d: nat, q: nat, e: nat)
    ensures Bucket(Bucket(s, p, d), q, e) == Bucket(Bucket(s, q, e), p, d)
  {
    hide Bucket, Digit;
    if |s| == 0 {
      NoBuckets(s, p, d);
      NoBuckets(s, q, d);
      NoBuckets(s, p, e);
      NoBuckets(s, q, e);
    } else {
      var t, x := s[..|s| - 1], s[|s| - 1];
      assert s == t + [x];
      BucketSwap(t, p, d, q, e);
      BucketSnoc(t, x, p, d);
      BucketSnoc(t, x, q, e);
      BucketSnoc(Bucket(t, p, d), x, q, e);
      BucketSnoc(Bucket(t, q, e), x, p, d);
      assert Bucket(t, p, d) + [] == Bucket(t, p, d);
      assert Bucket(t, q, e) + [] == Bucket(t, q, e);
      var b := Bucket(Bucket(t, p, d), q, e);
      assert b + [] == b;
    }
  }

  /** Taking one bucket and sorting into buckets commute. */
  lemma {:induction false} CountsInBuckets(s: seq<SymFreq>, p: nat, pass: nat, d: nat, m: nat)
    ensures Bucket(Buckets(s, p, m), pass, d) == Buckets(Bucket(s, pass, d), p, m)
  {
    hide Bucket, Buckets;
    if m == 0 {
      NoBuckets(s, p, d);
      NoBuckets(Bucket(s, pass, d), pass, d);
      NoBuckets(Bucket(s, pass, d), p, d);
    } else {
      CountsInBuckets(s, p, pass, d, m - 1);
      CountsInBucketsStep(s, p, pass, d, m);
    }
  }

  lemma CountsInBucketsStep(s: seq<SymFreq>, p: nat, pass: nat, d: nat, m: nat)
    requires m > 0
    requires Bucket(Buckets(s, p, m - 1), pass, d) == Buckets(Bucket(s, pass, d), p, m - 1)
    ensures Bucket(Buckets(s, p, m), pass, d) == Buckets(Bucket(s, pass, d), p, m)
  {
    hide Bucket, Buckets;
    BucketsStep(s, p, m);
    BucketsStep(Bucket(s, pass, d), p, m);
    BucketConcat(Buckets(s, p, m - 1), Bucket(s, p, m - 1), pass, d);
    BucketSwap(s, p, m - 1, pass, d);
  }

  /** `tdefl_radix_sort_syms`: the sorted symbols end up in the first or in the second array. */
  method RadixSortSyms(numSyms: nat, syms0: array<SymFreq>, syms1: array<SymFreq>) returns (curSyms: array<SymFreq>)
    requires syms0 != syms1 && numSyms <= syms0.Length && numSyms <= syms1.Length
    requires Keys16(syms0[..numSyms])
    modifies syms0, syms1
    ensures curSyms == syms0 || curSyms == syms1
    ensures SortedByKey(curSyms[..numSyms])
    ensures StableRearrangement(old(syms0[..numSyms]), curSyms[..numSyms])
  {
    ghost var s := syms0[..numSyms];
    ghost var r := Buckets(s, 0, 256);
    var lo, hi := Histograms(syms0, numSyms);
    var totalPasses := 2;
    if numSyms == hi[0] {
      totalPasses := 1;
    }
    curSyms := syms0;
    var newSyms := syms1;
    var pass := 0;
    while pass < totalPasses
      invariant 0 <= pass <= totalPasses
      invariant (curSyms == syms0 && newSyms == syms1) || (curSyms == syms1 && newSyms == syms0)
      invariant pass == 0 ==> curSyms[..numSyms] == s
      invariant pass == 1 ==> curSyms[..numSyms] == r
      invariant pass == 2 ==> curSyms[..numSyms] == Buckets(r, 1, 256)
    {
      forall d | 0 <= d < 256
        ensures |Bucket(r, 1, d)| == |Bucket(s, 1, d)|
      {
        CountsUnchanged(s, 1, d);
      }
      Pass(curSyms, newSyms, numSyms, if pass == 0 then lo else hi, pass);
      curSyms, newSyms := newSyms, curSyms;
      pass := pass + 1;
    }
    PassStable(s, 0);
    BucketsDigit(s, 0, 256);
    if totalPasses == 1 {
      FullBucket(s, 1, 0);
      OnePassSorts(s, r);
    } else {
      PassStable(r, 1);
      SecondPassSorts(r, 256);
    }
  }

  /** When no key has a high byte, the second pass would change nothing that matters. */
  lemma OnePassSorts(s: seq<SymFreq>, r: seq<SymFreq>)
    requires Keys16(s) && SortedByDigit(r, 0)
    requires forall i :: 0 <= i < |s| ==> Digit(s[i], 1) == 0
    requires forall i :: 0 <= i < |r| ==> r[i] in s
    ensures SortedByKey(r)
  {
    forall i, j | 0 <= i < j < |r|
      ensures r[i].key <= r[j].key
    {
      KeyByDigits(r[i], r[j]);
    }
  }
}
