/** `tdefl_huffman_enforce_max_code_size` (src/external/miniz.h:2718-2739): no code gets longer than the limit, the
    code stays complete, and the bits this costs are bounded. */
module LengthLimit {
  import opened Bits
  import opened Canonical
  import opened Histograms
  import opened MergeQueues
  import opened MinRedundancy
  import opened OptimalCode
  import DecodeTable

  /** The state of the limiting loop: at most `2^max` is covered without the codes of length `max`,
      at least `2^max` with them. */
  ghost predicate Limiting(num: seq<int>, codes: nat, max: nat) {
    && |num| == MAX_SUPPORTED + 1 && 1 <= max <= MAX_BITS
    && NonNegative(num)
    && CodesIn(num, 0, max) == codes && 0 <= codes <= Pow2(max)
    && 2 * Cov(num, max - 1) <= Pow2(max) <= Cov(num, max)
  }

  /** Counting all longer codes as codes of length `max` covers at least everything. */
  lemma RaisedCovers(num: seq<int>, max: nat)
    requires |num| == MAX_SUPPORTED + 1 && 1 <= max <= MAX_BITS && NonNegative(num)
    requires Cov(num, MAX_SUPPORTED) == Pow2(MAX_SUPPORTED)
    ensures Cov(num, max) + CodesIn(num, max, MAX_SUPPORTED) >= Pow2(max)
  {
    hide Pow2, Cov, CodesIn;
    var rest := MAX_SUPPORTED - max;
    CovRaised(num, max, MAX_SUPPORTED);
    Pow2Add(max, rest);
    CovNonNegative(num, max);
    CodesNonNegative(num, max, MAX_SUPPORTED);
    CancelFactor(Pow2(rest), Pow2(max), Cov(num, max) + CodesIn(num, max, MAX_SUPPORTED));
  }

  lemma CancelFactor(p: nat, x: nat, y: nat)
    requires p > 0 && x * p <= p * y
    ensures x <= y
  {
    if y < x {
      MulGap(y, x, p);
    }
  }

  /** After the first loop of the limiter. */
  lemma CovBelow(num: seq<int>, max: nat)
    requires |num| == MAX_SUPPORTED + 1 && 1 <= max <= MAX_BITS && NonNegative(num)
    requires Cov(num, MAX_SUPPORTED) == Pow2(MAX_SUPPORTED)
    ensures 2 * Cov(num, max - 1) <= Pow2(max)
  {
    hide Cov;
    CovBound(num, max - 1, MAX_SUPPORTED);
  }

  lemma Clamped(num: seq<int>, codes: nat, max: nat)
    requires |num| == MAX_SUPPORTED + 1 && 1 <= max <= MAX_BITS && NonNegative(num)
    requires CodesIn(num, 0, MAX_SUPPORTED) == codes <= Pow2(max)
    requires Cov(num, MAX_SUPPORTED) == Pow2(MAX_SUPPORTED)
    ensures Limiting(num[max := num[max] + CodesIn(num, max, MAX_SUPPORTED)], codes, max)
  {
    hide Pow2, Cov, CodesIn;
    var extra := CodesIn(num, max, MAX_SUPPORTED);
    var num' := num[max := num[max] + extra];
    RaisedCovers(num, max);
    CovBelow(num, max);
    CodesNonNegative(num, max, MAX_SUPPORTED);
    CodesSplit(num, max, MAX_SUPPORTED);
    UpdateTop(num, max, extra);
    assert NonNegative(num');
  }

  lemma UpdateTop(num: seq<int>, max: nat, delta: int)
    requires 1 <= max < |num|
    ensures var num' := num[max := num[max] + delta];
      && Cov(num', max) == Cov(num, max) + delta && Cov(num', max - 1) == Cov(num, max - 1)
      && CodesIn(num', 0, max) == CodesIn(num, 0, max) + delta
  {
    CovUpdate(num, max, num[max] + delta, max - 1);
    CodesUpdate(num, max, num[max] + delta, 0, max - 1);
  }

  /** While too much is covered there is a code to lengthen, and one of length `max` to take away. */
  lemma CanLengthen(num: seq<int>, codes: nat, max: nat)
    requires Limiting(num, codes, max) && Cov(num, max) > Pow2(max)
    ensures num[max] > 0
    ensures exists i :: 1 <= i < max && num[i] > 0
  {
    if forall i :: 1 <= i <= max - 1 ==> num[i] == 0 {
      NoneShorter(num, max - 1);
    }
  }

  function Lengthened(num: seq<int>, i: nat, max: nat): seq<int>
    requires 1 <= i < max < |num|
  {
    var a := num[max := num[max] - 1];
    var b := a[i := a[i] - 1];
    b[i + 1 := b[i + 1] + 2]
  }

  /** Replacing one code of length `i` by two of length `i + 1` covers the same strings. */
  lemma SplitCode(num: seq<int>, i: nat, len: nat, max: nat)
    requires 1 <= i <= len <= max && i < max < |num|
    ensures var a := num[i := num[i] - 1];
      var b := a[i + 1 := a[i + 1] + 2];
      && Cov(b, len) == Cov(num, len) - (if i == len then 1 else 0)
      && CodesIn(b, 0, max) == CodesIn(num, 0, max) + 1
  {
    var a := num[i := num[i] - 1];
    CovUpdate(num, i, num[i] - 1, len);
    CovUpdate(a, i + 1, a[i + 1] + 2, len);
    CodesUpdate(num, i, num[i] - 1, 0, max);
    CodesUpdate(a, i + 1, a[i + 1] + 2, 0, max);
    if i < len {
      assert Pow2(len - i) == 2 * Pow2(len - (i + 1));
    } else {
      assert Pow2(0) == 1;
    }
  }

  /** One code of length `i` becomes two of length `i + 1`, one of length `max` goes: the covered part shrinks by
      one. */
  lemma LengthenStep(num: seq<int>, codes: nat, max: nat, i: nat)
    requires Limiting(num, codes, max) && Cov(num, max) > Pow2(max)
    requires 1 <= i < max && num[i] > 0
    ensures Cov(Lengthened(num, i, max), max) == Cov(num, max) - 1
    ensures Limiting(Lengthened(num, i, max), codes, max)
  {
    CanLengthen(num, codes, max);
    hide Pow2, Cov, CodesIn;
    UpdateTop(num, max, -1);
    var a := num[max := num[max] - 1];
    SplitCode(a, i, max, max);
    SplitCode(a, i, max - 1, max);
  }

  // ---------- which symbols get longer codes ----------

  /** How many of the symbols from `p` on have codes of length `l`. */
  function CountFrom(lens: seq<nat>, p: nat, l: nat): nat
    requires p <= |lens|
  {
    CountTo(lens[p..], |lens| - p, l)
  }

  /** Codes of length `l` other than those. */
  function Extra(lens: seq<nat>, num: seq<int>, p: nat, l: nat): int
    requires p <= |lens| && l < |num|
  {
    num[l] - CountFrom(lens, p, l)
  }

  /** The histogram after some rounds: the symbols from `p` on have their first lengths still; those before have
      lengths up to the limit, and the last of them was taken only when the others were not enough. */
  ghost predicate Reached(lens: seq<nat>, num: seq<int>, p: nat, max: nat) {
    && NonIncreasing(lens) && p <= |lens| && max < |num|
    && (forall j :: p <= j < |lens| ==> 1 <= lens[j] < max)
    && (forall l :: 1 <= l <= max ==> Extra(lens, num, p, l) >= 0)
    && (forall l :: 1 <= l < max && Extra(lens, num, p, l) > 0 ==> p > 0 && lens[p - 1] < l)
    && (p > 0 && lens[p - 1] < max ==> TakenLate(lens, p, max))
  }

  /** With all symbols before `p - 1` at the limit and the others as they were, too much was covered. */
  ghost predicate TakenLate(lens: seq<nat>, p: nat, max: nat)
    requires 0 < p <= |lens|
  {
    UpTo(lens[p - 1..], max) && p - 1 + Kraft(lens[p - 1..], max) > Pow2(max)
  }

  lemma {:induction false} SuffixCount(lens: seq<nat>, p: nat, n: nat, l: nat)
    requires p <= n <= |lens|
    ensures CountTo(lens, n, l) == CountTo(lens, p, l) + CountTo(lens[p..], n - p, l)
    decreases n
  {
    if p < n {
      SuffixCount(lens, p, n - 1, l);
    }
  }

  lemma CountFromNext(lens: seq<nat>, p: nat, l: nat)
    requires p < |lens|
    ensures CountFrom(lens, p, l) == CountFrom(lens, p + 1, l) + (if lens[p] == l then 1 else 0)
  {
    hide CountTo;
    SuffixCount(lens, p, |lens|, l);
    SuffixCount(lens, p + 1, |lens|, l);
    CountStep(lens, p, l);
  }

  lemma CountStep(lens: seq<nat>, p: nat, l: nat)
    requires p < |lens|
    ensures CountTo(lens, p + 1, l) == CountTo(lens, p, l) + (if lens[p] == l then 1 else 0)
  {
  }

  lemma {:induction false} CountAbsent(lens: seq<nat>, n: nat, l: nat)
    requires n <= |lens| && forall j :: 0 <= j < n ==> lens[j] != l
    ensures CountTo(lens, n, l) == 0
  {
    if n > 0 {
      CountAbsent(lens, n - 1, l);
    }
  }

  /** The first symbol whose code is shorter than the limit. */
  lemma {:induction false} FirstShorter(lens: seq<nat>, max: nat, n: nat) returns (p: nat)
    requires NonIncreasing(lens) && n <= |lens|
    ensures p <= n && (forall j :: 0 <= j < p ==> lens[j] >= max) && forall j :: p <= j < n ==> lens[j] < max
  {
    if n == 0 {
      p := 0;
    } else {
      p := FirstShorter(lens, max, n - 1);
      if lens[n - 1] >= max {
        p := n;
      }
    }
  }

  lemma ReachedStart(lens: seq<nat>, num: seq<int>, codes: nat, max: nat) returns (p: nat)
    requires IsHistogram(num, lens, |lens|) && NonIncreasing(lens) && 1 <= max <= MAX_BITS
    requires forall j :: 0 <= j < |lens| ==> 1 <= lens[j] <= MAX_SUPPORTED
    requires NonNegative(num)
    ensures Reached(lens, num[max := num[max] + CodesIn(num, max, MAX_SUPPORTED)], p, max)
  {
    hide CountTo, CodesIn, Pow2, Kraft;
    p := FirstShorter(lens, max, |lens|);
    var num' := num[max := num[max] + CodesIn(num, max, MAX_SUPPORTED)];
    CodesNonNegative(num, max, MAX_SUPPORTED);
    forall l | 1 <= l < max
      ensures Extra(lens, num', p, l) == 0
    {
      SuffixCount(lens, p, |lens|, l);
      CountAbsent(lens, p, l);
    }
    CountAbsent(lens[p..], |lens| - p, max);
  }

  /** When nothing is left between, the others are all at the limit. */
  lemma OthersAtLimit(lens: seq<nat>, num: seq<int>, p: nat, max: nat)
    requires Limiting(num, |lens|, max) && Reached(lens, num, p, max) && Cov(num, max) > Pow2(max)
    requires forall l :: 1 <= l < max ==> Extra(lens, num, p, l) == 0
    ensures UpTo(lens[p..], max) && p + Kraft(lens[p..], max) > Pow2(max)
  {
    hide CountTo, Pow2, Kraft, Cov, CodesIn, DecodeTable.UsedTo, CoveredTo;
    var t := lens[p..];
    forall l | 1 <= l < max
      ensures num[l] == CountTo(t, |t|, l)
    {
      assert Extra(lens, num, p, l) == 0;
    }
    SameBelow(num, t, max);
    AllCounted(t, |t|, max - 1);
    CodesTop(num, max);
    CovTop(num, t, max);
    CountAbsent(t, |t|, max);
    CoveredToNone(t, max);
    KraftFrom(t, 0, max);
    assert t[0..] == t;
  }

  lemma CodesTop(num: seq<int>, max: nat)
    requires 0 < max < |num|
    ensures CodesIn(num, 0, max) == CodesIn(num, 0, max - 1) + num[max]
  {
  }

  lemma CovTop(num: seq<int>, t: seq<nat>, max: nat)
    requires 0 < max < |num|
    ensures Cov(num, max) == 2 * Cov(num, max - 1) + num[max]
    ensures CoveredTo(t, |t|, max) == 2 * CoveredTo(t, |t|, max - 1) + CountTo(t, |t|, max)
  {
  }

  lemma SameBelow(num: seq<int>, t: seq<nat>, max: nat)
    requires 0 < max < |num| && forall l :: 1 <= l < max ==> num[l] == CountTo(t, |t|, l)
    ensures Cov(num, max - 1) == CoveredTo(t, |t|, max - 1)
    ensures CodesIn(num, 0, max - 1) == DecodeTable.UsedTo(t, |t|, max - 1)
  {
    SameBelowTo(num, t, max, max - 1);
  }

  lemma {:induction false} SameBelowTo(num: seq<int>, t: seq<nat>, max: nat, m: nat)
    requires m < max < |num| && forall l :: 1 <= l < max ==> num[l] == CountTo(t, |t|, l)
    ensures Cov(num, m) == CoveredTo(t, |t|, m)
    ensures CodesIn(num, 0, m) == DecodeTable.UsedTo(t, |t|, m)
  {
    hide CountTo;
    if m > 0 {
      SameBelowTo(num, t, max, m - 1);
    }
  }

  lemma {:induction false} CountedSomewhere(lens: seq<nat>, n: nat, l: nat) returns (j: nat)
    requires n <= |lens| && CountTo(lens, n, l) > 0
    ensures j < n && lens[j] == l
  {
    if lens[n - 1] == l {
      j := n - 1;
    } else {
      j := CountedSomewhere(lens, n - 1, l);
    }
  }

  /** A symbol that had not been touched yet is touched only when no other code is left between. */
  lemma FirstUntouched(lens: seq<nat>, num: seq<int>, p: nat, max: nat, i: nat)
    requires Reached(lens, num, p, max) && LongestBelow(num, i, max) && Extra(lens, num, p, i) == 0
    ensures p < |lens| && lens[p] == i
    ensures forall l :: 1 <= l < max ==> Extra(lens, num, p, l) == 0
  {
    hide CountTo;
    var t := lens[p..];
    var j := CountedSomewhere(t, |t|, i);
    assert lens[p] >= t[j] == i;
    if lens[p] > i {
      assert Extra(lens, num, p, lens[p]) >= 0;
      CountFromNext(lens, p, lens[p]);
    }
    forall l | 1 <= l < max
      ensures Extra(lens, num, p, l) == 0
    {
      assert Extra(lens, num, p, l) >= 0;
      assert p > 0 ==> lens[p - 1] >= lens[p];
    }
  }

  /** One round of the limiting loop. */
  lemma ReachedStep(lens: seq<nat>, num: seq<int>, p: nat, max: nat, i: nat) returns (p': nat)
    requires Limiting(num, |lens|, max) && Reached(lens, num, p, max) && LongestBelow(num, i, max)
    requires Cov(num, max) > Pow2(max)
    ensures Reached(lens, Lengthened(num, i, max), p', max)
  {
    hide CountTo, Pow2, Kraft, Cov, CodesIn;
    CanLengthen(num, |lens|, max);
    var num' := Lengthened(num, i, max);
    CountAbsent(lens[p..], |lens| - p, max);
    if Extra(lens, num, p, i) > 0 {
      p' := p;
      ReachedKept(lens, num, p, max, i);
    } else {
      p' := p + 1;
      assert Extra(lens, num, p, i) >= 0;
      FirstUntouched(lens, num, p, max, i);
      OthersAtLimit(lens, num, p, max);
      ReachedNext(lens, num, p, max, i);
    }
  }

  lemma ReachedKept(lens: seq<nat>, num: seq<int>, p: nat, max: nat, i: nat)
    requires Reached(lens, num, p, max) && LongestBelow(num, i, max) && num[max] > 0
    requires Extra(lens, num, p, i) > 0 && CountFrom(lens, p, max) == 0
    ensures Reached(lens, Lengthened(num, i, max), p, max)
  {
    hide CountFrom, TakenLate;
    var num' := Lengthened(num, i, max);
    forall l | 1 <= l <= max
      ensures Extra(lens, num', p, l) >= 0
      ensures l < max && Extra(lens, num', p, l) > 0 ==> p > 0 && lens[p - 1] < l
    {
      assert Extra(lens, num, p, l) >= 0;
    }
  }

  lemma ReachedNext(lens: seq<nat>, num: seq<int>, p: nat, max: nat, i: nat)
    requires Reached(lens, num, p, max) && LongestBelow(num, i, max) && num[max] > 0 && p < |lens| && lens[p] == i
    requires (forall l :: 1 <= l < max ==> Extra(lens, num, p, l) == 0) && CountFrom(lens, p, max) == 0
    requires TakenLate(lens, p + 1, max)
    ensures Reached(lens, Lengthened(num, i, max), p + 1, max)
  {
    hide CountFrom, TakenLate;
    var num', q := Lengthened(num, i, max), p + 1;
    forall l | 1 <= l <= max
      ensures Extra(lens, num', q, l) >= 0
      ensures l < max && Extra(lens, num', q, l) > 0 ==> lens[p] < l
    {
      CountFromNext(lens, p, l);
      if l < max {
        assert Extra(lens, num, p, l) == 0;
      }
    }
  }

  /** `tdefl_huffman_enforce_max_code_size` */
  method EnforceMaxCodeSize(numCodes: array<int>, codeListLen: nat, max: nat, ghost lens: seq<nat>)
    returns (ghost touched: nat)
    requires numCodes.Length == MAX_SUPPORTED + 1 && 1 <= max <= MAX_BITS
    requires NonNegative(numCodes[..]) && CodesIn(numCodes[..], 0, MAX_SUPPORTED) == codeListLen <= Pow2(max)
    requires codeListLen > 1 ==> Cov(numCodes[..], MAX_SUPPORTED) == Pow2(MAX_SUPPORTED)
    requires IsHistogram(numCodes[..], lens, |lens|) && NonIncreasing(lens) && |lens| == codeListLen
    requires forall j :: 0 <= j < |lens| ==> 1 <= lens[j] <= MAX_SUPPORTED
    modifies numCodes
    ensures NonNegative(numCodes[..])
    ensures codeListLen <= 1 ==> numCodes[..] == old(numCodes[..])
    ensures codeListLen > 1 ==> Cov(numCodes[..], max) == Pow2(max) && CodesIn(numCodes[..], 0, max) == codeListLen
    ensures CodesIn(old(numCodes[..]), max, MAX_SUPPORTED) == 0 ==> numCodes[..] == old(numCodes[..])
    ensures codeListLen > 1 ==> Reached(lens, numCodes[..], touched, max)
  {
    hide Pow2, Cov, Limiting, CodesIn, NonNegative, Reached, LongestBelow, Lengthened;
    if codeListLen <= 1 {
      return 0;
    }
    ghost var was := numCodes[..];
    Clamped(was, codeListLen, max);
    ClampedExact(was, codeListLen, max);
    ClampCounts(numCodes, max);
    touched := ReachedStart(lens, was, codeListLen, max);
    var total := TotalCovered(numCodes, max);
    LimitingFacts(numCodes[..], codeListLen, max);
    var full := Pow2(max);
    while total != full
      invariant Limiting(numCodes[..], codeListLen, max) && Reached(lens, numCodes[..], touched, max)
      invariant total == Cov(numCodes[..], max) >= full
      invariant CodesIn(was, max, MAX_SUPPORTED) == 0 ==> numCodes[..] == was && total == full
      decreases total
    {
      ghost var before := numCodes[..];
      ghost var moved := Lengthen(numCodes, codeListLen, max);
      touched := ReachedStep(lens, before, touched, max, moved);
      LimitingFacts(numCodes[..], codeListLen, max);
      total := total - 1;
    }
    LimitingFacts(numCodes[..], codeListLen, max);
  }

  method ClampCounts(numCodes: array<int>, max: nat)
    requires numCodes.Length == MAX_SUPPORTED + 1 && 1 <= max <= MAX_BITS
    modifies numCodes
    ensures numCodes[..]
         == old(numCodes[..])[max := old(numCodes[max]) + CodesIn(old(numCodes[..]), max, MAX_SUPPORTED)]
  {
    ghost var was := numCodes[..];
    var i := max + 1;
    while i <= MAX_SUPPORTED
      invariant max + 1 <= i <= MAX_SUPPORTED + 1
      invariant numCodes[..] == was[max := was[max] + CodesIn(was, max, i - 1)]
    {
      numCodes[max] := numCodes[max] + numCodes[i];
      i := i + 1;
    }
  }

  lemma LimitingFacts(num: seq<int>, codes: nat, max: nat)
    requires Limiting(num, codes, max)
    ensures NonNegative(num) && CodesIn(num, 0, max) == codes && Cov(num, max) >= Pow2(max)
  {
  }

  /** With no longer codes there was nothing to do. */
  lemma ClampedExact(num: seq<int>, codes: nat, max: nat)
    requires |num| == MAX_SUPPORTED + 1 && 1 <= max <= MAX_BITS && NonNegative(num)
    requires Cov(num, MAX_SUPPORTED) == Pow2(MAX_SUPPORTED)
    ensures CodesIn(num, max, MAX_SUPPORTED) == 0 ==>
      num[max := num[max] + CodesIn(num, max, MAX_SUPPORTED)] == num && Cov(num, max) <= Pow2(max)
  {
    CovBound(num, max, MAX_SUPPORTED);
    assert CodesIn(num, max, MAX_SUPPORTED) == 0 ==> num[max := num[max] + 0] == num;
  }

  method TotalCovered(numCodes: array<int>, max: nat) returns (total: int)
    requires 1 <= max < numCodes.Length
    ensures total == Cov(numCodes[..], max)
  {
    total := 0;
    var i := max;
    assert Pow2(0) == 1;
    while i > 0
      invariant 0 <= i <= max
      invariant Cov(numCodes[..], max) == total + Cov(numCodes[..], i) * Pow2(max - i)
    {
      ghost var c := Cov(numCodes[..], i - 1);
      Regroup(c, numCodes[i], Pow2(max - i));
      assert Pow2(max - (i - 1)) == 2 * Pow2(max - i);
      total := total + numCodes[i] * Pow2(max - i);
      i := i - 1;
    }
  }

  lemma Regroup(c: int, n: int, p: int)
    ensures (2 * c + n) * p == n * p + c * (2 * p)
  {
  }

  /** Codes of length `i` are the longest below the limit. */
  ghost predicate LongestBelow(num: seq<int>, i: nat, max: nat) {
    1 <= i < max < |num| && num[i] > 0 && forall k :: i < k < max ==> num[k] == 0
  }

  /** The body of the limiting loop. */
  method Lengthen(numCodes: array<int>, ghost codes: nat, max: nat) returns (ghost moved: nat)
    requires Limiting(numCodes[..], codes, max) && Cov(numCodes[..], max) > Pow2(max)
    modifies numCodes
    ensures Limiting(numCodes[..], codes, max)
    ensures Cov(numCodes[..], max) == old(Cov(numCodes[..], max)) - 1
    ensures LongestBelow(old(numCodes[..]), moved, max) && numCodes[..] == Lengthened(old(numCodes[..]), moved, max)
  {
    hide Pow2, Cov, CodesIn;
    ghost var was := numCodes[..];
    CanLengthen(was, codes, max);
    numCodes[max] := numCodes[max] - 1;
    var i := max - 1;
    while i > 0
      invariant 0 <= i < max && numCodes[..] == was[max := was[max] - 1]
      invariant forall k :: i < k < max ==> was[k] == 0
      invariant exists j :: 1 <= j <= i && was[j] > 0
      decreases i
    {
      if numCodes[i] != 0 {
        LengthenStep(was, codes, max, i);
        numCodes[i] := numCodes[i] - 1;
        numCodes[i + 1] := numCodes[i + 1] + 2;
        assert numCodes[..] == Lengthened(was, i, max);
        return i;
      }
      i := i - 1;
    }
  }
}
