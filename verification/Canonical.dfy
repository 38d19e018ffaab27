/** Canonical Huffman codes (RFC 1951, section 3.2.2): the code words that a vector of code lengths
    stands for, and why no word is a prefix of another.  Compressor and decompressor never exchange
    code words, only lengths, so both sides are specified by `CodeWord`. */
module Canonical {
  import opened Bits

  const MAX_BITS: nat := 15

  /** How many of the symbols below `n` have code length `len`. */
  function CountTo(sizes: seq<nat>, n: nat, len: nat): (c: nat)
    requires n <= |sizes|
    ensures c <= n
  {
    if n == 0 then 0 else CountTo(sizes, n - 1, len) + (if sizes[n - 1] == len then 1 else 0)
  }

  function Count(sizes: seq<nat>, len: nat): (c: nat)
    ensures c <= |sizes|
  {
    CountTo(sizes, |sizes|, len)
  }

  /** The number of `len`-bit strings that begin with a code word of at most `len` bits. */
  function Covered(sizes: seq<nat>, len: nat): nat {
    if len == 0 then 0 else 2 * Covered(sizes, len - 1) + Count(sizes, len)
  }

  /** The first code of each length. */
  function First(sizes: seq<nat>, len: nat): nat
    requires len > 0
  {
    2 * Covered(sizes, len - 1)
  }

  /** No length is oversubscribed (the Kraft inequality), and every length is within DEFLATE's bound. */
  predicate Valid(sizes: seq<nat>) {
    && (forall i :: 0 <= i < |sizes| ==> sizes[i] <= MAX_BITS)
    && Covered(sizes, MAX_BITS) <= Pow2(MAX_BITS)
  }

  /** The code words use up the code space exactly (the Kraft equality). */
  predicate Complete(sizes: seq<nat>) {
    && (forall i :: 0 <= i < |sizes| ==> sizes[i] <= MAX_BITS)
    && Covered(sizes, MAX_BITS) == Pow2(MAX_BITS)
  }

  predicate Uses(sizes: seq<nat>, sym: int) {
    0 <= sym < |sizes| && sizes[sym] > 0
  }

  function Code(sizes: seq<nat>, sym: nat): nat
    requires Uses(sizes, sym)
  {
    First(sizes, sizes[sym]) + CountTo(sizes, sym, sizes[sym])
  }

  function CodeWord(sizes: seq<nat>, sym: nat): (w: bits)
    requires Uses(sizes, sym)
    ensures |w| == sizes[sym]
  {
    Msb(Code(sizes, sym), sizes[sym])
  }

  // ---------- numeric facts ----------

  lemma {:induction false} CountToMono(sizes: seq<nat>, i: nat, j: nat, len: nat)
    requires i <= j <= |sizes|
    ensures CountTo(sizes, i, len) <= CountTo(sizes, j, len)
  {
    if i < j {
      CountToMono(sizes, i, j - 1, len);
    }
  }

  /** A code of length `len` lies between the first code of that length and the covered part. */
  lemma CodeInRange(sizes: seq<nat>, sym: nat)
    requires Uses(sizes, sym)
    ensures First(sizes, sizes[sym]) <= Code(sizes, sym) < Covered(sizes, sizes[sym])
  {
    var len := sizes[sym];
    assert CountTo(sizes, sym + 1, len) == CountTo(sizes, sym, len) + 1;
    CountToMono(sizes, sym + 1, |sizes|, len);
  }

  lemma {:induction false} CoveredBound(sizes: seq<nat>, len: nat)
    requires Valid(sizes) && len <= MAX_BITS
    ensures Covered(sizes, len) <= Pow2(len)
    decreases MAX_BITS - len
  {
    if len < MAX_BITS {
      CoveredBound(sizes, len + 1);
    }
  }

  lemma CodeBound(sizes: seq<nat>, sym: nat)
    requires Valid(sizes) && Uses(sizes, sym)
    ensures Code(sizes, sym) < Pow2(sizes[sym])
  {
    CodeInRange(sizes, sym);
    CoveredBound(sizes, sizes[sym]);
  }

  /** Shortening a longer code leaves the part covered by the shorter ones. */
  lemma {:induction false} ShrPastCovered(sizes: seq<nat>, v: nat, len: nat, d: nat)
    requires d > 0 && v >= First(sizes, len + d)
    ensures Shr(v, d) >= Covered(sizes, len)
  {
    assert v / 2 >= Covered(sizes, len + d - 1);
    if d > 1 {
      ShrPastCovered(sizes, v / 2, len, d - 1);
    }
  }

  lemma {:induction false} MsbPrefix(v: nat, n: nat, d: nat)
    ensures Msb(v, n + d)[..n] == Msb(Shr(v, d), n)
  {
    if d > 0 {
      MsbPrefix(v / 2, n, d - 1);
      assert Msb(v, n + d)[..n] == Msb(v / 2, n + d - 1)[..n];
    }
  }

  lemma {:induction false} MsbInjective(a: nat, b: nat, n: nat)
    requires a < Pow2(n) && b < Pow2(n)
    requires Msb(a, n) == Msb(b, n)
    ensures a == b
  {
    if n > 0 {
      var x, y := Msb(a, n), Msb(b, n);
      assert x[..n - 1] == Msb(a / 2, n - 1) && y[..n - 1] == Msb(b / 2, n - 1);
      assert x[n - 1] == y[n - 1];
      MsbInjective(a / 2, b / 2, n - 1);
    }
  }

  /** No code word is a prefix of the code word of another symbol (or equal to it). */
  lemma PrefixFree(sizes: seq<nat>, s: nat, t: nat)
    requires Valid(sizes) && Uses(sizes, s) && Uses(sizes, t)
    requires CodeWord(sizes, s) <= CodeWord(sizes, t)
    ensures s == t
  {
    hide Valid, Code, Msb, Pow2;
    assert CodeWord(sizes, t)[..sizes[s]] == CodeWord(sizes, s);
    if sizes[s] == sizes[t] {
      assert CodeWord(sizes, t)[..sizes[s]] == CodeWord(sizes, t);
      SameLength(sizes, s, t);
    } else {
      LongerDiffers(sizes, s, t);
    }
  }

  lemma SameLength(sizes: seq<nat>, s: nat, t: nat)
    requires Valid(sizes) && Uses(sizes, s) && Uses(sizes, t) && sizes[s] == sizes[t]
    requires CodeWord(sizes, s) == CodeWord(sizes, t)
    ensures s == t
  {
    hide Valid, Msb, Pow2, CountTo, Covered;
    var n := sizes[s];
    CodeBound(sizes, s);
    CodeBound(sizes, t);
    MsbInjective(Code(sizes, s), Code(sizes, t), n);
    CountToNext(sizes, s);
    CountToNext(sizes, t);
    if s < t {
      CountToMono(sizes, s + 1, t, n);
    } else if t < s {
      CountToMono(sizes, t + 1, s, n);
    }
  }

  lemma CountToNext(sizes: seq<nat>, s: nat)
    requires s < |sizes|
    ensures CountTo(sizes, s + 1, sizes[s]) == CountTo(sizes, s, sizes[s]) + 1
  {
  }

  /** A shorter code word does not begin a longer one. */
  lemma LongerDiffers(sizes: seq<nat>, s: nat, t: nat)
    requires Valid(sizes) && Uses(sizes, s) && Uses(sizes, t) && sizes[s] < sizes[t]
    ensures CodeWord(sizes, t)[..sizes[s]] != CodeWord(sizes, s)
  {
    hide Valid, Msb, Pow2, Covered, Code, Shr;
    var n, m := sizes[s], sizes[t];
    var cs, ct := Code(sizes, s), Code(sizes, t);
    CodeBound(sizes, s);
    CodeInRange(sizes, s);
    CodeBound(sizes, t);
    CodeInRange(sizes, t);
    MsbPrefix(ct, n, m - n);
    ShrBound(ct, n, m - n);
    ShrPastCovered(sizes, ct, n, m - n);
    if CodeWord(sizes, t)[..n] == CodeWord(sizes, s) {
      assert Msb(ct, n + (m - n))[..n] == Msb(Shr(ct, m - n), n);
      MsbInjective(cs, Shr(ct, m - n), n);
      assert false;
    }
  }

  lemma {:induction false} ShrBound(v: nat, n: nat, d: nat)
    requires v < Pow2(n + d)
    ensures Shr(v, d) < Pow2(n)
  {
    if d > 0 {
      ShrBound(v / 2, n, d - 1);
    }
  }

  // ---------- every bit string starts with a code word ----------

  /** The integer whose binary digits, most significant first, are `w`. */
  function MsbVal(w: bits): nat {
    if |w| == 0 then 0 else 2 * MsbVal(w[..|w| - 1]) + Bit(w[|w| - 1])
  }

  lemma {:induction false} MsbOfVal(w: bits)
    ensures MsbVal(w) < Pow2(|w|)
    ensures Msb(MsbVal(w), |w|) == w
  {
    if |w| > 0 {
      MsbOfVal(w[..|w| - 1]);
      assert w == w[..|w| - 1] + [w[|w| - 1]];
    }
  }

  /** The symbol of length `len` that has `r` symbols of the same length before it. */
  lemma {:induction false} Pick(sizes: seq<nat>, n: nat, len: nat, r: nat) returns (sym: nat)
    requires n <= |sizes| && r < CountTo(sizes, n, len)
    ensures sym < n && sizes[sym] == len && CountTo(sizes, sym, len) == r
  {
    if CountTo(sizes, n - 1, len) <= r {
      sym := n - 1;
    } else {
      sym := Pick(sizes, n - 1, len, r);
    }
  }

  /** Of a bit string at least as long as any code, some prefix is covered but nothing shorter is. */
  lemma {:induction false} ShortestCovered(sizes: seq<nat>, w: bits, len: nat) returns (k: nat)
    requires len <= |w| && MsbVal(w[..len]) < Covered(sizes, len)
    ensures 0 < k <= len && First(sizes, k) <= MsbVal(w[..k]) < Covered(sizes, k)
  {
    assert w[..len][..len - 1] == w[..len - 1];
    if MsbVal(w[..len - 1]) < Covered(sizes, len - 1) {
      k := ShortestCovered(sizes, w, len - 1);
    } else {
      k := len;
    }
  }

  lemma CompleteCovers(sizes: seq<nat>, v: nat)
    requires Complete(sizes) && v < Pow2(MAX_BITS)
    ensures v < Covered(sizes, MAX_BITS)
  {
    hide Covered, Pow2;
  }

  /** A covered code value that nothing shorter covers is that of a symbol. */
  lemma CoveredSymbol(sizes: seq<nat>, k: nat, v: nat) returns (sym: nat)
    requires k > 0 && First(sizes, k) <= v < Covered(sizes, k)
    ensures Uses(sizes, sym) && sizes[sym] == k && Code(sizes, sym) == v
  {
    hide CountTo;
    sym := Pick(sizes, |sizes|, k, v - First(sizes, k));
  }

  /** A complete code decodes any input: every string of 15 bits starts with a code word. */
  lemma SomeCodeWord(sizes: seq<nat>, w: bits) returns (sym: nat)
    requires Complete(sizes) && |w| >= MAX_BITS
    ensures Uses(sizes, sym) && CodeWord(sizes, sym) <= w
  {
    hide Complete, Covered, First, Code, Pow2, Msb, MsbVal;
    MsbOfVal(w[..MAX_BITS]);
    CompleteCovers(sizes, MsbVal(w[..MAX_BITS]));
    var k := ShortestCovered(sizes, w, MAX_BITS);
    sym := CoveredSymbol(sizes, k, MsbVal(w[..k]));
    MsbOfVal(w[..k]);
  }

  // ---------- the code assignment loops of the compressor ----------

  /** The tail of `tdefl_optimize_huffman_table`: from code sizes to bit-reversed codes. */
  method AssignCodes(sizes: seq<nat>, limit: nat) returns (codes: seq<nat>)
    requires limit <= MAX_BITS && Valid(sizes)
    requires forall i :: 0 <= i < |sizes| ==> sizes[i] <= limit
    ensures |codes| == |sizes|
    ensures forall i :: 0 <= i < |sizes| && sizes[i] == 0 ==> codes[i] == 0
    ensures forall i :: Uses(sizes, i) ==>
      codes[i] < Pow2(sizes[i]) && Enc(codes[i], sizes[i]) == CodeWord(sizes, i)
  {
    var nextCode := NextCodes(sizes, limit);
    codes := seq(|sizes|, _ => 0);
    var i := 0;
    while i < |sizes|
      invariant 0 <= i <= |sizes| == |codes|
      invariant forall l :: 1 <= l <= limit ==> nextCode[l] == First(sizes, l) + CountTo(sizes, i, l)
      invariant forall k :: i <= k < |sizes| ==> codes[k] == 0
      invariant forall k :: 0 <= k < i && sizes[k] == 0 ==> codes[k] == 0
      invariant forall k :: 0 <= k < i && Uses(sizes, k) ==>
        codes[k] < Pow2(sizes[k]) && Enc(codes[k], sizes[k]) == CodeWord(sizes, k)
    {
      var codeSize := sizes[i];
      if codeSize != 0 {
        var code := nextCode[codeSize];
        nextCode[codeSize] := code + 1;
        CodeBound(sizes, i);
        assert code == Code(sizes, i);
        var rev := ReverseBits(code, codeSize);
        codes := codes[i := rev];
      }
      i := i + 1;
    }
  }

  method NextCodes(sizes: seq<nat>, limit: nat) returns (nextCode: array<nat>)
    requires limit <= MAX_BITS
    requires forall i :: 0 <= i < |sizes| ==> sizes[i] <= MAX_BITS
    ensures fresh(nextCode) && nextCode.Length == MAX_BITS + 1
    ensures forall l :: 1 <= l <= limit ==> nextCode[l] == First(sizes, l)
  {
    var numCodes := CountSizes(sizes);
    nextCode := new nat[MAX_BITS + 1];
    nextCode[1] := 0;
    var j: nat, i := 0, 2;
    while i <= limit
      invariant 2 <= i && (i <= limit + 1 || i == 2)
      invariant forall l :: 0 <= l <= MAX_BITS ==> numCodes[l] == Count(sizes, l)
      invariant j == First(sizes, i - 1)
      invariant forall l :: 1 <= l < i ==> nextCode[l] == First(sizes, l)
    {
      j := (j + numCodes[i - 1]) * 2;
      nextCode[i] := j;
      i := i + 1;
    }
  }

  /** The histogram of code sizes, as `num_codes` and `total_syms` hold it. */
  method CountSizes(sizes: seq<nat>) returns (hist: array<nat>)
    requires forall i :: 0 <= i < |sizes| ==> sizes[i] <= MAX_BITS
    ensures fresh(hist) && hist.Length == MAX_BITS + 1
    ensures forall l :: 0 <= l <= MAX_BITS ==> hist[l] == Count(sizes, l)
  {
    hist := new nat[MAX_BITS + 1](_ => 0);
    for i := 0 to |sizes|
      invariant forall l :: 0 <= l <= MAX_BITS ==> hist[l] == CountTo(sizes, i, l)
    {
      hist[sizes[i]] := hist[sizes[i]] + 1;
    }
  }
}
