/** Weighted code lengths: the Kraft sum, the cost, and the exchange argument behind Huffman's algorithm.  Whatever
    code there is for some weights, there is one at least as good in which the two smallest weights are siblings. */
module OptimalCode {
  import opened Bits

  /** The Kraft sum of code lengths, in units of 2^-m. */
  function Kraft(lens: seq<nat>, m: nat): nat
    requires forall i :: 0 <= i < |lens| ==> lens[i] <= m
  {
    if |lens| == 0 then 0 else Pow2(m - lens[0]) + Kraft(lens[1..], m)
  }

  /** The number of bits spent on symbols of frequencies `f` with these code lengths. */
  function Cost(f: seq<nat>, lens: seq<nat>): nat
    requires |f| == |lens|
  {
    if |f| == 0 then 0 else f[0] * lens[0] + Cost(f[1..], lens[1..])
  }

  /** Lengths that a prefix code can have. */
  predicate IsCode(lens: seq<nat>, m: nat) {
    (forall i :: 0 <= i < |lens| ==> lens[i] <= m) && Kraft(lens, m) <= Pow2(m)
  }

  predicate UpTo(lens: seq<nat>, m: nat) {
    forall i :: 0 <= i < |lens| ==> lens[i] <= m
  }

  /** No prefix code is better for the frequencies `f`. */
  ghost predicate Optimal(f: seq<nat>, lens: seq<nat>)
    requires |f| == |lens|
  {
    forall r: seq<nat>, m: nat :: |r| == |f| && IsCode(r, m) ==> Cost(f, lens) <= Cost(f, r)
  }

  // ---------- changing one length ----------

  lemma {:induction false} KraftUpdate(lens: seq<nat>, m: nat, i: nat, v: nat)
    requires UpTo(lens, m) && i < |lens| && v <= m
    ensures UpTo(lens[i := v], m)
    ensures Kraft(lens[i := v], m) + Pow2(m - lens[i]) == Kraft(lens, m) + Pow2(m - v)
  {
    hide Pow2;
    var lens' := lens[i := v];
    if i == 0 {
      assert lens'[1..] == lens[1..];
    } else {
      assert lens'[1..] == lens[1..][i - 1 := v];
      KraftUpdate(lens[1..], m, i - 1, v);
    }
  }

  lemma {:induction false} CostUpdate(f: seq<nat>, lens: seq<nat>, i: nat, v: nat)
    requires |f| == |lens| && i < |lens|
    ensures Cost(f, lens[i := v]) + f[i] * lens[i] == Cost(f, lens) + f[i] * v
  {
    var lens' := lens[i := v];
    if i == 0 {
      assert lens'[1..] == lens[1..];
    } else {
      assert lens'[1..] == lens[1..][i - 1 := v];
      CostUpdate(f[1..], lens[1..], i - 1, v);
    }
  }

  lemma {:induction false} WeightUpdate(f: seq<nat>, lens: seq<nat>, i: nat, v: nat)
    requires |f| == |lens| && i < |lens|
    ensures Cost(f[i := v], lens) + f[i] * lens[i] == Cost(f, lens) + v * lens[i]
  {
    var f' := f[i := v];
    if i == 0 {
      assert f'[1..] == f[1..];
    } else {
      assert f'[1..] == f[1..][i - 1 := v];
      WeightUpdate(f[1..], lens[1..], i - 1, v);
    }
  }

  function Drop(s: seq<nat>, i: nat): (r: seq<nat>)
    requires i < |s|
    ensures |r| == |s| - 1
    ensures forall k :: 0 <= k < |r| ==> r[k] == if k < i then s[k] else s[k + 1]
  {
    s[..i] + s[i + 1..]
  }

  lemma DropMultiset(s: seq<nat>, i: nat)
    requires i < |s|
    ensures multiset(s) == multiset(Drop(s, i)) + multiset{s[i]}
  {
    assert s == s[..i] + [s[i]] + s[i + 1..];
  }

  lemma {:induction false} KraftDrop(lens: seq<nat>, m: nat, i: nat)
    requires UpTo(lens, m) && i < |lens|
    ensures UpTo(Drop(lens, i), m) && Kraft(lens, m) == Kraft(Drop(lens, i), m) + Pow2(m - lens[i])
  {
    hide Pow2;
    if i == 0 {
      assert Drop(lens, 0) == lens[1..];
    } else {
      KraftDrop(lens[1..], m, i - 1);
      assert Drop(lens, i)[1..] == Drop(lens[1..], i - 1);
    }
  }

  lemma {:induction false} CostDrop(f: seq<nat>, lens: seq<nat>, i: nat)
    requires |f| == |lens| && i < |lens|
    ensures Cost(f, lens) == Cost(Drop(f, i), Drop(lens, i)) + f[i] * lens[i]
  {
    if i == 0 {
      assert Drop(f, 0) == f[1..] && Drop(lens, 0) == lens[1..];
    } else {
      CostDrop(f[1..], lens[1..], i - 1);
      assert Drop(f, i)[1..] == Drop(f[1..], i - 1) && Drop(lens, i)[1..] == Drop(lens[1..], i - 1);
    }
  }

  // ---------- the exchange ----------

  lemma Crosswise(x: nat, y: nat, p: nat, q: nat)
    requires x <= y && p <= q
    ensures x * q + y * p <= x * p + y * q
  {
    assert (y - x) * (q - p) >= 0;
    assert (y - x) * (q - p) == y * q - y * p - x * q + x * p;
  }

  /** The smaller weight gets the longer code. */
  lemma SwapLengths(f: seq<nat>, lens: seq<nat>, m: nat, i: nat, a: nat)
    requires |f| == |lens| && UpTo(lens, m) && i < |f| && a < |f|
    requires f[i] <= f[a] && lens[i] <= lens[a]
    ensures var lens' := lens[i := lens[a]][a := lens[i]];
      UpTo(lens', m) && Kraft(lens', m) == Kraft(lens, m) && Cost(f, lens') <= Cost(f, lens)
  {
    hide Pow2, Kraft, Cost;
    var p, q := lens[i], lens[a];
    var mid := lens[i := q];
    KraftUpdate(lens, m, i, q);
    CostUpdate(f, lens, i, q);
    KraftUpdate(mid, m, a, p);
    CostUpdate(f, mid, a, p);
    if i != a {
      Crosswise(f[i], f[a], p, q);
    } else {
      assert lens[i := lens[a]][a := lens[i]] == lens;
    }
  }

  ghost predicate Longest(lens: seq<nat>, a: nat, except: int) {
    a < |lens| && a != except && forall k :: 0 <= k < |lens| && k != except ==> lens[k] <= lens[a]
  }

  lemma {:induction false} LongestExists(lens: seq<nat>, except: int) returns (a: nat)
    requires |lens| > 1 || (|lens| == 1 && except != 0)
    ensures Longest(lens, a, except)
  {
    var n := |lens| - 1;
    if n == 0 {
      a := 0;
    } else if n == except {
      a := LongestExists(lens[..n], -1);
    } else if n == 1 && except == 0 {
      a := 1;
    } else {
      a := LongestExists(lens[..n], except);
      if lens[n] > lens[a] {
        a := n;
      }
    }
  }

  /** All lengths but one are at most `top`: without that one the Kraft sum is a multiple of the unit at `top`. */
  lemma {:induction false} KraftMultiple(lens: seq<nat>, m: nat, top: nat)
    requires UpTo(lens, top) && top <= m
    ensures UpTo(lens, m) && Kraft(lens, m) % Pow2(m - top) == 0
  {
    hide Pow2;
    Pow2Positive(m - top);
    if |lens| > 0 {
      KraftMultiple(lens[1..], m, top);
      Pow2Add(m - top, top - lens[0]);
      MultiplePlus(Pow2(m - lens[0]), Kraft(lens[1..], m), Pow2(m - top), Pow2(top - lens[0]));
    }
  }

  lemma Pow2Positive(n: nat)
    ensures Pow2(n) > 0
  {
  }

  lemma MultiplePlus(a: nat, b: nat, d: nat, q: nat)
    requires d > 0 && a == d * q && b % d == 0
    ensures (a + b) % d == 0
  {
    assert b == d * (b / d);
    assert a + b == d * (q + b / d);
    MulComm(d, q + b / d);
    DivModUnique(a + b, d, q + b / d, 0);
  }

  lemma QuotientLess(p: nat, q: nat, d: nat)
    requires d * p < d * q
    ensures p < q
  {
    if p >= q {
      MulMono(q, p, d);
    }
  }

  /** A multiple below another is below it by the unit. */
  lemma MultipleGap(a: nat, b: nat, d: nat)
    requires d > 0 && a % d == 0 && b % d == 0 && a < b
    ensures a + d <= b
  {
    assert a == d * (a / d) && b == d * (b / d);
    QuotientLess(a / d, b / d, d);
    MulGap(a / d, b / d, d);
  }

  lemma MulMono(a: nat, b: nat, d: nat)
    requires a <= b
    ensures d * a <= d * b
  {
    assert d * (b - a) >= 0;
  }

  lemma PowMultiple(m: nat, top: nat)
    requires top <= m
    ensures Pow2(m) % Pow2(m - top) == 0 && Pow2(m - top) > 0
  {
    hide Pow2;
    Pow2Add(m - top, top);
    Pow2Positive(m - top);
    MultiplePlus(Pow2(m), 0, Pow2(m - top), Pow2(top));
  }

  /** A single longest code can be shortened to the next length. */
  lemma Shorten(f: seq<nat>, lens: seq<nat>, m: nat, i: nat, top: nat)
    requires |f| == |lens| && IsCode(lens, m) && i < |lens| && top <= lens[i]
    requires forall k :: 0 <= k < |lens| && k != i ==> lens[k] <= top
    ensures IsCode(lens[i := top], m) && Cost(f, lens[i := top]) <= Cost(f, lens)
  {
    hide Pow2, Kraft, Cost;
    var others := Drop(lens, i);
    KraftDrop(lens, m, i);
    KraftMultiple(others, m, top);
    PowMultiple(m, top);
    Pow2Positive(m - lens[i]);
    MultipleGap(Kraft(others, m), Pow2(m), Pow2(m - top));
    KraftUpdate(lens, m, i, top);
    CostUpdate(f, lens, i, top);
    MulMono(top, lens[i], f[i]);
  }

  /** `i` and `j` hold the two smallest weights. */
  ghost predicate TwoSmallest(f: seq<nat>, i: nat, j: nat) {
    && i < |f| && j < |f| && i != j && f[i] <= f[j]
    && forall k :: 0 <= k < |f| && k != i ==> f[j] <= f[k]
  }

  /** The two smallest weights can be given the same length, at no cost. */
  lemma Siblings(f: seq<nat>, lens: seq<nat>, m: nat, i: nat, j: nat) returns (r: seq<nat>)
    requires |f| == |lens| && IsCode(lens, m) && TwoSmallest(f, i, j)
    ensures |r| == |f| && IsCode(r, m) && r[i] == r[j] && Cost(f, r) <= Cost(f, lens)
  {
    hide Pow2, Kraft, Cost;
    var a := LongestExists(lens, -1);
    SwapLengths(f, lens, m, i, a);
    r := lens[i := lens[a]][a := lens[i]];
    var b := LongestExists(r, i);
    SwapLengths(f, r, m, j, b);
    r := r[j := r[b]][b := r[j]];
    Shorten(f, r, m, i, r[j]);
    r := r[i := r[j]];
  }

  lemma SiblingsPositive(lens: seq<nat>, m: nat, i: nat, j: nat)
    requires IsCode(lens, m) && i < |lens| && j < |lens| && i != j && lens[i] == lens[j]
    ensures lens[i] > 0
  {
    hide Pow2, Kraft;
    KraftDrop(lens, m, i);
    var rest := Drop(lens, i);
    var k := if j < i then j else j - 1;
    assert rest[k] == lens[j];
    KraftDrop(rest, m, k);
    Pow2Positive(m - lens[i]);
    assert Pow2(m - 0) == Pow2(m);
  }

  /** One merge of Huffman's algorithm: whatever a code for the weights `f` costs, for the weights after the merge
      there is one that is cheaper by the merged weight. */
  lemma MergeSiblings(f: seq<nat>, lens: seq<nat>, m: nat, i: nat, j: nat) returns (f': seq<nat>, r: seq<nat>)
    requires |f| == |lens| && IsCode(lens, m) && TwoSmallest(f, i, j)
    ensures |f'| == |r| == |f| - 1 && IsCode(r, m) && Cost(f', r) + f[i] + f[j] <= Cost(f, lens)
    ensures multiset(f') + multiset{f[i]} + multiset{f[j]} == multiset(f) + multiset{f[i] + f[j]}
  {
    hide Pow2, Kraft, Cost;
    var s := Siblings(f, lens, m, i, j);
    SiblingsPositive(s, m, i, j);
    f', r := Drop(f[i := f[i] + f[j]], j), Drop(s[i := s[i] - 1], j);
    MergedKraft(s, m, i, j);
    MergedCost(f, s, i, j);
    MergedWeights(f, i, j);
  }

  lemma MergedKraft(s: seq<nat>, m: nat, i: nat, j: nat)
    requires IsCode(s, m) && i < |s| && j < |s| && i != j && s[i] == s[j] > 0
    ensures IsCode(Drop(s[i := s[i] - 1], j), m)
  {
    hide Pow2, Kraft;
    var t := s[i := s[i] - 1];
    KraftUpdate(s, m, i, s[i] - 1);
    KraftDrop(t, m, j);
    HalfUnit(m, s[i]);
  }

  lemma MergedCost(f: seq<nat>, s: seq<nat>, i: nat, j: nat)
    requires |f| == |s| && i < |s| && j < |s| && i != j && s[i] == s[j] > 0
    ensures Cost(Drop(f[i := f[i] + f[j]], j), Drop(s[i := s[i] - 1], j)) + f[i] + f[j] == Cost(f, s)
  {
    hide Cost;
    var g, t := f[i := f[i] + f[j]], s[i := s[i] - 1];
    WeightUpdate(f, s, i, f[i] + f[j]);
    CostUpdate(g, s, i, s[i] - 1);
    CostDrop(g, t, j);
    Distributes(f[i], f[j], s[i]);
  }

  lemma MergedWeights(f: seq<nat>, i: nat, j: nat)
    requires i < |f| && j < |f| && i != j
    ensures multiset(Drop(f[i := f[i] + f[j]], j)) + multiset{f[i]} + multiset{f[j]}
         == multiset(f) + multiset{f[i] + f[j]}
  {
    hide Drop;
    DropMultiset(f[i := f[i] + f[j]], j);
    UpdateMultiset(f, i, f[i] + f[j]);
  }

  lemma HalfUnit(m: nat, l: nat)
    requires 0 < l <= m
    ensures Pow2(m - (l - 1)) == 2 * Pow2(m - l)
  {
  }

  lemma Distributes(x: nat, y: nat, l: nat)
    requires l > 0
    ensures (x + y) * (l - 1) == x * l + y * l - x - y
    ensures (x + y) * l == x * l + y * l
  {
  }

  lemma UpdateMultiset(f: seq<nat>, i: nat, v: nat)
    requires i < |f|
    ensures multiset(f[i := v]) + multiset{f[i]} == multiset(f) + multiset{v}
  {
    DropMultiset(f, i);
    DropMultiset(f[i := v], i);
    assert Drop(f, i) == Drop(f[i := v], i);
  }
}
