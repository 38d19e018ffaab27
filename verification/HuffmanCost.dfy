/** What the merges of the first phase achieve (src/external/miniz.h:2679-2693): the internal weights add up to the
    cost of the tree, no prefix code costs less, and weights grow like Fibonacci numbers towards the root. */
module HuffmanCost {
  import opened Bits
  import opened MergeQueues
  import opened OptimalCode

  // ---------- no code is better ----------

  function Count(s: seq<nat>, v: nat): nat {
    multiset(s)[v]
  }

  function One(x: nat, v: nat): nat {
    if x == v then 1 else 0
  }

  /** How often the weight `v` is waiting before node `m` is made. */
  ghost function Waiting(f: seq<nat>, w: seq<nat>, root: nat, leaf: nat, m: nat, v: nat): nat
    requires root <= m <= |w| && leaf <= |f|
  {
    Count(w[root..m], v) + Count(f[leaf..], v)
  }

  /** `g` are the waiting weights, in some order. */
  ghost predicate Waits(g: seq<nat>, f: seq<nat>, w: seq<nat>, root: nat, leaf: nat, m: nat)
    requires root <= m <= |w| && leaf <= |f|
  {
    forall v: nat :: Count(g, v) == Waiting(f, w, root, leaf, m, v)
  }

  lemma TakeHead(s: seq<nat>, lo: nat, hi: nat, v: nat)
    requires lo < hi <= |s|
    ensures Count(s[lo..hi], v) == One(s[lo], v) + Count(s[lo + 1..hi], v)
  {
    assert s[lo..hi] == [s[lo]] + s[lo + 1..hi];
  }

  lemma TakeHeads(s: seq<nat>, lo: nat, c: nat, hi: nat, v: nat)
    requires c <= 2 && lo + c <= hi <= |s|
    ensures Count(s[lo..hi], v)
         == (if c >= 1 then One(s[lo], v) else 0) + (if c == 2 then One(s[lo + 1], v) else 0) + Count(s[lo + c..hi], v)
  {
    hide Count, One;
    if c >= 1 {
      TakeHead(s, lo, hi, v);
    }
    if c == 2 {
      TakeHead(s, lo + 1, hi, v);
    }
  }

  lemma AllAtLeast(s: seq<nat>, lo: nat, y: nat, v: nat)
    requires Ascending(s) && lo <= |s| && (lo < |s| ==> y <= s[lo]) && Count(s[lo..], v) > 0
    ensures y <= v
  {
    assert v in multiset(s[lo..]);
    assert v in s[lo..];
  }

  /** The two picks and what waits behind them, which is no lighter. */
  lemma Picks(f: seq<nat>, w: seq<nat>, root: nat, leaf: nat, c: nat, x: nat, y: nat, v: nat)
    requires Ascending(f) && Ascending(w) && Picked(f, w, root, leaf, c, x, y)
    ensures root + c <= |w| && leaf + 2 - c <= |f| && x <= y
    ensures Waiting(f, w, root, leaf, |w|, v) == One(x, v) + One(y, v) + Waiting(f, w, root + c, leaf + 2 - c, |w|, v)
    ensures Waiting(f, w, root + c, leaf + 2 - c, |w|, v) > 0 ==> y <= v
  {
    hide Count, Ascending, One;
    TakeHeads(w, root, c, |w|, v);
    TakeHeads(f, leaf, 2 - c, |f|, v);
    assert f[leaf..|f|] == f[leaf..] && f[leaf + 2 - c..|f|] == f[leaf + 2 - c..] && w[root + c..|w|] == w[root + c..];
    if Count(w[root + c..], v) > 0 {
      AllAtLeast(w, root + c, y, v);
    }
    if Count(f[leaf + 2 - c..], v) > 0 {
      AllAtLeast(f, leaf + 2 - c, y, v);
    }
  }

  lemma ElementAt(g: seq<nat>, x: nat) returns (i: nat)
    requires Count(g, x) > 0
    ensures i < |g| && g[i] == x
  {
    assert x in multiset(g);
    i :| 0 <= i < |g| && g[i] == x;
  }

  lemma DropCount(g: seq<nat>, i: nat, v: nat)
    requires i < |g|
    ensures Count(g, v) == Count(Drop(g, i), v) + One(g[i], v)
  {
    DropMultiset(g, i);
  }

  /** Where the two smallest weights are. */
  lemma FindTwo(g: seq<nat>, x: nat, y: nat) returns (i: nat, j: nat)
    requires x <= y
    requires forall v: nat :: Count(g, v) >= One(x, v) + One(y, v)
    requires forall v: nat :: Count(g, v) > One(x, v) + One(y, v) ==> y <= v
    ensures TwoSmallest(g, i, j) && g[i] == x && g[j] == y
  {
    i := ElementAt(g, x);
    var d := Drop(g, i);
    DropCount(g, i, y);
    var q := ElementAt(d, y);
    j := if q < i then q else q + 1;
    assert g[j] == d[q];
    forall k | 0 <= k < |g| && k != i
      ensures y <= g[k]
    {
      DropCount(g, i, g[k]);
      assert g[k] == d[if k < i then k else k - 1];
      assert g[k] in multiset(d);
    }
  }

  lemma WaitingNext(f: seq<nat>, w: seq<nat>, root: nat, leaf: nat, m: nat, v: nat)
    requires root <= m < |w| && leaf <= |f|
    ensures Waiting(f, w, root, leaf, m + 1, v) == Waiting(f, w, root, leaf, m, v) + One(w[m], v)
    ensures Waiting(f, w, root, leaf, m, v) == Waiting(f, w[..m], root, leaf, m, v)
  {
    assert w[root..m + 1] == w[root..m] + [w[m]];
    assert w[..m][root..m] == w[root..m];
  }

  /** One merge on the waiting weights and a code for them. */
  lemma MergeWaiting(f: seq<nat>, w: seq<nat>, m: nat, root: nat, leaf: nat, c: nat, x: nat, y: nat, g: seq<nat>,
                     s: seq<nat>, top: nat)
    returns (g': seq<nat>, s': seq<nat>)
    requires Ascending(f) && Ascending(w) && root <= m < |w| && leaf <= |f| && w[m] == x + y
    requires Picked(f, w[..m], root, leaf, c, x, y)
    requires Waits(g, f, w, root, leaf, m) && |g| == |s| && IsCode(s, top)
    ensures root + c <= m && leaf + 2 - c <= |f| && Waits(g', f, w, root + c, leaf + 2 - c, m + 1)
    ensures |g'| == |s'| && IsCode(s', top) && Cost(g', s') + x + y <= Cost(g, s)
  {
    hide Cost, IsCode, Waiting, Ascending, Count, One;
    AscendingPrefix(w, m);
    forall v: nat
      ensures Count(g, v) == One(x, v) + One(y, v) + Waiting(f, w[..m], root + c, leaf + 2 - c, m, v)
      ensures Count(g, v) > One(x, v) + One(y, v) ==> y <= v
    {
      Picks(f, w[..m], root, leaf, c, x, y, v);
      WaitingNext(f, w, root, leaf, m, v);
      assert Count(g, v) == Waiting(f, w, root, leaf, m, v);
    }
    var i, j := FindTwo(g, x, y);
    var z := x + y;
    g', s' := MergeSiblings(g, s, top, i, j);
    forall v: nat
      ensures Count(g', v) == Waiting(f, w, root + c, leaf + 2 - c, m + 1, v)
    {
      Merged(g, g', x, y, z, v);
      WaitingNext(f, w, root + c, leaf + 2 - c, m, v);
    }
  }

  lemma Merged(g: seq<nat>, g': seq<nat>, x: nat, y: nat, z: nat, v: nat)
    requires multiset(g') + multiset{x} + multiset{y} == multiset(g) + multiset{z}
    ensures Count(g', v) + One(x, v) + One(y, v) == Count(g, v) + One(z, v)
  {
    assert (multiset(g') + multiset{x} + multiset{y})[v] == (multiset(g) + multiset{z})[v];
  }

  lemma StepRange(f: seq<nat>, w: seq<nat>, p: seq<nat>, h: History, m: nat)
    requires MergesRecorded(f, w, p, h) && m <= |w|
    ensures |h.roots| == |w| + 1 && |h.xs| == |h.ys| == |w| && h.roots[m] <= m && 2 * m - h.roots[m] <= |f|
  {
    if m > 0 {
      assert StepAt(f, w, h, m - 1);
    }
  }

  lemma AscendingPrefix(w: seq<nat>, m: nat)
    requires Ascending(w) && m <= |w|
    ensures Ascending(w[..m])
  {
  }

  lemma SumSnoc(w: seq<nat>, m: nat)
    requires m < |w|
    ensures Sum(w[..m + 1]) == Sum(w[..m]) + w[m]
  {
    assert w[..m + 1] == w[..m] + [w[m]];
    SumConcat(w[..m], [w[m]]);
    SumOne(w[m]);
  }

  /** After `m` merges, any code for `f` leaves one for the waiting weights that is cheaper by all weights made. */
  lemma {:induction false} Remaining(f: seq<nat>, w: seq<nat>, p: seq<nat>, h: History, m: nat, r: seq<nat>, top: nat)
    returns (g: seq<nat>, s: seq<nat>)
    requires Ascending(f) && Ascending(w) && MergesRecorded(f, w, p, h) && m <= |w|
    requires |r| == |f| && IsCode(r, top)
    ensures |h.roots| == |w| + 1 && h.roots[m] <= m && 2 * m - h.roots[m] <= |f|
    ensures Waits(g, f, w, h.roots[m], 2 * m - h.roots[m], m)
    ensures |g| == |s| && IsCode(s, top) && Cost(g, s) + Sum(w[..m]) <= Cost(f, r)
  {
    hide Sum, Cost, IsCode, Waits, MergesRecorded, Ascending, Picked;
    StepRange(f, w, p, h, m);
    if m == 0 {
      RootsStart(f, w, p, h);
      StartWaiting(f, w);
      return f, r;
    }
    var n := m - 1;
    StepRange(f, w, p, h, n);
    g, s := Remaining(f, w, p, h, n, r, top);
    StepIs(f, w, p, h, n);
    g, s := MergeWaiting(f, w, n, h.roots[n], 2 * n - h.roots[n], h.roots[m] - h.roots[n], h.xs[n], h.ys[n], g, s, top);
    SumSnoc(w, n);
    assert 2 * n - h.roots[n] + 2 - (h.roots[m] - h.roots[n]) == 2 * m - h.roots[m];
  }

  lemma StartWaiting(f: seq<nat>, w: seq<nat>)
    ensures Waits(f, f, w, 0, 0, 0) && Sum(w[..0]) == 0
  {
    assert f[0..] == f && w[0..0] == [];
  }

  lemma RootsStart(f: seq<nat>, w: seq<nat>, p: seq<nat>, h: History)
    requires MergesRecorded(f, w, p, h)
    ensures h.roots[0] == 0
  {
  }

  lemma StepIs(f: seq<nat>, w: seq<nat>, p: seq<nat>, h: History, m: nat)
    requires MergesRecorded(f, w, p, h) && m < |w|
    ensures h.roots[m] <= h.roots[m + 1] && h.roots[m] <= 2 * m && w[m] == h.xs[m] + h.ys[m] && h.xs[m] <= h.ys[m]
    ensures Picked(f, w[..m], h.roots[m], 2 * m - h.roots[m], h.roots[m + 1] - h.roots[m], h.xs[m], h.ys[m])
  {
    assert StepAt(f, w, h, m);
  }

  /** Huffman's theorem: the weights of the internal nodes add up to no more than any code costs. */
  lemma TreeIsOptimal(f: seq<nat>, w: seq<nat>, p: seq<nat>, h: History, r: seq<nat>, top: nat)
    requires Ascending(f) && Ascending(w) && MergesRecorded(f, w, p, h)
    requires |r| == |f| && IsCode(r, top)
    ensures Sum(w) <= Cost(f, r)
  {
    hide Sum, Cost, MergesRecorded;
    var g, s := Remaining(f, w, p, h, |w|, r, top);
    assert w[..|w|] == w;
  }

  // ---------- sums of prefixes ----------

  lemma SumHeads(s: seq<nat>, k: nat, c: nat)
    requires c <= 2 && k + c <= |s|
    ensures Sum(s[..k + c]) == Sum(s[..k]) + (if c >= 1 then s[k] else 0) + (if c == 2 then s[k + 1] else 0)
  {
    hide Sum;
    if c >= 1 {
      SumSnoc(s, k);
    }
    if c == 2 {
      SumSnoc(s, k + 1);
    }
  }

  /** The first `m` nodes weigh what their children weigh. */
  lemma {:induction false} PrefixSums(f: seq<nat>, w: seq<nat>, p: seq<nat>, h: History, m: nat)
    requires MergesRecorded(f, w, p, h) && m <= |w|
    ensures h.roots[m] <= m && 2 * m - h.roots[m] <= |f|
    ensures Sum(w[..m]) == Sum(w[..h.roots[m]]) + Sum(f[..2 * m - h.roots[m]])
  {
    hide Sum, MergesRecorded;
    StepRange(f, w, p, h, m);
    if m == 0 {
      RootsStart(f, w, p, h);
      assert w[..0] == f[..0] == [];
      SumNone();
    } else {
      PrefixSums(f, w, p, h, m - 1);
      StepIs(f, w, p, h, m - 1);
      StepRange(f, w, p, h, m - 1);
      var c := h.roots[m] - h.roots[m - 1];
      SumHeads(w, h.roots[m - 1], c);
      SumHeads(f, 2 * (m - 1) - h.roots[m - 1], 2 - c);
      SumSnoc(w, m - 1);
      assert 2 * (m - 1) - h.roots[m - 1] + (2 - c) == 2 * m - h.roots[m];
    }
  }

  // ---------- growth ----------

  /** Weights are picked in ascending order. */
  lemma PicksGrow(f: seq<nat>, w: seq<nat>, p: seq<nat>, h: History, m: nat)
    requires Ascending(f) && Ascending(w) && MergesRecorded(f, w, p, h) && m + 1 < |w|
    ensures |h.ys| == |h.xs| == |w| && h.ys[m] <= h.xs[m + 1]
  {
    hide MergesRecorded;
    StepIs(f, w, p, h, m);
    StepIs(f, w, p, h, m + 1);
    StepRange(f, w, p, h, m + 1);
    var root, leaf := h.roots[m + 1], 2 * (m + 1) - h.roots[m + 1];
    if root < m {
      assert h.ys[m] <= w[..m][root] == w[..m + 1][root];
    } else {
      assert w[..m + 1][root] == w[m];
    }
    assert leaf == 2 * m - h.roots[m] + 2 - (root - h.roots[m]);
  }

  /** All leaves merged by node `m` or before it are picks no heavier than its own. */
  lemma {:induction false} LeavesPicked(f: seq<nat>, w: seq<nat>, p: seq<nat>, h: History, m: nat, k: nat)
    requires Ascending(f) && Ascending(w) && MergesRecorded(f, w, p, h) && m < |w|
    requires k < 2 * (m + 1) - h.roots[m + 1]
    ensures |h.ys| == |h.xs| == |w| && k < |f| && f[k] <= h.ys[m]
  {
    hide MergesRecorded;
    StepIs(f, w, p, h, m);
    StepRange(f, w, p, h, m + 1);
    if k < 2 * m - h.roots[m] {
      if m == 0 {
        RootsStart(f, w, p, h);
        assert false;
      } else {
        LeavesPicked(f, w, p, h, m - 1, k);
        PicksGrow(f, w, p, h, m - 1);
      }
    }
  }

  /** A leaf is no heavier than a node made with it or later, and half as heavy as any after that. */
  lemma LeafOutweighed(f: seq<nat>, w: seq<nat>, p: seq<nat>, h: History, m: nat, n: nat, k: nat)
    requires Ascending(f) && Ascending(w) && MergesRecorded(f, w, p, h) && m < |w|
    requires k < 2 * (m + 1) - h.roots[m + 1]
    ensures k < |f| && f[k] <= w[m]
    ensures m < n < |w| ==> 2 * f[k] <= w[n]
  {
    hide MergesRecorded;
    LeavesPicked(f, w, p, h, m, k);
    StepIs(f, w, p, h, m);
    assert w[m] == h.xs[m] + h.ys[m];
    if m < n < |w| {
      PicksGrow(f, w, p, h, m);
      StepIs(f, w, p, h, m + 1);
      assert w[m + 1] <= w[n];
    }
  }
}
