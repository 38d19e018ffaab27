/** `tdefl_calculate_minimum_redundancy` (src/external/miniz.h:2671-2714): Moffat and Katajainen's
    in-place Huffman code lengths.  One array holds in turn leaf weights, internal weights, parent
    indices, internal depths and finally the code lengths. */
module MinRedundancy {
  import opened Bits
  import opened HuffmanCost
  import opened MergeQueues
  import opened OptimalCode

  /** `TDEFL_MAX_SUPPORTED_HUFF_CODESIZE` */
  const MAX_SUPPORTED: nat := 32

  // ---------- phase 2: depths of internal nodes ----------

  /** The depth of internal node `k` below the root, node `|p|`. */
  function Depth(p: seq<nat>, k: nat): (d: nat)
    requires Shape(p, |p|) && k <= |p|
    ensures d <= |p| - k
    decreases |p| - k
  {
    if k == |p| then 0 else 1 + Depth(p, p[k])
  }

  lemma {:induction false} DepthMono(p: seq<nat>, i: nat, j: nat)
    requires Shape(p, |p|) && i <= j <= |p|
    ensures Depth(p, i) >= Depth(p, j)
    decreases |p| - i
  {
    if j < |p| {
      DepthMono(p, p[i], p[j]);
    }
  }

  lemma PositiveDepth(p: seq<nat>, k: nat)
    requires Shape(p, |p|) && k < |p|
    ensures Depth(p, k) > 0
  {
  }

  lemma DeeperEarlier(p: seq<nat>, i: nat, j: nat)
    requires Shape(p, |p|) && i <= |p| && j <= |p| && Depth(p, i) < Depth(p, j)
    ensures j < i
  {
    if i <= j {
      DepthMono(p, i, j);
    }
  }

  method InternalDepths(a: array<nat>, ghost p: seq<nat>)
    requires a.Length >= 2 && |p| == a.Length - 2 && Shape(p, |p|)
    requires forall k :: 0 <= k < |p| ==> a[k] == p[k]
    modifies a
    ensures forall k :: 0 <= k <= |p| ==> a[k] == Depth(p, k)
  {
    var n := a.Length;
    a[n - 2] := 0;
    var next := n - 3;
    while next >= 0
      invariant -1 <= next <= n - 3
      invariant forall k :: 0 <= k <= next ==> a[k] == p[k]
      invariant forall k :: next < k <= n - 2 ==> a[k] == Depth(p, k)
    {
      a[next] := a[a[next]] + 1;
      next := next - 1;
    }
  }

  // ---------- phase 3: depths of leaves ----------

  /** A run of nodes at depth `d` whose parents lie in `[lo, hi]` is at most twice as long as that. */
  lemma {:induction false} RunLength(p: seq<nat>, i: nat, j: nat, lo: nat)
    requires Shape(p, |p|) && i <= j < |p| && p[i] >= lo
    ensures p[j] >= lo + (j - i) / 2
    decreases j
  {
    if j >= i + 2 {
      RunLength(p, i, j - 2, lo);
    }
  }

  /** Nodes `(root, top]` have depth `d`; those `used` nodes above them have depth `d - 1`. */
  lemma LevelFits(p: seq<nat>, root: int, top: int, prev: nat, d: nat)
    requires Shape(p, |p|) && -1 <= root <= top <= |p|
    requires forall k :: root < k <= top ==> Depth(p, k) == d
    requires if d == 0 then top == |p| else
      top < |p| && top + prev <= |p| && forall k :: top + prev < k <= |p| ==> Depth(p, k) < d - 1
    ensures d == 0 ==> top - root <= 1
    ensures d > 0 ==> top - root <= 2 * prev
  {
    if root < top {
      if d == 0 {
        if root + 1 < |p| {
          PositiveDepth(p, root + 1);
        }
      } else {
        var i, j := root + 1, top;
        assert Depth(p, i) == d && Depth(p, j) == d;
        assert Depth(p, p[i]) == d - 1 && Depth(p, p[j]) == d - 1;
        DeeperEarlier(p, p[i], top);
        RunLength(p, i, j, top + 1);
        assert p[j] <= top + prev;
      }
    }
  }

  /** Internal nodes up to `root` are still to be visited, and lie at depth `d` or below. */
  ghost predicate Unvisited(a: seq<nat>, p: seq<nat>, root: int, d: nat)
    requires Shape(p, |p|)
  {
    && -1 <= root <= |p| < |a|
    && (forall k :: 0 <= k <= root ==> a[k] == Depth(p, k) && a[k] >= d)
    && (forall k :: root < k <= |p| ==> Depth(p, k) < d)
  }

  /** The `prev` nodes after `root` are the ones at depth `d - 1`. */
  ghost predicate LastLevel(p: seq<nat>, root: int, avbl: nat, prev: nat, d: nat)
    requires Shape(p, |p|)
  {
    if d == 0 then root == |p| && avbl == 1
    else
      && avbl == 2 * prev && -1 <= root && root + prev <= |p|
      && forall k :: root + prev < k <= |p| ==> Depth(p, k) < d - 1
  }

  /** The leaves after `next` have their lengths, and `avbl` free slots at depth `d` complete the Kraft sum. */
  ghost predicate LeavesDone(a: seq<nat>, next: int, avbl: nat, d: nat, m: nat) {
    && -1 <= next < |a|
    && (avbl > 0 ==> d <= m)
    && (forall k :: next < k < |a| ==> 1 <= a[k] <= d && a[k] <= m)
    && NonIncreasing(a[next + 1..])
    && Kraft(a[next + 1..], m) + (if avbl > 0 then avbl * Pow2(m - d) else 0) == Pow2(m)
  }

  /** Phase 3 between two levels: unvisited internal depths in `[0, root]`, leaf lengths after `next`. */
  ghost predicate Levels(a: seq<nat>, p: seq<nat>, root: int, next: int, avbl: nat, prev: nat, d: nat, m: nat) {
    && Shape(p, |p|) && |a| == |p| + 2 && next == root + avbl
    && Unvisited(a, p, root, d) && LastLevel(p, root, avbl, prev, d) && LeavesDone(a, next, avbl, d, m)
  }

  /** The lengths of a complete code, longest first. */
  ghost predicate CompleteLengths(lens: seq<nat>, m: nat) {
    && NonIncreasing(lens)
    && (forall k :: 0 <= k < |lens| ==> 1 <= lens[k] <= m)
    && Kraft(lens, m) == Pow2(m)
  }

  lemma KraftCons(a: seq<nat>, next: nat, m: nat)
    requires next < |a| && forall k :: next <= k < |a| ==> a[k] <= m
    ensures Kraft(a[next..], m) == Pow2(m - a[next]) + Kraft(a[next + 1..], m)
  {
    assert a[next..][1..] == a[next + 1..];
  }

  /** `while (root >= 0 && A[root].m_key == dpth) { used++; root--; }` */
  method CountLevel(a: array<nat>, root0: int, avbl: nat, d: nat, ghost p: seq<nat>, ghost prev: nat)
    returns (root: int, used: nat)
    requires Shape(p, |p|) && a.Length == |p| + 2
    requires Unvisited(a[..], p, root0, d) && LastLevel(p, root0, avbl, prev, d)
    ensures root == root0 - used && used <= avbl && (d == 0 ==> used == 1)
    ensures Unvisited(a[..], p, root, d + 1) && LastLevel(p, root, 2 * used, used, d + 1)
    ensures used > 0 ==> Depth(p, 0) >= d
  {
    root, used := root0, 0;
    while root >= 0 && a[root] == d
      invariant -1 <= root <= root0 && used == root0 - root
      invariant forall k :: root < k <= root0 ==> Depth(p, k) == d
    {
      used := used + 1;
      root := root - 1;
    }
    assert Depth(p, |p|) == 0;
    LevelFits(p, root, root0, prev, d);
    if root >= 0 {
      forall k | 0 <= k <= root
        ensures Depth(p, k) >= Depth(p, root)
      {
        DepthMono(p, k, root);
      }
    }
    if used > 0 {
      DepthMono(p, 0, root0);
    }
  }

  lemma MulPred(k: nat, x: nat)
    requires k > 0
    ensures k * x == (k - 1) * x + x
  {
  }

  /** `while (avbl > used) { A[next--].m_key = dpth; avbl--; }` */
  method AssignLevel(a: array<nat>, next0: int, avbl0: nat, used: nat, d: nat, ghost m: nat) returns (next: int)
    requires 0 < used <= avbl0 || (used <= avbl0 && d > 0)
    requires d == 0 ==> used == avbl0
    requires avbl0 > 0 && avbl0 - used - 1 <= next0 < a.Length && LeavesDone(a[..], next0, avbl0, d, m)
    modifies a
    ensures next == next0 - (avbl0 - used)
    ensures forall k :: 0 <= k <= next || next0 < k < a.Length ==> a[k] == old(a[k])
    ensures forall k :: next < k <= next0 ==> a[k] == d
    ensures LeavesDone(a[..], next, used, d, m)
  {
    hide Kraft, NonIncreasing, LeavesDone, Pow2;
    next := next0;
    var avbl := avbl0;
    while avbl > used
      invariant used <= avbl <= avbl0 && next == next0 - (avbl0 - avbl)
      invariant forall k :: 0 <= k <= next || next0 < k < a.Length ==> a[k] == old(a[k])
      invariant forall k :: next < k <= next0 ==> a[k] == d
      invariant LeavesDone(a[..], next, avbl, d, m)
    {
      ghost var before := a[..];
      a[next] := d;
      next := next - 1;
      OneMoreLeaf(before, a[..], next, avbl, d, m);
      avbl := avbl - 1;
    }
  }

  lemma OneMoreLeaf(a: seq<nat>, a': seq<nat>, next: int, avbl: nat, d: nat, m: nat)
    requires avbl > 0 && d > 0 && -1 <= next < |a| - 1 && a' == a[next + 1 := d]
    requires LeavesDone(a, next + 1, avbl, d, m)
    ensures LeavesDone(a', next, avbl - 1, d, m)
  {
    assert a'[next + 2..] == a[next + 2..];
    KraftCons(a', next + 1, m);
    MulPred(avbl, Pow2(m - d));
    var s, t := a'[next + 1..], a[next + 2..];
    assert s == [d] + t;
    assert NonIncreasing(s) by {
      forall i, j | 0 <= i <= j < |s|
        ensures s[i] >= s[j]
      {
        if i == 0 && j > 0 {
          assert s[j] == a[next + 1 + j];
        } else if i > 0 {
          assert s[i] == t[i - 1] && s[j] == t[j - 1];
        }
      }
    }
  }

  /** Going one level down doubles the slots and halves their worth. */
  lemma NextLevel(a: seq<nat>, next: int, used: nat, d: nat, m: nat)
    requires LeavesDone(a, next, used, d, m) && (used > 0 ==> d + 1 <= m)
    ensures LeavesDone(a, next, 2 * used, d + 1, m)
  {
    if used > 0 {
      assert Pow2(m - d) == 2 * Pow2(m - (d + 1));
      Doubled(used, Pow2(m - (d + 1)));
    }
  }

  lemma Doubled(k: nat, x: nat)
    ensures k * (2 * x) == (2 * k) * x
  {
  }

  /** The parent of an unvisited node is on the last level, so that level is not empty. */
  lemma ParentLevel(p: seq<nat>, root: int, prev: nat, d: nat)
    requires Shape(p, |p|) && 0 <= root <= |p| && d > 0 && root + prev <= |p| && Depth(p, root) >= d
    requires forall k :: root + prev < k <= |p| ==> Depth(p, k) < d - 1
    ensures prev > 0
  {
    assert Depth(p, p[root]) == Depth(p, root) - 1;
  }

  lemma UnvisitedDepth(a: seq<nat>, p: seq<nat>, root: int, d: nat)
    requires Shape(p, |p|) && Unvisited(a, p, root, d) && root >= 0
    ensures Depth(p, root) >= d
  {
  }

  lemma NoSlots(a: seq<nat>, d: nat, m: nat)
    requires LeavesDone(a, -1, 0, d, m)
    ensures CompleteLengths(a, m)
  {
    assert a[0..] == a;
  }

  /** When no slot is left, no internal node is left either. */
  lemma LevelsDone(a: seq<nat>, p: seq<nat>, root: int, next: int, prev: nat, d: nat, m: nat)
    requires Levels(a, p, root, next, 0, prev, d, m)
    ensures next == -1 && CompleteLengths(a, m)
  {
    hide Kraft, NonIncreasing, Unvisited, LeavesDone;
    LevelsRange(a, p, root, next, 0, prev, d, m);
    if root >= 0 {
      UnvisitedDepth(a, p, root, d);
      ParentLevel(p, root, prev, d);
    }
    NoSlots(a, d, m);
  }

  /** The leaves in `(next, next0]` have got length `d`. */
  ghost predicate GivenLevel(was: seq<nat>, a: seq<nat>, next0: int, next: int, d: nat) {
    && |a| == |was| && -1 <= next <= next0 < |a|
    && (forall k :: next0 < k < |a| ==> a[k] == was[k])
    && (forall k :: next < k <= next0 ==> a[k] == d)
  }

  /** One round of the outer loop: count the internal nodes of a level, give the other slots to leaves. */
  method OneLevel(a: array<nat>, root0: int, next0: int, avbl: nat, dpth: nat, ghost p: seq<nat>, ghost prev: nat,
                  ghost m: nat)
    returns (root: int, next: int, used: nat)
    requires avbl > 0 && -1 <= root0 && Levels(a[..], p, root0, next0, avbl, prev, dpth, m)
    requires Shape(p, |p|) && Depth(p, 0) + 1 <= m
    modifies a
    ensures -1 <= root <= root0 && used == root0 - root && next == root + 2 * used <= next0 < a.Length
    ensures Levels(a[..], p, root, next, 2 * used, used, dpth + 1, m)
    ensures GivenLevel(old(a[..]), a[..], next0, next, dpth)
  {
    hide Kraft, NonIncreasing, Shape, LeavesDone, LastLevel, Unvisited, Levels, Depth;
    LevelsRange(a[..], p, root0, next0, avbl, prev, dpth, m);
    root, used := CountLevel(a, root0, avbl, dpth, p, prev);
    ghost var was := a[..];
    next := AssignLevel(a, next0, avbl, used, dpth, m);
    UnvisitedKept(was, a[..], p, root, dpth + 1);
    NextLevel(a[..], next, used, dpth, m);
    LevelsStep(a[..], p, root, next, used, dpth, m);
  }

  lemma CompleteMeans(lens: seq<nat>, m: nat)
    requires CompleteLengths(lens, m)
    ensures NonIncreasing(lens) && (forall k :: 0 <= k < |lens| ==> 1 <= lens[k] <= m) && Kraft(lens, m) == Pow2(m)
  {
    hide NonIncreasing, Kraft;
  }

  lemma LevelsStart(a: seq<nat>, p: seq<nat>, m: nat)
    requires |a| == |p| + 2 && Shape(p, |p|) && forall k :: 0 <= k <= |p| ==> a[k] == Depth(p, k)
    ensures Levels(a, p, |p|, |p| + 1, 1, 0, 0, m)
  {
    assert a[|a|..] == [];
    MulPred(1, Pow2(m));
  }

  lemma LevelsStep(a: seq<nat>, p: seq<nat>, root: int, next: int, used: nat, d: nat, m: nat)
    requires Shape(p, |p|) && |a| == |p| + 2 && next == root + 2 * used
    requires Unvisited(a, p, root, d + 1) && LastLevel(p, root, 2 * used, used, d + 1)
    requires LeavesDone(a, next, 2 * used, d + 1, m)
    ensures Levels(a, p, root, next, 2 * used, used, d + 1, m)
  {
  }

  lemma LevelsRange(a: seq<nat>, p: seq<nat>, root: int, next: int, avbl: nat, prev: nat, d: nat, m: nat)
    requires Levels(a, p, root, next, avbl, prev, d, m)
    ensures -1 <= root <= |p| && (d == 0 ==> avbl == 1) && next == root + avbl && Shape(p, |p|) && |a| == |p| + 2
    ensures Unvisited(a, p, root, d) && LastLevel(p, root, avbl, prev, d) && LeavesDone(a, next, avbl, d, m)
  {
  }

  lemma UnvisitedKept(a: seq<nat>, a': seq<nat>, p: seq<nat>, root: int, d: nat)
    requires Shape(p, |p|) && Unvisited(a, p, root, d) && |a'| == |a|
    requires forall k :: 0 <= k <= root ==> a'[k] == a[k]
    ensures Unvisited(a', p, root, d)
  {
  }

  // ---------- how deep the tree can be ----------

  function Fib(n: nat): nat {
    if n < 2 then n else Fib(n - 1) + Fib(n - 2)
  }

  /** Weights grow at least like Fibonacci numbers towards the root. */
  lemma {:induction false} RootOutweighs(w: seq<nat>, p: seq<nat>, k: nat)
    requires Shape(p, |p|) && |w| == |p| + 1 && Growth(w, p) && k < |p|
    ensures Fib(Depth(p, k)) * w[p[k]] + Fib(Depth(p, k) - 1) * w[k] <= w[|p|]
    decreases |p| - k
  {
    var d := Depth(p, k);
    if p[k] == |p| {
      assert d == 1;
    } else {
      var q := p[k];
      RootOutweighs(w, p, q);
      assert w[p[q]] >= w[q] + w[k];
      FibStep(Fib(d - 1), Fib(d - 2), w[p[q]], w[q], w[k]);
      assert Fib(d) == Fib(d - 1) + Fib(d - 2);
    }
  }

  lemma FibStep(f1: nat, f2: nat, wpp: nat, wp: nat, w: nat)
    requires wpp >= wp + w
    ensures (f1 + f2) * wp + f1 * w <= f1 * wpp + f2 * wp
  {
    assert f1 * wpp == f1 * (wp + w) + f1 * (wpp - wp - w);
    assert f1 * (wpp - wp - w) >= 0;
  }

  lemma {:induction false} FibMono(m: nat, n: nat)
    requires 1 <= m <= n
    ensures Fib(m) <= Fib(n)
  {
    if m < n {
      FibMono(m, n - 1);
    }
  }

  lemma FibValues()
    ensures Fib(21) == 10946 && Fib(22) == 17711
  {
    assert Fib(7) == 13 && Fib(8) == 21;
    assert Fib(13) == 233 && Fib(14) == 377;
    assert Fib(19) == 4181 && Fib(20) == 6765;
  }

  /** Sixteen-bit weights give internal depths of at most 21, hence code lengths of at most 22. */
  lemma DepthBound(w: seq<nat>, p: seq<nat>)
    requires Shape(p, |p|) && |w| == |p| + 1 && Growth(w, p) && w[|p|] < 65536
    ensures Depth(p, 0) <= 21
  {
    if |p| > 0 && Depth(p, 0) >= 22 {
      RootOutweighs(w, p, 0);
      var d := Depth(p, 0);
      FibValues();
      FibMono(22, d);
      FibMono(21, d - 1);
      TimesAtLeast(Fib(d), w[p[0]], 17711, 3);
      TimesAtLeast(Fib(d - 1), w[0], 10946, 2);
      assert false;
    }
  }

  lemma TimesAtLeast(a: nat, b: nat, x: nat, y: nat)
    requires x <= a && y <= b
    ensures x * y <= a * b
  {
    assert a * b == x * y + x * (b - y) + (a - x) * b;
    assert x * (b - y) >= 0 && (a - x) * b >= 0;
  }

  // ---------- what the lengths cost ----------

  /** Up to `r` the nodes lie at depth `d` or below, after it above. */
  ghost predicate Cut(p: seq<nat>, r: int, d: nat)
    requires Shape(p, |p|)
  {
    && -1 <= r <= |p|
    && (forall k :: 0 <= k <= r ==> Depth(p, k) >= d)
    && (forall k :: r < k <= |p| ==> Depth(p, k) < d)
  }

  lemma UnvisitedCut(a: seq<nat>, p: seq<nat>, root: int, d: nat)
    requires Shape(p, |p|) && Unvisited(a, p, root, d)
    ensures Cut(p, root, d)
  {
  }

  /** The nodes one level down are the children of the nodes above the cut. */
  lemma CutRoots(f: seq<nat>, w: seq<nat>, p: seq<nat>, h: History, r: int, s: int, d: nat)
    requires Shape(p, |p|) && |w| == |p| + 1 && MergesRecorded(f, w, p, h) && Cut(p, r, d) && Cut(p, s, d + 1)
    ensures |h.roots| == |w| + 1 && h.roots[r + 1] == s + 1
  {
    var n := h.roots[r + 1];
    assert ParentsBelow(p, r + 1, n);
    assert Depth(p, |p|) == 0;
    if n < s + 1 {
      ParentCut(p, r, s, d, n);
    } else if s + 1 < n {
      ParentCut(p, r, s, d, s + 1);
    }
  }

  lemma ParentCut(p: seq<nat>, r: int, s: int, d: nat, k: nat)
    requires Shape(p, |p|) && Cut(p, r, d) && Cut(p, s, d + 1) && k < |p|
    ensures p[k] < r + 1 <==> k <= s
  {
    assert Depth(p, k) == 1 + Depth(p, p[k]);
  }

  lemma {:induction false} CostGiven(f: seq<nat>, a: seq<nat>, lo: nat, hi: nat, d: nat)
    requires |f| == |a| && lo <= hi <= |a| && forall k :: lo <= k < hi ==> a[k] == d
    ensures Cost(f[lo..], a[lo..]) + d * Sum(f[..lo]) == Cost(f[hi..], a[hi..]) + d * Sum(f[..hi])
    decreases hi - lo
  {
    hide Sum;
    if lo < hi {
      CostGiven(f, a, lo + 1, hi, d);
      assert f[lo..][1..] == f[lo + 1..] && a[lo..][1..] == a[lo + 1..];
      SumSnoc(f, lo);
      DistributeLeft(d, Sum(f[..lo]), f[lo]);
    }
  }

  lemma DistributeLeft(d: nat, x: nat, y: nat)
    ensures d * (x + y) == d * x + y * d
  {
  }

  lemma FibNext(n: nat)
    ensures Fib(n + 2) == Fib(n + 1) + Fib(n)
  {
  }

  /** A leaf below node `m`, at depth `d`, weighs at most the total divided by a Fibonacci number. */
  lemma LeafFib(f: seq<nat>, w: seq<nat>, p: seq<nat>, h: History, m: nat, k: nat)
    requires Shape(p, |p|) && |w| == |p| + 1 && Growth(w, p) && Ascending(f) && Ascending(w)
    requires MergesRecorded(f, w, p, h)
    requires m <= |p| && |h.roots| == |w| + 1 && k < 2 * (m + 1) - h.roots[m + 1]
    ensures k < |f| && f[k] * Fib(Depth(p, m) + 2) <= w[|p|]
  {
    hide MergesRecorded, Fib;
    var d := Depth(p, m);
    if m == |p| {
      LeafOutweighed(f, w, p, h, m, m, k);
      FibTwo();
    } else {
      LeafOutweighed(f, w, p, h, m, p[m], k);
      RootOutweighs(w, p, m);
      FibNext(d);
      FibNext(d - 1);
      LeafFibStep(f[k], Fib(d), Fib(d - 1), w[p[m]], w[m]);
    }
  }

  lemma FibTwo()
    ensures Fib(2) == 1
  {
  }

  lemma LeafFibStep(f: nat, f1: nat, f2: nat, wp: nat, w: nat)
    requires f <= w && 2 * f <= wp
    ensures f * (f1 + f2 + f1) <= f1 * wp + f2 * w
  {
    assert f1 * wp - f1 * (2 * f) == f1 * (wp - 2 * f) >= 0;
    assert f2 * w - f2 * f == f2 * (w - f) >= 0;
  }

  /** The lengths given so far, with the least that the others can get, cost as much as the nodes visited weigh. */
  ghost predicate Accounted(f: seq<nat>, w: seq<nat>, p: seq<nat>, a: seq<nat>, root: int, next: int, prev: nat, d: nat)
    requires Shape(p, |p|)
  {
    && |f| == |a| && |w| == |p| + 1 && -1 <= next < |a| && -1 <= root <= |p|
    && Cost(f[next + 1..], a[next + 1..]) + d * Sum(f[..next + 1]) + Sum(w[..root + 1]) == Sum(w)
    && (forall k :: next < k < |a| ==> f[k] * Fib(a[k] + 1) <= w[|p|])
    && (d > 0 ==> Cut(p, root + prev, d - 1))
  }

  lemma AccountLevel(f: seq<nat>, w: seq<nat>, p: seq<nat>, h: History, was: seq<nat>, a: seq<nat>,
                     root0: int, next0: int, prev: nat, d: nat, root: int, next: int)
    requires Shape(p, |p|) && Growth(w, p) && Ascending(f) && Ascending(w) && MergesRecorded(f, w, p, h)
    requires Accounted(f, w, p, was, root0, next0, prev, d) && GivenLevel(was, a, next0, next, d)
    requires Cut(p, root0, d) && Cut(p, root, d + 1) && root <= root0
    requires next == root + 2 * (root0 - root) && (d == 0 ==> next == next0) && (d > 0 ==> next0 == root0 + 2 * prev)
    ensures Accounted(f, w, p, a, root, next, root0 - root, d + 1)
  {
    hide Sum, Cost, MergesRecorded, Fib, Shape, Growth, Ascending, Depth;
    CutRoots(f, w, p, h, root0, root, d);
    PrefixSums(f, w, p, h, root0 + 1);
    CostGiven(f, a, next + 1, next0 + 1, d);
    assert f[next0 + 1..] == f[next0 + 1..] && a[next0 + 1..] == was[next0 + 1..];
    DistributeOne(d, Sum(f[..next + 1]));
    forall k | next < k < |a|
      ensures f[k] * Fib(a[k] + 1) <= w[|p|]
    {
      if k <= next0 {
        GivenFib(f, w, p, h, root0, next0, prev, d, k);
      }
    }
  }

  lemma DistributeOne(d: nat, x: nat)
    ensures (d + 1) * x == d * x + x
  {
  }

  lemma GivenFib(f: seq<nat>, w: seq<nat>, p: seq<nat>, h: History, root0: int, next0: int, prev: nat, d: nat, k: nat)
    requires Shape(p, |p|) && |w| == |p| + 1 && Growth(w, p) && Ascending(f) && Ascending(w)
    requires MergesRecorded(f, w, p, h)
    requires d > 0 && Cut(p, root0, d) && Cut(p, root0 + prev, d - 1) && next0 == root0 + 2 * prev && k <= next0
    ensures k < |f| && f[k] * Fib(d + 1) <= w[|p|]
  {
    hide MergesRecorded, Fib, Growth, Ascending;
    CutRoots(f, w, p, h, root0 + prev, root0, d - 1);
    if root0 + prev < 0 {
      assert false;
    }
    if prev == 0 {
      NotBoth(p, root0, d);
      assert false;
    }
    LeafFib(f, w, p, h, root0 + prev, k);
  }

  /** No level is skipped. */
  lemma NotBoth(p: seq<nat>, r: int, d: nat)
    requires Shape(p, |p|) && d > 0 && Cut(p, r, d) && Cut(p, r, d - 1)
    ensures r == -1
  {
    assert Depth(p, |p|) == 0;
    assert 0 <= r < |p| ==> p[r] > r && Depth(p, p[r]) == Depth(p, r) - 1;
  }

  lemma AccountStart(f: seq<nat>, w: seq<nat>, p: seq<nat>, a: seq<nat>)
    requires Shape(p, |p|) && |f| == |a| == |p| + 2 && |w| == |p| + 1
    ensures Accounted(f, w, p, a, |p|, |p| + 1, 0, 0)
  {
    assert w[..|p| + 1] == w && f[|a|..] == [] && a[|a|..] == [];
  }

  lemma AccountEnd(f: seq<nat>, w: seq<nat>, p: seq<nat>, a: seq<nat>, root: int, prev: nat, d: nat)
    requires Shape(p, |p|) && Accounted(f, w, p, a, root, -1, prev, d) && root == -1
    ensures Cost(f, a) == Sum(w) && FibBounded(f, a, w[|p|])
  {
    hide Fib;
    assert f[0..] == f && a[0..] == a && f[..0] == [] && w[..0] == [];
  }

  /** No symbol is heavier, for its length, than Fibonacci numbers allow. */
  ghost predicate FibBounded(f: seq<nat>, lens: seq<nat>, total: nat)
    requires |f| == |lens|
  {
    forall k :: 0 <= k < |f| ==> f[k] * Fib(lens[k] + 1) <= total
  }

  /** A round of the outer loop, with its account. */
  method CountedLevel(a: array<nat>, root0: int, next0: int, avbl: nat, dpth: nat, ghost p: seq<nat>, ghost prev: nat,
                      ghost m: nat,
                      ghost f: seq<nat>, ghost w: seq<nat>, ghost h: History)
    returns (root: int, next: int, used: nat)
    requires avbl > 0 && -1 <= root0 && Levels(a[..], p, root0, next0, avbl, prev, dpth, m)
    requires Shape(p, |p|) && Depth(p, 0) + 1 <= m
    requires Growth(w, p) && Ascending(f) && Ascending(w) && MergesRecorded(f, w, p, h)
    requires Accounted(f, w, p, a[..], root0, next0, prev, dpth)
    modifies a
    ensures -1 <= root <= root0 && (root == root0 ==> used == 0)
    ensures Levels(a[..], p, root, next, 2 * used, used, dpth + 1, m)
    ensures Accounted(f, w, p, a[..], root, next, used, dpth + 1)
  {
    hide Kraft, NonIncreasing, Shape, LeavesDone, Unvisited, Levels, Depth, Accounted, Growth, Ascending,
      MergesRecorded, Cut, GivenLevel, Sum;
    ghost var was := a[..];
    LevelCut(was, p, root0, next0, avbl, prev, dpth, m);
    root, next, used := OneLevel(a, root0, next0, avbl, dpth, p, prev, m);
    LevelCut(a[..], p, root, next, 2 * used, used, dpth + 1, m);
    RootOnly(p, root0, root, dpth);
    AccountLevel(f, w, p, h, was, a[..], root0, next0, prev, dpth, root, next);
  }

  lemma LevelCut(a: seq<nat>, p: seq<nat>, root: int, next: int, avbl: nat, prev: nat, d: nat, m: nat)
    requires Levels(a, p, root, next, avbl, prev, d, m)
    ensures Shape(p, |p|) && Cut(p, root, d)
    ensures if d == 0 then root == |p| && next == |p| + 1 else next == root + 2 * prev
  {
    UnvisitedCut(a, p, root, d);
  }

  /** At depth 0 there is only the root. */
  lemma RootOnly(p: seq<nat>, root0: int, root: int, d: nat)
    requires Shape(p, |p|) && Cut(p, root0, d) && Cut(p, root, d + 1)
    ensures d == 0 && root0 == |p| ==> root == root0 - 1
  {
    if d == 0 && root0 == |p| {
      assert Depth(p, |p|) == 0;
      if root < |p| - 1 {
        PositiveDepth(p, |p| - 1);
      }
    }
  }

  /** Phase 3. */
  method LeafDepths(a: array<nat>, ghost p: seq<nat>, ghost m: nat, ghost f: seq<nat>, ghost w: seq<nat>,
                    ghost h: History)
    requires a.Length >= 2 && |p| == a.Length - 2 && Shape(p, |p|)
    requires forall k :: 0 <= k <= |p| ==> a[k] == Depth(p, k)
    requires Depth(p, 0) + 1 <= m
    requires |f| == a.Length && |w| == |p| + 1 && Growth(w, p) && Ascending(f) && Ascending(w)
    requires MergesRecorded(f, w, p, h)
    modifies a
    ensures NonIncreasing(a[..])
    ensures forall k :: 0 <= k < a.Length ==> 1 <= a[k] <= m
    ensures Kraft(a[..], m) == Pow2(m)
    ensures Cost(f, a[..]) == Sum(w) && FibBounded(f, a[..], w[|p|])
  {
    hide Kraft, NonIncreasing, Shape, Levels, Depth, Pow2, CompleteLengths, Accounted, Growth, Ascending,
      MergesRecorded, Cost, Sum, FibBounded;
    var n := a.Length;
    var avbl, dpth := 1, 0;
    var root, next := n - 2, n - 1;
    ghost var prev := 0;
    LevelsStart(a[..], p, m);
    AccountStart(f, w, p, a[..]);
    while avbl > 0
      invariant -1 <= root
      invariant Levels(a[..], p, root, next, avbl, prev, dpth, m)
      invariant Accounted(f, w, p, a[..], root, next, prev, dpth)
      decreases root, avbl
    {
      var used;
      root, next, used := CountedLevel(a, root, next, avbl, dpth, p, prev, m, f, w, h);
      avbl := 2 * used;
      prev := used;
      dpth := dpth + 1;
    }
    LevelsRange(a[..], p, root, next, avbl, prev, dpth, m);
    LevelsDone(a[..], p, root, next, prev, dpth, m);
    AccountEnd(f, w, p, a[..], root, prev, dpth);
    CompleteMeans(a[..], m);
  }

  lemma AllOptimal(f: seq<nat>, w: seq<nat>, p: seq<nat>, h: History, lens: seq<nat>)
    requires Ascending(f) && Ascending(w) && MergesRecorded(f, w, p, h) && |lens| == |f| && Cost(f, lens) == Sum(w)
    ensures Optimal(f, lens)
  {
    hide Cost, Sum, MergesRecorded, IsCode, Ascending;
    forall r: seq<nat>, m: nat | |r| == |f| && IsCode(r, m)
      ensures Cost(f, lens) <= Cost(f, r)
    {
      TreeIsOptimal(f, w, p, h, r, m);
    }
  }

  /** The computation for two symbols or more. */
  method HuffmanLengths(a: array<nat>)
    requires a.Length >= 2 && Ascending(a[..]) && Sum(a[..]) < 65536
    requires forall k :: 0 <= k < a.Length ==> a[k] >= 1
    modifies a
    ensures NonIncreasing(a[..])
    ensures forall k :: 0 <= k < a.Length ==> 1 <= a[k] <= 22
    ensures Kraft(a[..], MAX_SUPPORTED) == Pow2(MAX_SUPPORTED)
    ensures Optimal(old(a[..]), a[..]) && FibBounded(old(a[..]), a[..], Sum(old(a[..])))
  {
    hide Kraft, NonIncreasing, Shape, Growth, Pow2, Depth, Sum, Optimal, MergesRecorded, FibBounded, Ascending, Cost;
    ghost var f := a[..];
    ghost var w, p, h := BuildTree(a);
    DepthBound(w, p);
    InternalDepths(a, p);
    LeafDepths(a, p, 22, f, w, h);
    AllOptimal(f, w, p, h, a[..]);
    CompleteScale(a[..], 22, MAX_SUPPORTED - 22);
  }

  /** The whole computation.  Lengths are a complete code, longer for lighter symbols, within the 33 counters of
      `num_codes` with room to spare, and no prefix code needs fewer bits. */
  method CalculateMinimumRedundancy(a: array<nat>)
    requires Ascending(a[..]) && Sum(a[..]) < 65536
    requires forall k :: 0 <= k < a.Length ==> a[k] >= 1
    modifies a
    ensures NonIncreasing(a[..])
    ensures forall k :: 0 <= k < a.Length ==> 1 <= a[k] <= 22
    ensures a.Length == 1 ==> a[0] == 1
    ensures a.Length >= 2 ==> Kraft(a[..], MAX_SUPPORTED) == Pow2(MAX_SUPPORTED)
    ensures a.Length >= 2 ==> Optimal(old(a[..]), a[..]) && FibBounded(old(a[..]), a[..], Sum(old(a[..])))
  {
    hide Kraft, Sum, Optimal, FibBounded, Pow2;
    if a.Length == 0 {
      return;
    } else if a.Length == 1 {
      a[0] := 1;
      return;
    }
    HuffmanLengths(a);
  }

  lemma CompleteScale(lens: seq<nat>, m: nat, e: nat)
    requires forall i :: 0 <= i < |lens| ==> lens[i] <= m
    requires Kraft(lens, m) == Pow2(m)
    ensures Kraft(lens, m + e) == Pow2(m + e)
  {
    KraftScale(lens, m, e);
    Pow2Add(m, e);
  }

  lemma Distribute(a: nat, b: nat, c: nat)
    ensures (a + b) * c == a * c + b * c
  {
  }

  lemma {:induction false} KraftScale(lens: seq<nat>, m: nat, e: nat)
    requires forall i :: 0 <= i < |lens| ==> lens[i] <= m
    ensures Kraft(lens, m + e) == Kraft(lens, m) * Pow2(e)
  {
    hide Pow2;
    if |lens| > 0 {
      KraftScale(lens[1..], m, e);
      Pow2Add(m - lens[0], e);
      Distribute(Pow2(m - lens[0]), Kraft(lens[1..], m), Pow2(e));
    }
  }
}
