/** The first phase of `tdefl_calculate_minimum_redundancy` (src/external/miniz.h:2679-2693): the two queues of
    Moffat and Katajainen's in-place Huffman construction, leaf weights and internal weights in one array. */
module MergeQueues {
  import opened Bits

  function Sum(s: seq<nat>): nat {
    if |s| == 0 then 0 else s[0] + Sum(s[1..])
  }

  predicate Ascending(s: seq<nat>) {
    forall i, j :: 0 <= i <= j < |s| ==> s[i] <= s[j]
  }

  predicate NonIncreasing(s: seq<nat>) {
    forall i, j :: 0 <= i <= j < |s| ==> s[i] >= s[j]
  }

  // ---------- phase 1: the two queues ----------

  /** Parents come later, in the order of their children, and have at most two internal children. */
  ghost predicate Shape(p: seq<nat>, bound: nat) {
    && (forall k :: 0 <= k < |p| ==> k < p[k] <= bound)
    && (forall k, l :: 0 <= k <= l < |p| ==> p[k] <= p[l])
    && (forall k, l :: 0 <= k && l == k + 2 && l < |p| ==> p[k] < p[l])
  }

  /** Each internal node outweighs its child, and its grandparent outweighs both together. */
  ghost predicate Growth(w: seq<nat>, p: seq<nat>) {
    && |p| <= |w|
    && (forall k :: 0 <= k < |w| ==> w[k] >= 2)
    && (forall k :: 0 <= k < |p| && p[k] < |w| ==> w[p[k]] >= w[k] + 1)
    && (forall k :: 0 <= k < |p| && p[k] < |p| && p[p[k]] < |w| ==> w[p[p[k]]] >= w[p[k]] + w[k])
  }

  /** The queues after some merges: `w` are the weights of the internal nodes made so far, the first
      `|p|` of them already merged into their parents `p`; leaves below `leaf` are merged too.
      `b` is the heaviest weight merged so far. */
  ghost predicate Queues(f: seq<nat>, w: seq<nat>, p: seq<nat>, leaf: nat, b: nat) {
    && 0 < |w| && |p| < |w| && leaf == 2 * |w| - |p| && leaf <= |f|
    && (forall k :: 0 <= k < |f| ==> f[k] >= 1)
    && Ascending(f) && Ascending(w)
    && Shape(p, |w| - 1) && Growth(w, p)
    && b <= w[|p|] && (leaf < |f| ==> b <= f[leaf])
    && w[|w| - 1] <= 2 * b
    && (forall k :: 0 <= k < |p| ==> w[k] <= b)
    && Sum(w[|p|..]) + Sum(f[leaf..]) == Sum(f)
  }

  lemma {:induction false} SumSplit(s: seq<nat>, k: nat)
    requires k <= |s|
    ensures Sum(s) == Sum(s[..k]) + Sum(s[k..])
  {
    if k > 0 {
      SumSplit(s[1..], k - 1);
      assert s[1..][..k - 1] == s[..k][1..];
      assert s[1..][k - 1..] == s[k..];
    }
  }

  lemma {:induction false} SumConcat(a: seq<nat>, b: seq<nat>)
    ensures Sum(a + b) == Sum(a) + Sum(b)
  {
    SumSplit(a + b, |a|);
    assert (a + b)[..|a|] == a && (a + b)[|a|..] == b;
  }

  lemma {:induction false} SumMember(s: seq<nat>, k: nat)
    requires k < |s|
    ensures s[k] <= Sum(s)
  {
    SumSplit(s, k);
  }

  /** `c` internal nodes and `2 - c` leaves, of weights `x` and `y`, become the new internal node. */
  ghost predicate Picked(f: seq<nat>, w: seq<nat>, root: nat, leaf: nat, c: nat, x: nat, y: nat) {
    && c <= 2 && root + c <= |w| && leaf + 2 - c <= |f|
    && (c == 2 ==> x == w[root] && y == w[root + 1])
    && (c == 0 ==> x == f[leaf] && y == f[leaf + 1])
    && (c == 1 ==> (x == w[root] && y == f[leaf]) || (x == f[leaf] && y == w[root]))
    && x <= y
    && (root + c < |w| ==> y <= w[root + c])
    && (leaf + 2 - c < |f| ==> y <= f[leaf + 2 - c])
  }

  function Adopted(p: seq<nat>, c: nat, parent: nat): (r: seq<nat>)
    ensures |r| == |p| + c
    decreases c
  {
    if c == 0 then p else Adopted(p, c - 1, parent) + [parent]
  }

  lemma AdoptedTwo(p: seq<nat>, c: nat, parent: nat)
    requires c <= 2
    ensures Adopted(p, c, parent) == p + [parent, parent][..c]
  {
  }

  lemma MergeShape(w: seq<nat>, p: seq<nat>, c: nat)
    requires |p| + c <= |w| && c <= 2 && 0 < |w| && Shape(p, |w| - 1)
    ensures Shape(Adopted(p, c, |w|), |w|)
  {
    AdoptedTwo(p, c, |w|);
  }

  /** A parent weighs more than its child. */
  lemma ParentGrows(f: seq<nat>, w: seq<nat>, p: seq<nat>, leaf: nat, b: nat, c: nat, x: nat, y: nat, k: nat)
    requires Queues(f, w, p, leaf, b) && Picked(f, w, |p|, leaf, c, x, y)
    requires var w', p' := w + [x + y], Adopted(p, c, |w|); k < |p'| && p'[k] < |w'|
    ensures var w', p' := w + [x + y], Adopted(p, c, |w|); w'[p'[k]] >= w'[k] + 1
  {
    hide Sum, Shape, Ascending;
    AdoptedTwo(p, c, |w|);
    PickedBounds(f, w, p, leaf, b, c, x, y);
    ShapeBounds(p, |w| - 1);
    if k >= |p| {
      assert w[k] == x || w[k] == y;
    }
  }

  /** A grandparent weighs as much as child and grandchild together. */
  lemma GrandparentGrows(f: seq<nat>, w: seq<nat>, p: seq<nat>, leaf: nat, b: nat, c: nat, x: nat, y: nat, k: nat)
    requires Queues(f, w, p, leaf, b) && Picked(f, w, |p|, leaf, c, x, y)
    requires var w', p' := w + [x + y], Adopted(p, c, |w|); k < |p'| && p'[k] < |p'| && p'[p'[k]] < |w'|
    ensures var w', p' := w + [x + y], Adopted(p, c, |w|);
      p'[k] < |w'| && k < |w'| && w'[p'[p'[k]]] >= w'[p'[k]] + w'[k]
  {
    hide Sum, Shape, Ascending, Adopted;
    var p' := Adopted(p, c, |w|);
    AdoptedTwo(p, c, |w|);
    ShapeBounds(p, |w| - 1);
    assert k < |p| && p'[k] == p[k];
    if p[k] < |p| {
      assert p'[p[k]] == p[p[k]];
    } else {
      assert p'[p[k]] == |w|;
      assert w[p[k]] == x || w[p[k]] == y;
      PickedBounds(f, w, p, leaf, b, c, x, y);
      assert w[k] <= b;
    }
  }

  lemma MergeGrowth(f: seq<nat>, w: seq<nat>, p: seq<nat>, leaf: nat, b: nat, c: nat, x: nat, y: nat)
    requires Queues(f, w, p, leaf, b) && Picked(f, w, |p|, leaf, c, x, y)
    ensures Growth(w + [x + y], Adopted(p, c, |w|))
  {
    hide Sum, Shape, Ascending;
    AdoptedTwo(p, c, |w|);
    var w', p' := w + [x + y], Adopted(p, c, |w|);
    assert x >= 1 && y >= 1 by { PickedBounds(f, w, p, leaf, b, c, x, y); }
    forall k | 0 <= k < |p'| && p'[k] < |w'|
      ensures w'[p'[k]] >= w'[k] + 1
    {
      ParentGrows(f, w, p, leaf, b, c, x, y, k);
    }
    forall k | 0 <= k < |p'| && p'[k] < |p'| && p'[p'[k]] < |w'|
      ensures w'[p'[p'[k]]] >= w'[p'[k]] + w'[k]
    {
      GrandparentGrows(f, w, p, leaf, b, c, x, y, k);
    }
  }

  ghost predicate ShapeUpper(p: seq<nat>, bound: nat) {
    forall k :: 0 <= k < |p| ==> k < p[k] < bound
  }

  lemma ShapeBounds(p: seq<nat>, bound: nat)
    requires Shape(p, bound)
    ensures ShapeUpper(p, bound + 1)
  {
  }

  lemma PickedBounds(f: seq<nat>, w: seq<nat>, p: seq<nat>, leaf: nat, b: nat, c: nat, x: nat, y: nat)
    requires Queues(f, w, p, leaf, b) && Picked(f, w, |p|, leaf, c, x, y)
    ensures x >= b && y >= b && x >= 1 && y >= 1
  {
    hide Sum, Shape;
  }

  lemma MergeSum(f: seq<nat>, w: seq<nat>, p: seq<nat>, leaf: nat, c: nat, x: nat, y: nat)
    requires leaf <= |f| && |p| < |w| && Picked(f, w, |p|, leaf, c, x, y)
    requires Sum(w[|p|..]) + Sum(f[leaf..]) == Sum(f)
    ensures Sum((w + [x + y])[|p| + c..]) + Sum(f[leaf + 2 - c..]) == Sum(f)
  {
    hide Sum;
    var rest := w[|p| + c..];
    assert (w + [x + y])[|p| + c..] == rest + [x + y];
    SumConcat(rest, [x + y]);
    SumOne(x + y);
    SumTail(w, |p|, c);
    SumTail(f, leaf, 2 - c);
  }

  lemma SumTail(s: seq<nat>, k: nat, c: nat)
    requires c <= 2 && k + c <= |s|
    ensures Sum(s[k..]) == (if c >= 1 then s[k] else 0) + (if c == 2 then s[k + 1] else 0) + Sum(s[k + c..])
  {
    hide Sum;
    if c >= 1 {
      SumHead(s, k);
    }
    if c == 2 {
      SumHead(s, k + 1);
    }
  }

  lemma SumOne(x: nat)
    ensures Sum([x]) == x
  {
    assert [x][1..] == [];
  }

  lemma SumHead(s: seq<nat>, k: nat)
    requires k < |s|
    ensures Sum(s[k..]) == s[k] + Sum(s[k + 1..])
  {
    assert s[k..][1..] == s[k + 1..];
  }

  /** One merge keeps the queues in order. */
  lemma Merge(f: seq<nat>, w: seq<nat>, p: seq<nat>, leaf: nat, b: nat, c: nat, x: nat, y: nat)
    requires Queues(f, w, p, leaf, b) && Picked(f, w, |p|, leaf, c, x, y)
    ensures Queues(f, w + [x + y], Adopted(p, c, |w|), leaf + 2 - c, y)
  {
    hide Sum, Growth, Shape;
    AdoptedTwo(p, c, |w|);
    MergeShape(w, p, c);
    MergeGrowth(f, w, p, leaf, b, c, x, y);
    MergeSum(f, w, p, leaf, c, x, y);
    assert x >= b && y >= b;
  }

  lemma WeightBound(f: seq<nat>, w: seq<nat>, p: seq<nat>, leaf: nat, b: nat, c: nat, x: nat, y: nat)
    requires Queues(f, w, p, leaf, b) && Picked(f, w, |p|, leaf, c, x, y)
    ensures x + y <= Sum(f)
  {
    Merge(f, w, p, leaf, b, c, x, y);
    var w' := w + [x + y];
    SumMember(w'[|p| + c..], |w'| - 1 - |p| - c);
  }

  /** Where the shared array keeps the three parts: parents, internal weights, leaf weights. */
  ghost predicate Layout(a: seq<nat>, f: seq<nat>, w: seq<nat>, p: seq<nat>, leaf: nat) {
    && |a| == |f| && |p| <= |w| <= leaf <= |f|
    && (forall k :: 0 <= k < |p| ==> a[k] == p[k])
    && (forall k :: |p| <= k < |w| ==> a[k] == w[k])
    && (forall k :: leaf <= k < |f| ==> a[k] == f[k])
  }

  // ---------- the record of the merges ----------

  /** `roots[m]` internal nodes were merged before node `m` was made, from the weights `xs[m]` and `ys[m]`. */
  datatype History = History(roots: seq<nat>, xs: seq<nat>, ys: seq<nat>)

  /** Node `m` was made of the two smallest weights there were. */
  ghost predicate StepAt(f: seq<nat>, w: seq<nat>, h: History, m: nat)
    requires |h.roots| == |w| + 1 && |h.xs| == |h.ys| == |w| && m < |w|
  {
    && h.roots[m] <= h.roots[m + 1] && h.roots[m] <= 2 * m && w[m] == h.xs[m] + h.ys[m]
    && Picked(f, w[..m], h.roots[m], 2 * m - h.roots[m], h.roots[m + 1] - h.roots[m], h.xs[m], h.ys[m])
  }

  ghost predicate MergesRecorded(f: seq<nat>, w: seq<nat>, p: seq<nat>, h: History) {
    && |h.roots| == |w| + 1 && |h.xs| == |h.ys| == |w|
    && h.roots[0] == 0 && h.roots[|w|] == |p|
    && (forall m :: 0 <= m < |w| ==> StepAt(f, w, h, m))
    && (forall m :: 0 <= m <= |w| ==> ParentsBelow(p, m, h.roots[m]))
  }

  /** The first `n` nodes are those whose parents come before `m`. */
  ghost predicate ParentsBelow(p: seq<nat>, m: nat, n: nat) {
    n <= |p| && forall k :: 0 <= k < |p| ==> (p[k] < m <==> k < n)
  }

  function Extended(h: History, root: nat, x: nat, y: nat): History {
    History(h.roots + [root], h.xs + [x], h.ys + [y])
  }

  lemma RecordMerge(f: seq<nat>, w: seq<nat>, p: seq<nat>, leaf: nat, b: nat, c: nat, x: nat, y: nat, h: History)
    requires Queues(f, w, p, leaf, b) && Picked(f, w, |p|, leaf, c, x, y) && MergesRecorded(f, w, p, h)
    ensures MergesRecorded(f, w + [x + y], Adopted(p, c, |w|), Extended(h, |p| + c, x, y))
  {
    hide Sum, Growth, Ascending, Picked;
    PickedCount(f, w, |p|, leaf, c, x, y);
    AdoptedTwo(p, c, |w|);
    ShapeBounds(p, |w| - 1);
    var w', p', h' := w + [x + y], Adopted(p, c, |w|), Extended(h, |p| + c, x, y);
    forall m | 0 <= m < |w'|
      ensures StepAt(f, w', h', m)
    {
      assert w'[..m] == w[..m];
      if m < |w| {
        assert StepAt(f, w, h, m);
      } else {
        assert w[..m] == w;
      }
    }
    forall m | 0 <= m <= |w'|
      ensures ParentsBelow(p', m, h'.roots[m])
    {
      if m <= |w| {
        assert ParentsBelow(p, m, h.roots[m]);
      }
    }
  }

  lemma PickedCount(f: seq<nat>, w: seq<nat>, root: nat, leaf: nat, c: nat, x: nat, y: nat)
    requires Picked(f, w, root, leaf, c, x, y)
    ensures c <= 2 && root + c <= |w|
  {
  }

  lemma FirstMerge(f: seq<nat>)
    requires |f| >= 2 && Ascending(f) && forall k :: 0 <= k < |f| ==> f[k] >= 1
    ensures Queues(f, [f[0] + f[1]], [], 2, f[1])
    ensures MergesRecorded(f, [f[0] + f[1]], [], History([0, 0], [f[0]], [f[1]]))
    ensures f[0] + f[1] <= Sum(f)
  {
    hide Sum;
    var w := [f[0] + f[1]];
    SumTail(f, 0, 2);
    SumOne(f[0] + f[1]);
    assert f[0..] == f;
    assert w[0..] == w;
    assert Growth(w, []);
    assert Shape([], 0);
    assert StepAt(f, w, History([0, 0], [f[0]], [f[1]]), 0);
  }

  lemma AllMerged(f: seq<nat>, w: seq<nat>, p: seq<nat>, leaf: nat, b: nat)
    requires |f| >= 2 && Queues(f, w, p, leaf, b) && |w| == |f| - 1
    ensures |p| == |f| - 2 && w[|w| - 1] == Sum(f)
  {
    hide Sum;
    SumHead(w, |p|);
    assert w[|p| + 1..] == [] && f[leaf..] == [];
    assert Sum([]) == 0 by { SumNone(); }
  }

  lemma SumNone()
    ensures Sum([]) == 0
  {
  }

  /** The body of the merge loop: two picks, each from the queue with the smaller head, leaves first on ties. */
  method PickTwo(a: array<nat>, root0: nat, leaf0: nat, next: nat)
    returns (root: nat, leaf: nat, ghost x: nat, ghost y: nat)
    requires root0 < next < leaf0 <= a.Length && next < a.Length - 1 && leaf0 == 2 * next - root0
    modifies a
    ensures root0 <= root <= root0 + 2 && root <= next && leaf == leaf0 + 2 - (root - root0) <= a.Length
    ensures PickRule(old(a[..]), root0, leaf0, next, root - root0, x, y)
    ensures forall k :: 0 <= k < a.Length ==>
      a[k] == if root0 <= k < root then next else if k == next then (x + y) % 65536 else old(a[k])
  {
    var n := a.Length;
    root, leaf := root0, leaf0;
    if leaf >= n || a[root] < a[leaf] {
      a[next] := a[root];
      a[root] := next;
      root := root + 1;
    } else {
      a[next] := a[leaf];
      leaf := leaf + 1;
    }
    x := a[next];
    if leaf >= n || (root < next && a[root] < a[leaf]) {
      y := a[root];
      a[next] := (a[next] + a[root]) % 65536;
      a[root] := next;
      root := root + 1;
    } else {
      y := a[leaf];
      a[next] := (a[next] + a[leaf]) % 65536;
      leaf := leaf + 1;
    }
  }

  ghost predicate PickRule(s: seq<nat>, root: nat, leaf: nat, next: nat, c: nat, x: nat, y: nat) {
    && root < next <= leaf <= |s| && (leaf >= |s| ==> root + 1 < next)
    && if leaf >= |s| || s[root] < s[leaf] then
         x == s[root] &&
         (if leaf >= |s| || (root + 1 < next && s[root + 1] < s[leaf])
          then c == 2 && root + 1 < next && y == s[root + 1]
          else c == 1 && y == s[leaf])
       else
         x == s[leaf] &&
         (if leaf + 1 >= |s| || s[root] < s[leaf + 1] then c == 1 && y == s[root] else c == 0 && y == s[leaf + 1])
  }

  method MergeTwo(a: array<nat>, root0: nat, leaf0: nat, next: nat,
                  ghost f: seq<nat>, ghost w: seq<nat>, ghost p: seq<nat>, ghost b: nat, ghost h: History)
    returns (root: nat, leaf: nat, ghost w': seq<nat>, ghost p': seq<nat>, ghost b': nat, ghost h': History)
    requires MergesRecorded(f, w, p, h)
    requires Queues(f, w, p, leaf0, b) && Layout(a[..], f, w, p, leaf0) && Sum(f) < 65536
    requires root0 == |p| && next == |w| < |f| - 1
    modifies a
    ensures Queues(f, w', p', leaf, b') && Layout(a[..], f, w', p', leaf)
    ensures root == |p'| && |w'| == next + 1 && MergesRecorded(f, w', p', h')
  {
    hide Sum, Growth, Shape, Queues, Picked, MergesRecorded;
    QueueFacts(f, w, p, leaf0, b);
    ghost var s := a[..];
    ghost var x, y;
    root, leaf, x, y := PickTwo(a, root0, leaf0, next);
    ghost var c := root - root0;
    PickedSmallest(s, f, w, p, leaf0, b, c, x, y);
    Merge(f, w, p, leaf0, b, c, x, y);
    WeightBound(f, w, p, leaf0, b, c, x, y);
    RecordMerge(f, w, p, leaf0, b, c, x, y, h);
    w', p', b', h' := w + [x + y], Adopted(p, c, next), y, Extended(h, root0 + c, x, y);
    QueueFacts(f, w', p', leaf, b');
    MergeLayout(s, a[..], f, w, p, leaf0, c, x + y);
  }

  lemma MergeLayout(s: seq<nat>, s': seq<nat>, f: seq<nat>, w: seq<nat>, p: seq<nat>, leaf: nat, c: nat, weight: nat)
    requires Layout(s, f, w, p, leaf) && |s'| == |s| && c <= 2 && |p| + c <= |w| && |w| < leaf + 2 - c <= |f|
    requires forall k :: 0 <= k < |s| ==>
      s'[k] == if |p| <= k < |p| + c then |w| else if k == |w| then weight else s[k]
    ensures Layout(s', f, w + [weight], Adopted(p, c, |w|), leaf + 2 - c)
  {
    AdoptedTwo(p, c, |w|);
  }

  lemma QueueFacts(f: seq<nat>, w: seq<nat>, p: seq<nat>, leaf: nat, b: nat)
    requires Queues(f, w, p, leaf, b)
    ensures |p| < |w| && leaf == 2 * |w| - |p| && leaf <= |f|
  {
  }

  /** The two picks of the loop take the two smallest weights. */
  lemma PickedSmallest(s: seq<nat>, f: seq<nat>, w: seq<nat>, p: seq<nat>, leaf: nat, b: nat, c: nat, x: nat, y: nat)
    requires Queues(f, w, p, leaf, b) && Layout(s, f, w, p, leaf) && |w| < |f| - 1 && c <= 2
    requires PickRule(s, |p|, leaf, |w|, c, x, y)
    ensures Picked(f, w, |p|, leaf, c, x, y)
  {
    hide Sum, Growth, Shape;
  }

  /** Phase 1: the internal nodes, by weight, then their parents. */
  method BuildTree(a: array<nat>) returns (ghost w: seq<nat>, ghost p: seq<nat>, ghost h: History)
    requires a.Length >= 2 && Ascending(a[..]) && Sum(a[..]) < 65536
    requires forall k :: 0 <= k < a.Length ==> a[k] >= 1
    modifies a
    ensures |w| == a.Length - 1 && |p| == a.Length - 2
    ensures Shape(p, a.Length - 2) && Growth(w, p) && w[|w| - 1] == Sum(old(a[..]))
    ensures forall k :: 0 <= k < |p| ==> a[k] == p[k]
    ensures Ascending(w) && MergesRecorded(old(a[..]), w, p, h)
  {
    hide MergesRecorded;
    ghost var f := a[..];
    var n := a.Length;
    FirstMerge(f);
    a[0] := (a[0] + a[1]) % 65536;
    w, p, h := [f[0] + f[1]], [], History([0, 0], [f[0]], [f[1]]);
    ghost var b := f[1];
    var root, leaf, next := 0, 2, 1;
    while next < n - 1
      invariant 1 <= next <= n - 1
      invariant Queues(f, w, p, leaf, b) && Layout(a[..], f, w, p, leaf)
      invariant root == |p| && next == |w| && MergesRecorded(f, w, p, h)
    {
      root, leaf, w, p, b, h := MergeTwo(a, root, leaf, next, f, w, p, b, h);
      next := next + 1;
    }
    AllMerged(f, w, p, leaf, b);
  }
}
