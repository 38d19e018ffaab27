/** The name index of an archive reader (src/external/miniz.h:5470-5563, 6418-6571): a heap sort of the central
    directory by case-folded name, the binary search over it, and the linear scan it replaces. */
module NameIndex {
  import opened Bits
  import opened Lexicographic
  import opened LittleEndian
  import opened ZipFormat
  import opened ZipReader

  // ---------- names and their order ----------

  /** `MZ_TOLOWER` */
  function Lower(c: byte): byte {
    if 65 <= c <= 90 then c + 32 else c
  }

  function Fold(s: seq<byte>): (r: seq<byte>)
    ensures |r| == |s| && forall i :: 0 <= i < |s| ==> r[i] == Lower(s[i])
  {
    seq(|s|, i requires 0 <= i < |s| => Lower(s[i]))
  }

  // ---------- the names in a directory ----------

  ghost predicate Indexed(dir: seq<byte>, offsets: seq<nat>) {
    forall i :: 0 <= i < |offsets| ==> RecordInside(dir, offsets[i])
  }

  /** The folded names, by file index. */
  ghost function Keys(dir: seq<byte>, offsets: seq<nat>): (ks: seq<seq<byte>>)
    requires Indexed(dir, offsets)
    ensures |ks| == |offsets|
    ensures forall i :: 0 <= i < |ks| ==> ks[i] == Fold(NameAt(dir, offsets[i]))
  {
    seq(|offsets|, i requires 0 <= i < |offsets| => Fold(NameAt(dir, offsets[i])))
  }

  /** `mz_zip_reader_filename_less` */
  method FilenameLess(dir: seq<byte>, offsets: seq<nat>, left: nat, right: nat) returns (less: bool)
    requires Indexed(dir, offsets) && left < |offsets| && right < |offsets|
    ensures less == Before(Keys(dir, offsets)[left], Keys(dir, offsets)[right])
  {
    hide Le16, RecordInside, Before;
    var a, b := NameAt(dir, offsets[left]), NameAt(dir, offsets[right]);
    ghost var fa, fb := Fold(a), Fold(b);
    var n := if |a| < |b| then |a| else |b|;
    var l, r: byte := 0, 0;
    var k := 0;
    while k < n
      invariant k <= n && fa[..k] == fb[..k]
    {
      l, r := Lower(a[k]), Lower(b[k]);
      if l != r {
        break;
      }
      assert fa[..k + 1] == fa[..k] + [fa[k]] && fb[..k + 1] == fb[..k] + [fb[k]];
      k := k + 1;
    }
    FirstDifference(fa, fb, k);
    less := if k == n then |a| < |b| else l < r;
  }

  // ---------- the heap sort ----------

  ghost predicate InRange(s: seq<nat>, n: nat) {
    forall i :: 0 <= i < |s| ==> s[i] < n
  }

  /** The children of `i` that lie before `end` are not above it. */
  ghost predicate Above(keys: seq<seq<byte>>, s: seq<nat>, i: nat, end: nat)
    requires end <= |s| && InRange(s, |keys|) && i < end
  {
    && (2 * i + 1 < end ==> AtMost(keys[s[2 * i + 1]], keys[s[i]]))
    && (2 * i + 2 < end ==> AtMost(keys[s[2 * i + 2]], keys[s[i]]))
  }

  /** A heap from `lo` on, except that `hole` may be too small for its place. */
  ghost predicate Heap(keys: seq<seq<byte>>, s: seq<nat>, lo: nat, end: nat, hole: nat)
    requires end <= |s| && InRange(s, |keys|)
  {
    && (forall i :: lo <= i < end && i != hole ==> Above(keys, s, i, end))
    && (lo < hole < end && lo <= (hole - 1) / 2 ==> Below(keys, s, hole, end, (hole - 1) / 2))
  }

  /** The children of `i` are not above `p`. */
  ghost predicate Below(keys: seq<seq<byte>>, s: seq<nat>, i: nat, end: nat, p: nat)
    requires end <= |s| && InRange(s, |keys|) && i < end && p < end
  {
    && (2 * i + 1 < end ==> AtMost(keys[s[2 * i + 1]], keys[s[p]]))
    && (2 * i + 2 < end ==> AtMost(keys[s[2 * i + 2]], keys[s[p]]))
  }

  ghost predicate Bounded(keys: seq<seq<byte>>, s: seq<nat>, end: nat, top: seq<byte>)
    requires end <= |s| && InRange(s, |keys|)
  {
    forall i :: 0 <= i < end ==> AtMost(keys[s[i]], top)
  }

  ghost predicate SortedFrom(keys: seq<seq<byte>>, s: seq<nat>, from: nat)
    requires InRange(s, |keys|)
  {
    forall i, j :: from <= i <= j < |s| ==> AtMost(keys[s[i]], keys[s[j]])
  }

  function Swapped(s: seq<nat>, i: nat, j: nat): (t: seq<nat>)
    requires i < |s| && j < |s|
    ensures |t| == |s| && t[i] == s[j] && t[j] == s[i] && forall k :: 0 <= k < |s| && k != i && k != j ==> t[k] == s[k]
  {
    s[i := s[j]][j := s[i]]
  }

  lemma SwappedSame(s: seq<nat>, i: nat, j: nat)
    requires i < |s| && j < |s|
    ensures multiset(Swapped(s, i, j)) == multiset(s)
  {
  }

  lemma SwappedBounded(keys: seq<seq<byte>>, s: seq<nat>, i: nat, j: nat, end: nat, top: seq<byte>)
    requires i < end && j < end <= |s| && InRange(s, |keys|) && Bounded(keys, s, end, top)
    ensures InRange(Swapped(s, i, j), |keys|) && Bounded(keys, Swapped(s, i, j), end, top)
  {
  }

  /** One step down: the larger child takes the place of its parent. */
  lemma SwapStep(keys: seq<seq<byte>>, s: seq<nat>, lo: nat, end: nat, root: nat, child: nat)
    requires end <= |s| && InRange(s, |keys|) && lo <= root < end && Heap(keys, s, lo, end, root)
    requires child < end && (child == 2 * root + 1 || child == 2 * root + 2)
    requires Below(keys, s, root, end, child) && Before(keys[s[root]], keys[s[child]])
    ensures InRange(Swapped(s, root, child), |keys|) && Heap(keys, Swapped(s, root, child), lo, end, child)
  {
    hide Before;
    var t := Swapped(s, root, child);
    BeforeTotal(keys[s[root]], keys[s[child]]);
    forall i | lo <= i < end && i != child
      ensures Above(keys, t, i, end)
    {
      if i != root {
        assert Above(keys, s, i, end);
      }
    }
    assert Above(keys, s, child, end);
    assert (child - 1) / 2 == root;
  }

  /** Nothing more to do when the root is not below its larger child, or has none. */
  lemma Settled(keys: seq<seq<byte>>, s: seq<nat>, lo: nat, end: nat, root: nat, child: nat)
    requires end <= |s| && InRange(s, |keys|) && lo <= root < end && Heap(keys, s, lo, end, root)
    requires 2 * root + 1 < end ==>
      child < end && Below(keys, s, root, end, child) && AtMost(keys[s[child]], keys[s[root]])
    ensures Heap(keys, s, lo, end, end)
  {
    hide AtMost;
    if 2 * root + 1 < end {
      AtMostTrans(keys[s[2 * root + 1]], keys[s[child]], keys[s[root]]);
      if 2 * root + 2 < end {
        AtMostTrans(keys[s[2 * root + 2]], keys[s[child]], keys[s[root]]);
      }
    }
    assert Above(keys, s, root, end);
  }

  /** The larger of the children of `root`. */
  method LargerChild(dir: seq<byte>, offsets: seq<nat>, idx: array<nat>, root: nat, end: nat) returns (child: nat)
    requires Indexed(dir, offsets) && end <= idx.Length && InRange(idx[..], |offsets|) && 2 * root + 1 < end
    ensures child < end && (child == 2 * root + 1 || child == 2 * root + 2)
    ensures Below(Keys(dir, offsets), idx[..], root, end, child)
  {
    hide Before;
    child := 2 * root + 1;
    if child + 1 < end {
      var less := FilenameLess(dir, offsets, idx[child], idx[child + 1]);
      BeforeTotal(Keys(dir, offsets)[idx[child]], Keys(dir, offsets)[idx[child + 1]]);
      if less {
        child := child + 1;
      }
    }
    BeforeTotal(Keys(dir, offsets)[idx[child]], Keys(dir, offsets)[idx[child]]);
  }

  /** Restores the heap below `lo` (the inner loops of the sort). */
  method SiftDown(dir: seq<byte>, offsets: seq<nat>, idx: array<nat>, lo: nat, end: nat, ghost top: seq<byte>)
    requires Indexed(dir, offsets) && lo < end <= idx.Length && InRange(idx[..], |offsets|)
    requires Heap(Keys(dir, offsets), idx[..], lo, end, lo) && Bounded(Keys(dir, offsets), idx[..], end, top)
    modifies idx
    ensures InRange(idx[..], |offsets|) && multiset(idx[..]) == multiset(old(idx[..]))
    ensures forall k :: 0 <= k < idx.Length && (k < lo || k >= end) ==> idx[k] == old(idx[k])
    ensures Heap(Keys(dir, offsets), idx[..], lo, end, end) && Bounded(Keys(dir, offsets), idx[..], end, top)
  {
    hide Heap, Below, Before, AtMost, Swapped, Bounded, Keys;
    ghost var keys := Keys(dir, offsets);
    var root := lo;
    while 2 * root + 1 < end
      invariant lo <= root < end && InRange(idx[..], |offsets|) && multiset(idx[..]) == multiset(old(idx[..]))
      invariant forall k :: 0 <= k < idx.Length && (k < lo || k >= end) ==> idx[k] == old(idx[k])
      invariant Heap(keys, idx[..], lo, end, root) && Bounded(keys, idx[..], end, top)
      decreases end - root
    {
      ghost var s := idx[..];
      var child := LargerChild(dir, offsets, idx, root, end);
      var less := FilenameLess(dir, offsets, idx[root], idx[child]);
      if !less {
        AtMostIs(keys[s[child]], keys[s[root]]);
        Settled(keys, s, lo, end, root, child);
        return;
      }
      SwapStep(keys, s, lo, end, root, child);
      SwappedSame(s, root, child);
      SwappedBounded(keys, s, root, child, end, top);
      idx[root], idx[child] := idx[child], idx[root];
      assert idx[..] == Swapped(s, root, child);
      root := child;
    }
    Settled(keys, idx[..], lo, end, root, root);
  }

  lemma AtMostIs(a: seq<byte>, b: seq<byte>)
    ensures AtMost(a, b) == !Before(b, a)
  {
  }

  /** The root of a heap is the largest. */
  lemma {:induction false} HeapTop(keys: seq<seq<byte>>, s: seq<nat>, end: nat, i: nat)
    requires end <= |s| && InRange(s, |keys|) && i < end && Heap(keys, s, 0, end, end)
    ensures AtMost(keys[s[i]], keys[s[0]])
  {
    hide AtMost;
    if i == 0 {
      AtMostIs(keys[s[0]], keys[s[0]]);
      BeforeTotal(keys[s[0]], keys[s[0]]);
    } else {
      var p := (i - 1) / 2;
      assert Above(keys, s, p, end);
      HeapTop(keys, s, end, p);
      AtMostTrans(keys[s[i]], keys[s[p]], keys[s[0]]);
    }
  }

  lemma LeavesHeap(keys: seq<seq<byte>>, s: seq<nat>, lo: nat)
    requires InRange(s, |keys|) && 2 * lo + 1 >= |s|
    ensures Heap(keys, s, lo, |s|, |s|)
  {
  }

  lemma HeapDown(keys: seq<seq<byte>>, s: seq<nat>, lo: nat, end: nat)
    requires end <= |s| && InRange(s, |keys|) && Heap(keys, s, lo + 1, end, end)
    ensures Heap(keys, s, lo, end, lo)
  {
  }

  /** Moving the root behind the heap. */
  lemma TopOut(keys: seq<seq<byte>>, s: seq<nat>, end: nat)
    requires 0 < end < |s| && InRange(s, |keys|) && Heap(keys, s, 0, end + 1, end + 1)
    requires SortedFrom(keys, s, end + 1) && (end + 1 < |s| ==> Bounded(keys, s, end + 1, keys[s[end + 1]]))
    ensures var t := Swapped(s, end, 0);
      InRange(t, |keys|) && Heap(keys, t, 0, end, 0) && SortedFrom(keys, t, end) && Bounded(keys, t, end, keys[t[end]])
  {
    hide AtMost;
    var t := Swapped(s, end, 0);
    forall i | 0 < i < end
      ensures Above(keys, t, i, end)
    {
      assert Above(keys, s, i, end + 1);
    }
    forall i | 0 <= i <= end
      ensures AtMost(keys[s[i]], keys[s[0]])
    {
      HeapTop(keys, s, end + 1, i);
    }
    forall i, j | end <= i <= j < |t|
      ensures AtMost(keys[t[i]], keys[t[j]])
    {
      if i == end < j {
        AtMostTrans(keys[s[0]], keys[s[end + 1]], keys[s[j]]);
      }
    }
  }

  lemma SortedKept(keys: seq<seq<byte>>, s: seq<nat>, t: seq<nat>, from: nat)
    requires |s| == |t| && InRange(s, |keys|) && InRange(t, |keys|) && SortedFrom(keys, s, from)
    requires forall k :: from <= k < |s| ==> s[k] == t[k]
    ensures SortedFrom(keys, t, from)
  {
    hide AtMost;
  }

  /** Everything is bounded by some key: a bound for the first phase, where none is needed. */
  ghost function {:induction false} Largest(keys: seq<seq<byte>>): (m: seq<byte>)
    ensures forall i :: 0 <= i < |keys| ==> AtMost(keys[i], m)
  {
    if |keys| == 0 then []
    else
      var m, k := Largest(keys[..|keys| - 1]), keys[|keys| - 1];
      BeforeTotal(m, k);
      BeforeTotal(k, k);
      assert forall i :: 0 <= i < |keys| - 1 ==> keys[i] == keys[..|keys| - 1][i];
      if Before(m, k) then
        assert forall i :: 0 <= i < |keys| - 1 ==> AtMost(keys[i], k) by {
          forall i | 0 <= i < |keys| - 1
            ensures AtMost(keys[i], k)
          {
            AtMostTrans(keys[i], m, k);
          }
        }
        k
      else m
  }

  /** Heap in front of `end`, the sorted rest behind it. */
  ghost predicate HalfSorted(keys: seq<seq<byte>>, s: seq<nat>, end: nat)
    requires end < |s| && InRange(s, |keys|)
  {
    && Heap(keys, s, 0, end + 1, end + 1) && SortedFrom(keys, s, end + 1)
    && (end + 1 < |s| ==> Bounded(keys, s, end + 1, keys[s[end + 1]]))
  }

  /** One round of the second phase: the largest of the heap goes in front of the sorted part. */
  method TakeTop(dir: seq<byte>, offsets: seq<nat>, idx: array<nat>, end: nat)
    requires Indexed(dir, offsets) && InRange(idx[..], |offsets|) && 0 < end < idx.Length
    requires HalfSorted(Keys(dir, offsets), idx[..], end)
    modifies idx
    ensures InRange(idx[..], |offsets|) && multiset(idx[..]) == multiset(old(idx[..]))
    ensures HalfSorted(Keys(dir, offsets), idx[..], end - 1)
  {
    hide Heap, Before, AtMost, Swapped, Bounded, SortedFrom;
    ghost var keys := Keys(dir, offsets);
    ghost var s := idx[..];
    TopOut(keys, s, end);
    SwappedSame(s, end, 0);
    idx[end], idx[0] := idx[0], idx[end];
    assert idx[..] == Swapped(s, end, 0);
    ghost var t := idx[..];
    SiftDown(dir, offsets, idx, 0, end, keys[t[end]]);
    SortedKept(keys, t, idx[..], end);
  }

  /** `mz_zip_reader_sort_central_dir_offsets_by_filename` */
  method SortIndex(dir: seq<byte>, offsets: seq<nat>, idx: array<nat>)
    requires Indexed(dir, offsets) && InRange(idx[..], |offsets|)
    modifies idx
    ensures InRange(idx[..], |offsets|) && multiset(idx[..]) == multiset(old(idx[..]))
    ensures SortedFrom(Keys(dir, offsets), idx[..], 0)
  {
    hide Heap, Before, AtMost, Swapped, Bounded, SortedFrom;
    ghost var keys := Keys(dir, offsets);
    var size := idx.Length;
    if size <= 1 {
      SortedShort(keys, idx[..]);
      return;
    }
    Heapify(dir, offsets, idx);
    var end := size - 1;
    NothingSorted(keys, idx[..]);
    while end > 0
      invariant end < size && InRange(idx[..], |offsets|) && multiset(idx[..]) == multiset(old(idx[..]))
      invariant HalfSorted(keys, idx[..], end)
    {
      TakeTop(dir, offsets, idx, end);
      end := end - 1;
    }
    SortedAll(keys, idx[..]);
  }

  lemma SortedShort(keys: seq<seq<byte>>, s: seq<nat>)
    requires |s| <= 1 && InRange(s, |keys|)
    ensures SortedFrom(keys, s, 0)
  {
    hide Before;
    if |s| == 1 {
      BeforeTotal(keys[s[0]], keys[s[0]]);
    }
  }

  lemma NothingSorted(keys: seq<seq<byte>>, s: seq<nat>)
    requires InRange(s, |keys|)
    ensures SortedFrom(keys, s, |s|)
  {
  }

  /** One element in front of the sorted rest. */
  lemma SortedAll(keys: seq<seq<byte>>, s: seq<nat>)
    requires |s| > 0 && InRange(s, |keys|) && SortedFrom(keys, s, 1)
    requires |s| > 1 ==> Bounded(keys, s, 1, keys[s[1]])
    ensures SortedFrom(keys, s, 0)
  {
    hide AtMost;
    forall i, j | 0 <= i <= j < |s|
      ensures AtMost(keys[s[i]], keys[s[j]])
    {
      if i == 0 {
        AtMostIs(keys[s[0]], keys[s[0]]);
        BeforeTotal(keys[s[0]], keys[s[0]]);
        if j > 0 {
          AtMostTrans(keys[s[0]], keys[s[1]], keys[s[j]]);
        }
      }
    }
  }

  /** The first phase. */
  method Heapify(dir: seq<byte>, offsets: seq<nat>, idx: array<nat>)
    requires Indexed(dir, offsets) && InRange(idx[..], |offsets|) && idx.Length > 1
    modifies idx
    ensures InRange(idx[..], |offsets|) && multiset(idx[..]) == multiset(old(idx[..]))
    ensures Heap(Keys(dir, offsets), idx[..], 0, idx.Length, idx.Length)
  {
    hide Heap, AtMost, Bounded;
    ghost var keys := Keys(dir, offsets);
    var start: nat := (idx.Length - 2) / 2;
    LeavesHeap(keys, idx[..], start + 1);
    while true
      invariant start < idx.Length && InRange(idx[..], |offsets|) && multiset(idx[..]) == multiset(old(idx[..]))
      invariant Heap(keys, idx[..], start + 1, idx.Length, idx.Length)
      decreases start
    {
      HeapDown(keys, idx[..], start, idx.Length);
      AllBounded(keys, idx[..], idx.Length);
      SiftDown(dir, offsets, idx, start, idx.Length, Largest(keys));
      if start == 0 {
        break;
      }
      start := start - 1;
    }
  }

  lemma AllBounded(keys: seq<seq<byte>>, s: seq<nat>, end: nat)
    requires end <= |s| && InRange(s, |keys|)
    ensures Bounded(keys, s, end, Largest(keys))
  {
  }
}
