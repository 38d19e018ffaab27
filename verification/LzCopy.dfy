/** The copy loops of `tinfl_decompress` (src/external/miniz.h:4653-4716): the byte-wise masked loop that
    can be suspended and the loop that copies three bytes at a time.  The output buffer is either a
    window that wraps around (its size a power of two, `& mask` being the remainder) or a buffer that
    holds all output; in both cases position `j` of the output is at index `j % size`. */
module LzCopy {
  import opened Bits
  import opened Tokens

  /** The buffer holds the latest bytes of the output `hist`, as many as fit. */
  ghost predicate Recent(ring: seq<byte>, hist: seq<byte>) {
    |ring| > 0 && forall j :: 0 <= j < |hist| && |hist| - |ring| <= j ==> ring[j % |ring|] == hist[j]
  }

  /** A buffer that never wraps holds exactly the output. */
  lemma RecentWhole(ring: seq<byte>, hist: seq<byte>)
    requires 0 < |ring| && |hist| <= |ring|
    ensures Recent(ring, hist) <==> ring[..|hist|] == hist
  {
    forall j | 0 <= j < |hist|
      ensures j % |ring| == j
    {
      DivModUnique(j, |ring|, 0, j);
    }
    if ring[..|hist|] == hist {
      forall j | 0 <= j < |hist|
        ensures ring[j % |ring|] == hist[j]
      {
        assert ring[..|hist|][j] == hist[j];
      }
    }
  }

  lemma ModShift(n: nat, size: nat, k: nat)
    requires size > 0 && k < size
    ensures (n + k) % size == if n % size + k < size then n % size + k else n % size + k - size
  {
    var q, r := n / size, n % size;
    assert n == q * size + r;
    if r + k < size {
      DivModUnique(n + k, size, q, r + k);
    } else {
      assert (q + 1) * size == q * size + size;
      DivModUnique(n + k, size, q + 1, r + k - size);
    }
  }

  /** The masked source index, `(cur - dist) & mask`, finds the byte `dist` back. */
  lemma SourceIndex(n: nat, size: nat, dist: nat)
    requires 0 < dist <= size && dist <= n
    ensures (n % size + size - dist) % size == (n - dist) % size
  {
    var m, k := n - dist, dist % size;
    if dist == size {
      assert n == m + size && n / size * size == (n / size - 1) * size + size;
      DivModUnique(m, size, n / size - 1, n % size);
      DivModUnique(n % size, size, 0, n % size);
    } else {
      ModShift(m, size, dist);
      if m % size + dist < size {
        DivModUnique(m % size, size, 0, m % size);
        assert n % size + size - dist == 1 * size + m % size - 0 + (dist - dist);
        DivModUnique(n % size + size - dist, size, 1, m % size);
      } else {
        DivModUnique(n % size + size - dist, size, 0, m % size);
      }
    }
  }

  /** Distinct recent positions have distinct indices. */
  lemma ModApart(i: nat, j: nat, size: nat)
    requires i < j < i + size
    ensures i % size != j % size
  {
    ModShift(i, size, j - i);
  }

  /** Writing the next output byte at its index keeps the recent bytes. */
  lemma RecentStep(ring: seq<byte>, hist: seq<byte>, b: byte)
    requires Recent(ring, hist)
    ensures Recent(ring[|hist| % |ring| := b], hist + [b])
  {
    var n := |ring|;
    forall j | 0 <= j < |hist| + 1 && |hist| + 1 - n <= j
      ensures ring[|hist| % n := b][j % n] == (hist + [b])[j]
    {
      if j < |hist| {
        ModApart(j, |hist|, n);
      }
    }
  }

  /** One byte more. */
  lemma {:induction false} CopySnoc(out: seq<byte>, n: nat, dist: nat)
    requires 1 <= dist <= |out|
    ensures var c := CopyBack(out, n, dist); CopyBack(out, n + 1, dist) == c + [c[|c| - dist]]
    decreases n
  {
    if n > 0 {
      CopySnoc(out + [out[|out| - dist]], n - 1, dist);
    }
  }

  /** `& out_buf_size_mask`: the size of a circular buffer is a power of two, and else all bits are kept. */
  function Masked(i: int, window: nat): int {
    if window == 0 then i else i % window
  }

  /** Masked, the distance `dist` leads `back` bytes back. */
  predicate Leads(window: nat, size: nat, dist: nat, back: nat) {
    && 1 <= back <= size
    && (if window == 0 then back == dist else window == size && back == (dist + window - 1) % window + 1)
  }

  lemma DivModInt(x: int, d: nat, q: int, r: nat)
    requires r < d && x == q * d + r
    ensures x % d == r
  {
    var q', r' := x / d, x % d;
    assert (q - q') * d == r' - r;
    if q' < q {
      MulNonNeg(q - q' - 1, d);
    } else if q < q' {
      MulNonNeg(q' - q - 1, d);
    }
  }

  lemma MaskedSource(cur: nat, window: nat, size: nat, dist: nat, back: nat)
    requires cur < size && Leads(window, size, dist, back) && (window == 0 ==> back <= cur)
    ensures Masked(cur - dist, window) == (cur + size - back) % size
  {
    if window == 0 {
      DivModUnique(cur + size - back, size, 1, cur - back);
    } else {
      var a, x := (dist + size - 1) / size, cur + size - back;
      assert dist + size - 1 == a * size + (back - 1);
      assert x == x / size * size + x % size;
      assert cur - dist == (x / size - a) * size + x % size;
      DivModInt(cur - dist, size, x / size - a, x % size);
    }
  }

  /** The suspended copy: byte by byte until the count or the room is used up. */
  method MaskedCopy(ring: array<byte>, cur0: nat, end: nat, counter0: nat, dist: nat, window: nat, ghost back: nat,
                    ghost hist: seq<byte>)
    returns (cur: nat, counter: nat)
    requires Recent(ring[..], hist) && back <= |hist| && Leads(window, ring.Length, dist, back)
    requires cur0 <= end <= ring.Length && (cur0 == |hist| % ring.Length || cur0 == end)
    requires (window == 0 ==> cur0 == |hist|)
    modifies ring
    ensures counter <= counter0 && cur == cur0 + (counter0 - counter) <= end && (counter == 0 || cur == end)
    ensures Recent(ring[..], CopyBack(hist, counter0 - counter, back))
    ensures forall i :: end <= i < ring.Length ==> ring[i] == old(ring[i])
  {
    hide Recent, CopyBack;
    var size := ring.Length;
    cur, counter := cur0, counter0;
    CopyNone(hist, back);
    while counter > 0 && cur < end
      invariant counter <= counter0 && cur == cur0 + (counter0 - counter) <= end
      invariant Recent(ring[..], CopyBack(hist, counter0 - counter, back))
      invariant forall i :: end <= i < ring.Length ==> ring[i] == old(ring[i])
    {
      IndexMasked(|hist|, size, back, counter0 - counter, cur0);
      MaskedSource(cur, window, size, dist, back);
      CopyOne(ring, cur, Masked(cur - dist, window), back, counter0 - counter, hist);
      cur := cur + 1;
      counter := counter - 1;
    }
  }

  lemma CopyNone(hist: seq<byte>, dist: nat)
    requires 1 <= dist <= |hist|
    ensures CopyBack(hist, 0, dist) == hist
  {
  }

  lemma IndexAfter(n: nat, size: nat, k: nat, cur: nat)
    requires size > 0 && cur == n % size && cur + k < size
    ensures (n + k) % size == cur + k
  {
    ModShift(n, size, k);
  }

  lemma RecentAt(ring: seq<byte>, hist: seq<byte>, j: nat)
    requires Recent(ring, hist) && j < |hist| <= j + |ring|
    ensures ring[j % |ring|] == hist[j]
  {
  }

  /** One of the stores `pOut_buf_cur[k] = pSrc[k]`: no wrapping, in the source index or in the target. */
  method CopyOne(ring: array<byte>, cur: nat, src: nat, ghost dist: nat, ghost k: nat, ghost hist: seq<byte>)
    requires 1 <= dist <= |hist| && dist <= ring.Length && cur < ring.Length && src < ring.Length
    requires Recent(ring[..], CopyBack(hist, k, dist))
    requires cur == (|hist| + k) % ring.Length && src == (|hist| + k - dist) % ring.Length
    modifies ring
    ensures Recent(ring[..], CopyBack(hist, k + 1, dist))
    ensures forall i :: 0 <= i < ring.Length && i != cur ==> ring[i] == old(ring[i])
  {
    hide Recent, CopyBack;
    ghost var h := CopyBack(hist, k, dist);
    RecentAt(ring[..], h, |h| - dist);
    CopySnoc(hist, k, dist);
    RecentStep(ring[..], h, h[|h| - dist]);
    ghost var was := ring[..];
    ring[cur] := ring[src];
    assert ring[..] == was[cur := h[|h| - dist]];
  }

  /** The copy by threes, when neither source nor target reaches the end of the room. */
  method TripleCopy(ring: array<byte>, cur0: nat, src0: nat, end: nat, counter0: nat, ghost dist: nat,
                    ghost hist: seq<byte>)
    returns (cur: nat)
    requires Recent(ring[..], hist) && 1 <= dist <= |hist| && dist <= ring.Length
    requires cur0 + counter0 <= end <= ring.Length
    requires counter0 > 0 ==>
      cur0 == |hist| % ring.Length && src0 == (|hist| - dist) % ring.Length && src0 + counter0 <= end
    modifies ring
    ensures cur == cur0 + counter0
    ensures Recent(ring[..], CopyBack(hist, counter0, dist))
    ensures forall i :: end <= i < ring.Length ==> ring[i] == old(ring[i])
  {
    hide Recent, CopyBack;
    ghost var size := ring.Length;
    cur := cur0;
    var counter: nat := counter0;
    var src := src0;
    CopyNone(hist, dist);
    while counter > 2
      invariant counter <= counter0 && cur == cur0 + (counter0 - counter) && src == src0 + (counter0 - counter)
      invariant Recent(ring[..], CopyBack(hist, counter0 - counter, dist))
      invariant forall i :: end <= i < ring.Length ==> ring[i] == old(ring[i])
    {
      ghost var k := counter0 - counter;
      IndexPair(|hist|, size, dist, k, cur0, src0);
      IndexPair(|hist|, size, dist, k + 1, cur0, src0);
      IndexPair(|hist|, size, dist, k + 2, cur0, src0);
      CopyOne(ring, cur, src, dist, k, hist);
      CopyOne(ring, cur + 1, src + 1, dist, k + 1, hist);
      CopyOne(ring, cur + 2, src + 2, dist, k + 2, hist);
      cur := cur + 3;
      src := src + 3;
      counter := counter - 3;
    }
    if counter > 0 {
      ghost var k := counter0 - counter;
      IndexPair(|hist|, size, dist, k, cur0, src0);
      CopyOne(ring, cur, src, dist, k, hist);
      if counter > 1 {
        IndexPair(|hist|, size, dist, k + 1, cur0, src0);
        CopyOne(ring, cur + 1, src + 1, dist, k + 1, hist);
        assert k + 1 + 1 == counter0;
      } else {
        assert k + 1 == counter0;
      }
      cur := cur + counter;
    } else {
      assert counter0 - counter == counter0;
    }
  }

  /** The indices of target and masked source after `k` bytes. */
  lemma IndexMasked(n: nat, size: nat, dist: nat, k: nat, cur0: nat)
    requires size > 0 && 0 < dist <= n && dist <= size && cur0 == n % size && cur0 + k < size
    ensures cur0 + k == (n + k) % size && (cur0 + k + size - dist) % size == (n + k - dist) % size
  {
    IndexAfter(n, size, k, cur0);
    SourceIndex(n + k, size, dist);
  }

  /** The indices of source and target after `k` bytes. */
  lemma IndexPair(n: nat, size: nat, dist: nat, k: nat, cur0: nat, src0: nat)
    requires size > 0 && 0 < dist <= n && cur0 == n % size && src0 == (n - dist) % size
    requires cur0 + k < size && src0 + k < size
    ensures cur0 + k == (n + k) % size && src0 + k == (n + k - dist) % size
  {
    IndexAfter(n, size, k, cur0);
    IndexAfter(n - dist, size, k, src0);
  }
}
