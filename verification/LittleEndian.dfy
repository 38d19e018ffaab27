/** Little-endian fields in byte strings (src/external/miniz.h:688-707, 7780-7827). */
module LittleEndian {
  import opened Bits

  function Le16(s: seq<byte>, p: nat): (v: nat)
    requires p + 2 <= |s|
    ensures v < 0x10000
  {
    s[p] as int + 0x100 * s[p + 1] as int
  }

  function Le32(s: seq<byte>, p: nat): (v: nat)
    requires p + 4 <= |s|
    ensures v < 0x1_0000_0000
  {
    Le16(s, p) + 0x10000 * Le16(s, p + 2)
  }

  function Le64(s: seq<byte>, p: nat): (v: nat)
    requires p + 8 <= |s|
    ensures v < 0x1_0000_0000_0000_0000
  {
    Le32(s, p) + 0x1_0000_0000 * Le32(s, p + 4)
  }

  /** A field moves with its bytes. */
  lemma Moved16(s: seq<byte>, p: nat, t: seq<byte>, q: nat)
    requires p + 2 <= |s| && q + 2 <= |t| && s[p..p + 2] == t[q..q + 2]
    ensures Le16(s, p) == Le16(t, q)
  {
    assert s[p..p + 2][0] == t[q..q + 2][0] && s[p..p + 2][1] == t[q..q + 2][1];
  }

  lemma Moved32(s: seq<byte>, p: nat, t: seq<byte>, q: nat)
    requires p + 4 <= |s| && q + 4 <= |t| && s[p..p + 4] == t[q..q + 4]
    ensures Le32(s, p) == Le32(t, q)
  {
    hide Le16;
    assert s[p..p + 2] == s[p..p + 4][..2] && t[q..q + 2] == t[q..q + 4][..2];
    assert s[p + 2..p + 4] == s[p..p + 4][2..] && t[q + 2..q + 4] == t[q..q + 4][2..];
    Moved16(s, p, t, q);
    Moved16(s, p + 2, t, q + 2);
  }

  lemma Moved64(s: seq<byte>, p: nat, t: seq<byte>, q: nat)
    requires p + 8 <= |s| && q + 8 <= |t| && s[p..p + 8] == t[q..q + 8]
    ensures Le64(s, p) == Le64(t, q)
  {
    hide Le32;
    assert s[p..p + 4] == s[p..p + 8][..4] && t[q..q + 4] == t[q..q + 8][..4];
    assert s[p + 4..p + 8] == s[p..p + 8][4..] && t[q + 4..q + 8] == t[q..q + 8][4..];
    Moved32(s, p, t, q);
    Moved32(s, p + 4, t, q + 4);
  }

  // ---------- fields of equal stretches ----------

  lemma SubSame(a: seq<byte>, p: nat, b: seq<byte>, q: nat, n: nat, k: nat, w: nat)
    requires p + n <= |a| && q + n <= |b| && a[p..p + n] == b[q..q + n] && k + w <= n
    ensures a[p + k..p + k + w] == b[q + k..q + k + w]
  {
    var x, y := a[p + k..p + k + w], b[q + k..q + k + w];
    forall i | 0 <= i < w
      ensures x[i] == y[i]
    {
      var j := k + i;
      assert a[p..p + n][j] == b[q..q + n][j];
    }
  }

  lemma Sub16(a: seq<byte>, p: nat, b: seq<byte>, q: nat, n: nat, k: nat)
    requires p + n <= |a| && q + n <= |b| && a[p..p + n] == b[q..q + n] && k + 2 <= n
    ensures Le16(a, p + k) == Le16(b, q + k)
  {
    SubSame(a, p, b, q, n, k, 2);
    Moved16(a, p + k, b, q + k);
  }

  lemma Sub32(a: seq<byte>, p: nat, b: seq<byte>, q: nat, n: nat, k: nat)
    requires p + n <= |a| && q + n <= |b| && a[p..p + n] == b[q..q + n] && k + 4 <= n
    ensures Le32(a, p + k) == Le32(b, q + k)
  {
    SubSame(a, p, b, q, n, k, 4);
    Moved32(a, p + k, b, q + k);
  }

  lemma Sub64(a: seq<byte>, p: nat, b: seq<byte>, q: nat, n: nat, k: nat)
    requires p + n <= |a| && q + n <= |b| && a[p..p + n] == b[q..q + n] && k + 8 <= n
    ensures Le64(a, p + k) == Le64(b, q + k)
  {
    SubSame(a, p, b, q, n, k, 8);
    Moved64(a, p + k, b, q + k);
  }

  function Bytes16(v: nat): (b: seq<byte>)
    ensures |b| == 2
  {
    [v % 0x100, v / 0x100 % 0x100]
  }

  function Bytes32(v: nat): (b: seq<byte>)
    ensures |b| == 4
  {
    Bytes16(v % 0x10000) + Bytes16(v / 0x10000)
  }

  function Bytes64(v: nat): (b: seq<byte>)
    ensures |b| == 8
  {
    Bytes32(v % 0x1_0000_0000) + Bytes32(v / 0x1_0000_0000)
  }

  lemma Read16(v: nat)
    requires v < 0x10000
    ensures Le16(Bytes16(v), 0) == v
  {
  }

  lemma Read32(v: nat)
    requires v < 0x1_0000_0000
    ensures Le32(Bytes32(v), 0) == v
  {
    hide Bytes16, Le16;
    var lo, hi := v % 0x10000, v / 0x10000;
    Read16(lo);
    Read16(hi);
    Moved16(Bytes32(v), 0, Bytes16(lo), 0);
    Moved16(Bytes32(v), 2, Bytes16(hi), 0);
  }

  lemma Read64(v: nat)
    requires v < 0x1_0000_0000_0000_0000
    ensures Le64(Bytes64(v), 0) == v
  {
    hide Bytes32, Le32;
    var lo, hi := v % 0x1_0000_0000, v / 0x1_0000_0000;
    Read32(lo);
    Read32(hi);
    Moved32(Bytes64(v), 0, Bytes32(lo), 0);
    Moved32(Bytes64(v), 4, Bytes32(hi), 0);
  }

  // ---------- writing into a buffer ----------

  /** The buffer outside `[p, p + n)` is as before. */
  twostate predicate Elsewhere(a: array<byte>, p: nat, n: nat)
    reads a
  {
    forall i :: 0 <= i < a.Length && !(p <= i < p + n) ==> a[i] == old(a[i])
  }

  method Write16(a: array<byte>, p: nat, v: nat)
    requires p + 2 <= a.Length && v < 0x10000
    modifies a
    ensures Le16(a[..], p) == v && Elsewhere(a, p, 2)
  {
    a[p] := v % 0x100;
    a[p + 1] := v / 0x100;
  }

  method Write32(a: array<byte>, p: nat, v: nat)
    requires p + 4 <= a.Length && v < 0x1_0000_0000
    modifies a
    ensures Le32(a[..], p) == v && Elsewhere(a, p, 4)
  {
    Write16(a, p, v % 0x10000);
    label Low:
    ghost var was := a[..];
    Write16(a, p + 2, v / 0x10000);
    Moved16(a[..], p, was, p);
  }

  method Write64(a: array<byte>, p: nat, v: nat)
    requires p + 8 <= a.Length && v < 0x1_0000_0000_0000_0000
    modifies a
    ensures Le64(a[..], p) == v && Elsewhere(a, p, 8)
  {
    hide Le16, Le32;
    Write32(a, p, v % 0x1_0000_0000);
    ghost var was := a[..];
    Write32(a, p + 4, v / 0x1_0000_0000);
    assert a[..][p..p + 4] == was[p..p + 4];
    Moved32(a[..], p, was, p);
  }
}
