/** Literal and match tokens, what they expand to, and their DEFLATE symbols (RFC 1951, section 3.2.5).

    The compressor's symbol tables are indexed by length and distance; they are constant over ranges
    and are written here as those ranges.  The decompressor's tables are indexed by symbol. */
module Tokens {
  import opened Bits
  import opened Canonical

  const MIN_MATCH_LEN: nat := 3
  const MAX_MATCH_LEN: nat := 258
  const LZ_DICT_SIZE: nat := 32768

  datatype Token = Literal(lit: byte) | Match(len: nat, dist: nat)

  predicate ValidToken(t: Token) {
    t.Match? ==> MIN_MATCH_LEN <= t.len <= MAX_MATCH_LEN && 1 <= t.dist <= LZ_DICT_SIZE
  }

  predicate ValidTokens(ts: seq<Token>) {
    forall i :: 0 <= i < |ts| ==> ValidToken(ts[i])
  }

  // ---------- expansion ----------

  /** Copy `len` bytes from `dist` back, one at a time, so that source and copy may overlap. */
  function CopyBack(out: seq<byte>, len: nat, dist: nat): (r: seq<byte>)
    requires 1 <= dist <= |out|
    ensures |r| == |out| + len && out <= r
    decreases len
  {
    if len == 0 then out else CopyBack(out + [out[|out| - dist]], len - 1, dist)
  }

  predicate CanExpandOne(out: seq<byte>, t: Token) {
    t.Match? ==> 1 <= t.dist <= |out|
  }

  function ExpandOne(out: seq<byte>, t: Token): (r: seq<byte>)
    requires CanExpandOne(out, t)
    ensures out <= r
  {
    match t
    case Literal(b) => out + [b]
    case Match(len, dist) => CopyBack(out, len, dist)
  }

  /** No match reaches back before the beginning of the output. */
  predicate CanExpand(out: seq<byte>, ts: seq<Token>)
    decreases |ts|
  {
    |ts| == 0 || (CanExpandOne(out, ts[0]) && CanExpand(ExpandOne(out, ts[0]), ts[1..]))
  }

  function Expand(out: seq<byte>, ts: seq<Token>): (r: seq<byte>)
    requires CanExpand(out, ts)
    ensures out <= r
    decreases |ts|
  {
    if |ts| == 0 then out else Expand(ExpandOne(out, ts[0]), ts[1..])
  }

  lemma {:induction false} ExpandConcat(out: seq<byte>, a: seq<Token>, b: seq<Token>)
    ensures CanExpand(out, a + b) <==> CanExpand(out, a) && CanExpand(Expand(out, a), b)
    ensures CanExpand(out, a + b) ==> Expand(out, a + b) == Expand(Expand(out, a), b)
    decreases |a|
  {
    if |a| == 0 {
      assert a + b == b;
    } else {
      assert (a + b)[1..] == a[1..] + b;
      if CanExpandOne(out, a[0]) {
        ExpandConcat(ExpandOne(out, a[0]), a[1..], b);
      }
    }
  }

  /** One more token at the end. */
  lemma ExpandSnoc(out: seq<byte>, a: seq<Token>, t: Token)
    ensures CanExpand(out, a + [t]) <==> CanExpand(out, a) && CanExpandOne(Expand(out, a), t)
    ensures CanExpand(out, a + [t]) ==> Expand(out, a + [t]) == ExpandOne(Expand(out, a), t)
  {
    ExpandConcat(out, a, [t]);
    assert [t][1..] == [];
  }

  /** A match whose bytes agree with the source copies exactly those source bytes. */
  lemma {:induction false} CopyIsSource(src: seq<byte>, n: nat, len: nat, dist: nat)
    requires 1 <= dist <= n && n + len <= |src|
    requires forall j :: n <= j < n + len ==> src[j] == src[j - dist]
    ensures CopyBack(src[..n], len, dist) == src[..n + len]
    decreases len
  {
    if len > 0 {
      assert src[n] == src[n - dist];
      assert src[..n] + [src[..n][n - dist]] == src[..n + 1];
      CopyIsSource(src, n + 1, len - 1, dist);
    }
  }

  /** The number of bytes a token stands for. */
  function TokenLen(t: Token): nat {
    if t.Match? then t.len else 1
  }

  function TotalLen(ts: seq<Token>): nat {
    if |ts| == 0 then 0 else TotalLen(ts[..|ts| - 1]) + TokenLen(ts[|ts| - 1])
  }

  lemma {:induction false} TotalLenBound(ts: seq<Token>)
    requires ValidTokens(ts)
    ensures TotalLen(ts) <= MAX_MATCH_LEN * |ts|
  {
    if |ts| > 0 {
      TotalLenBound(ts[..|ts| - 1]);
    }
  }

  lemma {:induction false} ExpandLength(out: seq<byte>, ts: seq<Token>)
    requires CanExpand(out, ts)
    ensures |Expand(out, ts)| == |out| + TotalLen(ts)
    decreases |ts|
  {
    if |ts| > 0 {
      var a, t := ts[..|ts| - 1], ts[|ts| - 1];
      assert ts == a + [t];
      ExpandSnoc(out, a, t);
      ExpandLength(out, a);
    }
  }

  // ---------- the compressor's symbol tables ----------

  /** `s_tdefl_len_sym`, indexed by length - 3. */
  function LenSym(l: nat): nat
    requires l < 256
  {
    if l < 8 then 257 + l
    else if l < 16 then 265 + (l - 8) / 2
    else if l < 32 then 269 + (l - 16) / 4
    else if l < 64 then 273 + (l - 32) / 8
    else if l < 128 then 277 + (l - 64) / 16
    else if l < 255 then 281 + (l - 128) / 32
    else 285
  }

  /** `s_tdefl_len_extra` */
  function LenExtraBits(l: nat): nat
    requires l < 256
  {
    if l < 8 then 0 else if l < 16 then 1 else if l < 32 then 2 else if l < 64 then 3
    else if l < 128 then 4 else if l < 255 then 5 else 0
  }

  /** `s_tdefl_small_dist_sym`, indexed by distance - 1 below 512. */
  function SmallDistSym(d: nat): nat
    requires d < 512
  {
    if d < 4 then d
    else if d < 8 then 4 + (d - 4) / 2
    else if d < 16 then 6 + (d - 8) / 4
    else if d < 32 then 8 + (d - 16) / 8
    else if d < 64 then 10 + (d - 32) / 16
    else if d < 128 then 12 + (d - 64) / 32
    else if d < 256 then 14 + (d - 128) / 64
    else 16 + (d - 256) / 128
  }

  /** `s_tdefl_small_dist_extra` */
  function SmallDistExtra(d: nat): nat
    requires d < 512
  {
    if d < 4 then 0 else if d < 8 then 1 else if d < 16 then 2 else if d < 32 then 3
    else if d < 64 then 4 else if d < 128 then 5 else if d < 256 then 6 else 7
  }

  /** `s_tdefl_large_dist_sym`, indexed by (distance - 1) >> 8. */
  function LargeDistSym(h: nat): nat
    requires h < 128
  {
    if h < 2 then 0
    else if h < 4 then 18 + (h - 2)
    else if h < 8 then 20 + (h - 4) / 2
    else if h < 16 then 22 + (h - 8) / 4
    else if h < 32 then 24 + (h - 16) / 8
    else if h < 64 then 26 + (h - 32) / 16
    else 28 + (h - 64) / 32
  }

  /** `s_tdefl_large_dist_extra` */
  function LargeDistExtra(h: nat): nat
    requires h < 128
  {
    if h < 2 then 0 else if h < 4 then 8 else if h < 8 then 9 else if h < 16 then 10
    else if h < 32 then 11 else if h < 64 then 12 else 13
  }

  function DistSymOf(d: nat): nat
    requires d < LZ_DICT_SIZE
  {
    if d < 512 then SmallDistSym(d) else LargeDistSym(d / 256)
  }

  function DistExtraBits(d: nat): nat
    requires d < LZ_DICT_SIZE
  {
    if d < 512 then SmallDistExtra(d) else LargeDistExtra(d / 256)
  }

  // ---------- the decompressor's symbol tables ----------

  /** `s_length_base` and `s_length_extra`, indexed by symbol - 257. */
  const LENGTH_BASE: seq<nat> := [
    3, 4, 5, 6, 7, 8, 9, 10, 11, 13, 15, 17, 19, 23, 27, 31,
    35, 43, 51, 59, 67, 83, 99, 115, 131, 163, 195, 227, 258, 0, 0]

  const LENGTH_EXTRA: seq<nat> := [
    0, 0, 0, 0, 0, 0, 0, 0, 1, 1, 1, 1, 2, 2, 2, 2,
    3, 3, 3, 3, 4, 4, 4, 4, 5, 5, 5, 5, 0, 0, 0]

  /** `s_dist_base` and `s_dist_extra`. */
  const DIST_BASE: seq<nat> := [
    1, 2, 3, 4, 5, 7, 9, 13, 17, 25, 33, 49, 65, 97, 129, 193,
    257, 385, 513, 769, 1025, 1537, 2049, 3073, 4097, 6145, 8193, 12289, 16385, 24577, 0, 0]

  const DIST_EXTRA: seq<nat> := [
    0, 0, 0, 0, 1, 1, 2, 2, 3, 3, 4, 4, 5, 5, 6, 6,
    7, 7, 8, 8, 9, 9, 10, 10, 11, 11, 12, 12, 13, 13, 13, 13]

  /** The two sides agree on lengths. */
  lemma LengthAgrees(l: nat)
    requires l < 256
    ensures 257 <= LenSym(l) <= 285
    ensures LENGTH_EXTRA[LenSym(l) - 257] == LenExtraBits(l) <= 5
    ensures LENGTH_BASE[LenSym(l) - 257] + l % Pow2(LenExtraBits(l)) == l + 3
  {
    hide Pow2, LENGTH_BASE, LENGTH_EXTRA;
    Pow2Values();
    LengthTables();
    if l < 8 {
      InRange(l, 0, 1);
    } else if l < 16 {
      InRange(l, 8, 2);
    } else if l < 32 {
      InRange(l, 16, 4);
    } else if l < 64 {
      InRange(l, 32, 8);
    } else if l < 128 {
      InRange(l, 64, 16);
    } else if l < 255 {
      InRange(l, 128, 32);
    } else {
      InRange(l, 0, 1);
    }
  }

  /** Position within a range whose start is a multiple of the step. */
  lemma InRange(v: nat, lo: nat, step: nat)
    requires lo <= v && step > 0 && lo % step == 0
    ensures v == lo + step * ((v - lo) / step) + v % step
  {
    var q, r := (v - lo) / step, (v - lo) % step;
    var b := lo / step;
    assert lo == b * step;
    assert v == (b + q) * step + r by { assert (b + q) * step == b * step + q * step; }
    DivModUnique(v, step, b + q, r);
  }

  lemma LengthTables()
    ensures forall k :: 0 <= k < 8 ==> LENGTH_BASE[k] == 3 + k && LENGTH_EXTRA[k] == 0
    ensures forall k :: 0 <= k < 4 ==> LENGTH_BASE[8 + k] == 11 + 2 * k && LENGTH_EXTRA[8 + k] == 1
    ensures forall k :: 0 <= k < 4 ==> LENGTH_BASE[12 + k] == 19 + 4 * k && LENGTH_EXTRA[12 + k] == 2
    ensures forall k :: 0 <= k < 4 ==> LENGTH_BASE[16 + k] == 35 + 8 * k && LENGTH_EXTRA[16 + k] == 3
    ensures forall k :: 0 <= k < 4 ==> LENGTH_BASE[20 + k] == 67 + 16 * k && LENGTH_EXTRA[20 + k] == 4
    ensures forall k :: 0 <= k < 4 ==> LENGTH_BASE[24 + k] == 131 + 32 * k && LENGTH_EXTRA[24 + k] == 5
    ensures LENGTH_BASE[28] == 258 && LENGTH_EXTRA[28] == 0
  {
  }

  /** ... and on distances. */
  lemma DistAgrees(d: nat)
    requires d < LZ_DICT_SIZE
    ensures DistSymOf(d) < 30
    ensures DIST_EXTRA[DistSymOf(d)] == DistExtraBits(d) <= 13
    ensures DIST_BASE[DistSymOf(d)] + d % Pow2(DistExtraBits(d)) == d + 1
  {
    hide Pow2;
    if d < 512 {
      SmallDistAgrees(d);
    } else {
      LargeDistAgrees(d);
    }
  }

  lemma SmallDistAgrees(d: nat)
    requires d < 512
    ensures SmallDistSym(d) < 18
    ensures DIST_EXTRA[SmallDistSym(d)] == SmallDistExtra(d)
    ensures DIST_BASE[SmallDistSym(d)] + d % Pow2(SmallDistExtra(d)) == d + 1
  {
    hide Pow2, DIST_BASE, DIST_EXTRA;
    Pow2Values();
    DistTablesLow();
    DistTablesHigh();
    if d < 4 {
      InRange(d, 0, 1);
    } else if d < 8 {
      InRange(d, 4, 2);
    } else if d < 16 {
      InRange(d, 8, 4);
    } else if d < 32 {
      InRange(d, 16, 8);
    } else if d < 64 {
      InRange(d, 32, 16);
    } else if d < 128 {
      InRange(d, 64, 32);
    } else if d < 256 {
      InRange(d, 128, 64);
    } else {
      InRange(d, 256, 128);
    }
  }

  lemma LargeDistAgrees(d: nat)
    requires 512 <= d < LZ_DICT_SIZE
    ensures 18 <= LargeDistSym(d / 256) < 30
    ensures DIST_EXTRA[LargeDistSym(d / 256)] == LargeDistExtra(d / 256) <= 13
    ensures DIST_BASE[LargeDistSym(d / 256)] + d % Pow2(LargeDistExtra(d / 256)) == d + 1
  {
    hide Pow2, DIST_BASE, DIST_EXTRA;
    Pow2Values();
    DistTablesLow();
    DistTablesHigh();
    var h := d / 256;
    if h < 4 {
      LargeRange(d, 512, 1);
    } else if h < 8 {
      LargeRange(d, 1024, 2);
    } else if h < 16 {
      LargeRange(d, 2048, 4);
    } else if h < 32 {
      LargeRange(d, 4096, 8);
    } else if h < 64 {
      LargeRange(d, 8192, 16);
    } else {
      LargeRange(d, 16384, 32);
    }
  }

  /** One range of the large tables: `2 * k` high bytes, two symbols. */
  lemma LargeRange(d: nat, lo: nat, k: nat)
    requires k > 0 && lo == 512 * k && lo <= d < 2 * lo
    ensures var j := (d / 256 - lo / 256) / k;
      0 <= j <= 1 && lo + (256 * k) * j + d % (256 * k) == d
  {
    var step := 256 * k;
    HighPart(d, lo, k);
    OneOfTwo(d - lo, step);
    DivModUnique(lo, step, 2, 0);
    InRange(d, lo, step);
  }

  lemma OneOfTwo(x: nat, step: nat)
    requires step > 0 && x < 2 * step
    ensures 0 <= x / step <= 1
  {
    if x < step {
      DivModUnique(x, step, 0, x);
    } else {
      DivModUnique(x, step, 1, x - step);
    }
  }

  /** The large tables are indexed by the high byte of the distance. */
  lemma HighPart(d: nat, lo: nat, k: nat)
    requires k > 0 && lo % 256 == 0 && lo <= d
    ensures (d / 256 - lo / 256) / k == (d - lo) / (256 * k)
  {
    var x := d - lo;
    assert d / 256 - lo / 256 == x / 256;
    var q, r := (x / 256) / k, (x / 256) % k;
    assert x == 256 * (q * k + r) + x % 256;
    assert x == q * (256 * k) + (256 * r + x % 256) by { assert 256 * (q * k) == q * (256 * k); }
    assert 256 * r + x % 256 < 256 * k;
    DivModUnique(x, 256 * k, q, 256 * r + x % 256);
  }

  lemma DistTablesLow()
    ensures forall k :: 0 <= k < 4 ==> DIST_BASE[k] == 1 + k && DIST_EXTRA[k] == 0
    ensures forall k :: 0 <= k < 2 ==> DIST_BASE[4 + k] == 5 + 2 * k && DIST_EXTRA[4 + k] == 1
    ensures forall k :: 0 <= k < 2 ==> DIST_BASE[6 + k] == 9 + 4 * k && DIST_EXTRA[6 + k] == 2
    ensures forall k :: 0 <= k < 2 ==> DIST_BASE[8 + k] == 17 + 8 * k && DIST_EXTRA[8 + k] == 3
    ensures forall k :: 0 <= k < 2 ==> DIST_BASE[10 + k] == 33 + 16 * k && DIST_EXTRA[10 + k] == 4
    ensures forall k :: 0 <= k < 2 ==> DIST_BASE[12 + k] == 65 + 32 * k && DIST_EXTRA[12 + k] == 5
  {
  }

  lemma DistTablesHigh()
    ensures forall k :: 0 <= k < 2 ==> DIST_BASE[14 + k] == 129 + 64 * k && DIST_EXTRA[14 + k] == 6
    ensures forall k :: 0 <= k < 2 ==> DIST_BASE[16 + k] == 257 + 128 * k && DIST_EXTRA[16 + k] == 7
    ensures forall k :: 0 <= k < 2 ==> DIST_BASE[18 + k] == 513 + 256 * k && DIST_EXTRA[18 + k] == 8
    ensures forall k :: 0 <= k < 2 ==> DIST_BASE[20 + k] == 1025 + 512 * k && DIST_EXTRA[20 + k] == 9
    ensures forall k :: 0 <= k < 2 ==> DIST_BASE[22 + k] == 2049 + 1024 * k && DIST_EXTRA[22 + k] == 10
    ensures forall k :: 0 <= k < 2 ==> DIST_BASE[24 + k] == 4097 + 2048 * k && DIST_EXTRA[24 + k] == 11
    ensures forall k :: 0 <= k < 2 ==> DIST_BASE[26 + k] == 8193 + 4096 * k && DIST_EXTRA[26 + k] == 12
    ensures forall k :: 0 <= k < 2 ==> DIST_BASE[28 + k] == 16385 + 8192 * k && DIST_EXTRA[28 + k] == 13
  {
  }

  // ---------- token bits ----------

  /** Both codes have words for everything this token needs. */
  predicate Encodable(lit: seq<nat>, dist: seq<nat>, t: Token) {
    && ValidToken(t)
    && (t.Literal? ==> Uses(lit, t.lit))
    && (t.Match? ==> Uses(lit, LenSym(t.len - MIN_MATCH_LEN)) && Uses(dist, DistSymOf(t.dist - 1)))
  }

  predicate AllEncodable(lit: seq<nat>, dist: seq<nat>, ts: seq<Token>) {
    forall i :: 0 <= i < |ts| ==> Encodable(lit, dist, ts[i])
  }

  function TokenBits(lit: seq<nat>, dist: seq<nat>, t: Token): bits
    requires Encodable(lit, dist, t)
  {
    match t
    case Literal(b) => CodeWord(lit, b)
    case Match(len, d) =>
      CodeWord(lit, LenSym(len - MIN_MATCH_LEN)) + Enc(len - MIN_MATCH_LEN, LenExtraBits(len - MIN_MATCH_LEN))
      + (CodeWord(dist, DistSymOf(d - 1)) + Enc(d - 1, DistExtraBits(d - 1)))
  }

  function TokensBits(lit: seq<nat>, dist: seq<nat>, ts: seq<Token>): bits
    requires AllEncodable(lit, dist, ts)
  {
    if |ts| == 0 then [] else TokenBits(lit, dist, ts[0]) + TokensBits(lit, dist, ts[1..])
  }

  lemma {:induction false} TokensBitsConcat(lit: seq<nat>, dist: seq<nat>, a: seq<Token>, b: seq<Token>)
    requires AllEncodable(lit, dist, a) && AllEncodable(lit, dist, b)
    ensures AllEncodable(lit, dist, a + b)
    ensures TokensBits(lit, dist, a + b) == TokensBits(lit, dist, a) + TokensBits(lit, dist, b)
  {
    hide Encodable, TokenBits;
    if |a| == 0 {
      assert a + b == b;
    } else {
      TokensBitsConcat(lit, dist, a[1..], b);
      assert (a + b)[1..] == a[1..] + b;
      var x, y, z := TokenBits(lit, dist, a[0]), TokensBits(lit, dist, a[1..]), TokensBits(lit, dist, b);
      assert x + (y + z) == (x + y) + z;
    }
  }
}
