/** The compressor's dictionary: a ring of 32768 bytes whose first 257 bytes are mirrored behind its end,
    so that a match can be compared without wrapping (src/external/miniz.h:848-852, 916, 3636-3681),
    and the match finder over it (3343-3388). */
module Dictionary {
  import opened Bits
  import opened Tokens

  const DICT_LENGTH: nat := LZ_DICT_SIZE + MAX_MATCH_LEN - 1

  type u16 = x: int | 0 <= x < 0x10000

  /** The byte at source position `p` is in its place, and in the mirror if it has one there. */
  ghost predicate Slot(dict: seq<byte>, p: nat, b: byte)
    requires |dict| == DICT_LENGTH
  {
    var k := p % LZ_DICT_SIZE;
    dict[k] == b && (k < MAX_MATCH_LEN - 1 ==> dict[LZ_DICT_SIZE + k] == b)
  }

  /** The ring holds the source bytes `lo..hi`. */
  ghost predicate Window(dict: seq<byte>, src: seq<byte>, lo: nat, hi: nat) {
    && |dict| == DICT_LENGTH && lo <= hi <= |src| && hi - lo <= LZ_DICT_SIZE
    && forall p :: lo <= p < hi ==> Slot(dict, p, src[p])
  }

  lemma RingNext(p: nat, i: nat)
    requires i < LZ_DICT_SIZE
    ensures var k := p % LZ_DICT_SIZE;
      (p + i) % LZ_DICT_SIZE == if k + i < LZ_DICT_SIZE then k + i else k + i - LZ_DICT_SIZE
  {
    var k, q := p % LZ_DICT_SIZE, p / LZ_DICT_SIZE;
    if k + i < LZ_DICT_SIZE {
      DivModUnique(p + i, LZ_DICT_SIZE, q, k + i);
    } else {
      DivModUnique(p + i, LZ_DICT_SIZE, q + 1, k + i - LZ_DICT_SIZE);
    }
  }

  lemma RingDistinct(p: nat, q: nat)
    requires p < q < p + LZ_DICT_SIZE
    ensures p % LZ_DICT_SIZE != q % LZ_DICT_SIZE
  {
    RingNext(p, q - p);
  }

  /** Reading up to 257 bytes past a ring position needs no wrap: that is what the mirror is for. */
  lemma WindowRead(dict: seq<byte>, src: seq<byte>, lo: nat, hi: nat, p: nat, i: nat)
    requires Window(dict, src, lo, hi) && i < MAX_MATCH_LEN && lo <= p + i < hi
    ensures p % LZ_DICT_SIZE + i < DICT_LENGTH && dict[p % LZ_DICT_SIZE + i] == src[p + i]
  {
    RingNext(p, i);
    assert Slot(dict, p + i, src[p + i]);
  }

  lemma WindowShrink(dict: seq<byte>, src: seq<byte>, lo: nat, hi: nat, lo': nat)
    requires Window(dict, src, lo, hi) && lo <= lo' <= hi
    ensures Window(dict, src, lo', hi)
  {
  }

  /** Storing the next source byte overwrites the oldest one. */
  method Store(dict: array<byte>, c: byte, dstPos: nat, ghost src: seq<byte>, ghost lo: nat)
    requires Window(dict[..], src, lo, |src|) && dstPos == |src| % LZ_DICT_SIZE
    modifies dict
    ensures Window(dict[..], src + [c], if |src| + 1 - lo > LZ_DICT_SIZE then lo + 1 else lo, |src| + 1)
  {
    ghost var was := dict[..];
    dict[dstPos] := c;
    if dstPos < MAX_MATCH_LEN - 1 {
      dict[LZ_DICT_SIZE + dstPos] := c;
    }
    ghost var lo' := if |src| + 1 - lo > LZ_DICT_SIZE then lo + 1 else lo;
    forall p | lo' <= p < |src| + 1
      ensures Slot(dict[..], p, (src + [c])[p])
    {
      if p < |src| {
        RingDistinct(p, |src|);
        assert Slot(was, p, src[p]);
      }
    }
  }

  // ---------- matches ----------

  /** `len` bytes from `pos` on repeat what is `dist` bytes before them. */
  ghost predicate MatchAt(src: seq<byte>, pos: nat, len: nat, dist: nat) {
    && 1 <= dist <= pos && dist <= LZ_DICT_SIZE && pos + len <= |src|
    && forall j :: pos <= j < pos + len ==> src[j] == src[j - dist]
  }

  /** A true match expands to the source. */
  lemma MatchExpands(src: seq<byte>, pos: nat, len: nat, dist: nat)
    requires MatchAt(src, pos, len, dist) && MIN_MATCH_LEN <= len <= MAX_MATCH_LEN
    ensures CanExpandOne(src[..pos], Match(len, dist))
    ensures ExpandOne(src[..pos], Match(len, dist)) == src[..pos + len]
  {
    CopyIsSource(src, pos, len, dist);
  }

  /** The byte-wise comparison loop. */
  method MatchLength(dict: array<byte>, pos: nat, probePos: nat, maxMatchLen: nat) returns (n: nat)
    requires dict.Length == DICT_LENGTH && pos < LZ_DICT_SIZE && probePos < LZ_DICT_SIZE && maxMatchLen <= MAX_MATCH_LEN
    ensures n <= maxMatchLen
    ensures dict[pos..pos + n] == dict[probePos..probePos + n]
    ensures n < maxMatchLen ==> dict[pos + n] != dict[probePos + n]
  {
    n := 0;
    while n < maxMatchLen
      invariant n <= maxMatchLen && dict[pos..pos + n] == dict[probePos..probePos + n]
    {
      if dict[pos + n] != dict[probePos + n] {
        break;
      }
      assert dict[pos..pos + n + 1] == dict[pos..pos + n] + [dict[pos + n]];
      assert dict[probePos..probePos + n + 1] == dict[probePos..probePos + n] + [dict[probePos + n]];
      n := n + 1;
    }
  }

  /** The 16-bit distance of a probe, when it does not exceed the dictionary, is a true distance. */
  lemma ProbeDistance(lookaheadPos: nat, next: u16)
    ensures var dist := (lookaheadPos - next) % 0x10000;
      dist <= lookaheadPos ==> (lookaheadPos - dist) % LZ_DICT_SIZE == next % LZ_DICT_SIZE
  {
    var dist := (lookaheadPos - next) % 0x10000;
    var k := (lookaheadPos - next) / 0x10000;
    assert lookaheadPos - dist == next + 2 * k * LZ_DICT_SIZE;
    if dist <= lookaheadPos {
      var m := lookaheadPos - dist;
      assert m == (2 * k + next / LZ_DICT_SIZE) * LZ_DICT_SIZE + next % LZ_DICT_SIZE;
      ModAny(m, 2 * k + next / LZ_DICT_SIZE, next % LZ_DICT_SIZE);
    }
  }

  lemma ModAny(m: nat, q: int, r: nat)
    requires r < LZ_DICT_SIZE && m == q * LZ_DICT_SIZE + r
    ensures m % LZ_DICT_SIZE == r
  {
  }

  lemma WindowHas(dict: seq<byte>, src: seq<byte>, lo: nat, hi: nat)
    requires Window(dict, src, lo, hi)
    ensures |dict| == DICT_LENGTH && hi <= |src| && hi - lo <= LZ_DICT_SIZE
  {
  }

  /** Equal ring bytes are equal source bytes. */
  lemma ProbeMatches(dict: seq<byte>, src: seq<byte>, lookaheadPos: nat, maxDist: nat, maxMatchLen: nat, dist: nat,
                     probePos: nat, n: nat)
    requires maxDist <= lookaheadPos && maxMatchLen <= MAX_MATCH_LEN && n <= maxMatchLen
    requires Window(dict, src, lookaheadPos - maxDist, lookaheadPos + maxMatchLen)
    requires 1 <= dist <= maxDist && probePos == (lookaheadPos - dist) % LZ_DICT_SIZE
    requires var pos := lookaheadPos % LZ_DICT_SIZE; dict[pos..pos + n] == dict[probePos..probePos + n]
    ensures MatchAt(src, lookaheadPos, n, dist)
  {
    hide Window;
    WindowHas(dict, src, lookaheadPos - maxDist, lookaheadPos + maxMatchLen);
    forall j | lookaheadPos <= j < lookaheadPos + n
      ensures src[j] == src[j - dist]
    {
      var i, pos := j - lookaheadPos, lookaheadPos % LZ_DICT_SIZE;
      assert dict[pos..pos + n][i] == dict[probePos..probePos + n][i];
      WindowRead(dict, src, lookaheadPos - maxDist, lookaheadPos + maxMatchLen, lookaheadPos, i);
      WindowRead(dict, src, lookaheadPos - maxDist, lookaheadPos + maxMatchLen, lookaheadPos - dist, i);
    }
  }

  /** The dictionary position to which `k` links of the hash chain lead. */
  ghost function Chain(next: seq<u16>, probePos: nat, k: nat): (p: nat)
    requires |next| == LZ_DICT_SIZE && probePos < LZ_DICT_SIZE
    ensures p < LZ_DICT_SIZE
  {
    if k == 0 then probePos else next[Chain(next, probePos, k - 1)] as nat % LZ_DICT_SIZE
  }

  /** Follow the hash chain for up to three entries: `found` when one of them looks promising. */
  method Probe(dict: array<byte>, next: array<u16>, lookaheadPos: nat, maxDist: nat, probePos0: nat, matchLen: nat,
               c0: byte, c1: byte)
    returns (found: bool, end: bool, probePos: nat, dist: nat)
    requires dict.Length == DICT_LENGTH && next.Length == LZ_DICT_SIZE && probePos0 < LZ_DICT_SIZE
    requires 1 <= matchLen < MAX_MATCH_LEN && maxDist <= lookaheadPos
    ensures probePos < LZ_DICT_SIZE && !(found && end)
    ensures found ==> dist <= maxDist && probePos == (lookaheadPos - dist) % LZ_DICT_SIZE
    ensures found ==> dict[probePos + matchLen] == c0 && dict[probePos + matchLen - 1] == c1
    ensures found ==> exists k :: 1 <= k <= 3 && probePos == Chain(next[..], probePos0, k)
    ensures !found && !end ==> probePos == Chain(next[..], probePos0, 3)
  {
    found, end, probePos, dist := false, false, probePos0, 0;
    for i := 0 to 3
      invariant probePos < LZ_DICT_SIZE && !found && !end && probePos == Chain(next[..], probePos0, i)
    {
      var n := next[probePos];
      if n == 0 {
        end := true;
        return;
      }
      dist := (lookaheadPos - n) % 0x10000;
      if dist > maxDist {
        end := true;
        return;
      }
      ProbeDistance(lookaheadPos, n);
      probePos := n % LZ_DICT_SIZE;
      assert probePos == Chain(next[..], probePos0, i + 1);
      if dict[probePos + matchLen] == c0 && dict[probePos + matchLen - 1] == c1 {
        found := true;
        return;
      }
    }
  }

  /** `tdefl_find_match`: whatever the hash chains hold, a match it returns is a true one. */
  method FindMatch(dict: array<byte>, next: array<u16>, lookaheadPos: nat, maxDist: nat, maxMatchLen: nat,
                   probesShort: nat, probesLong: nat, dist0: nat, len0: nat, ghost src: seq<byte>)
    returns (matchDist: nat, matchLen: nat)
    requires next.Length == LZ_DICT_SIZE && maxDist <= lookaheadPos && maxMatchLen <= MAX_MATCH_LEN
    requires Window(dict[..], src, lookaheadPos - maxDist, lookaheadPos + maxMatchLen)
    requires 2 <= len0 < MAX_MATCH_LEN && probesShort > 0 && probesLong > 0
    ensures (matchLen == len0 && matchDist == dist0)
         || (len0 < matchLen <= maxMatchLen && matchDist <= maxDist && MatchAt(src, lookaheadPos, matchLen, matchDist))
  {
    matchDist, matchLen := dist0, len0;
    var pos := lookaheadPos % LZ_DICT_SIZE;
    var probePos: nat := pos;
    var probesLeft := if matchLen >= 32 then probesLong else probesShort;
    var c0, c1 := dict[pos + matchLen], dict[pos + matchLen - 1];
    if maxMatchLen <= matchLen {
      return;
    }
    while true
      invariant probesLeft > 0 && probePos < LZ_DICT_SIZE && len0 <= matchLen < maxMatchLen
      invariant (matchLen == len0 && matchDist == dist0)
             || (len0 < matchLen && matchDist <= maxDist && MatchAt(src, lookaheadPos, matchLen, matchDist))
      decreases probesLeft
    {
      var found, end := false, false;
      var dist: nat := 0;
      ghost var before := probesLeft;
      while !found
        invariant probesLeft > 0 && probePos < LZ_DICT_SIZE
        invariant found ==> dist <= maxDist && probePos == (lookaheadPos - dist) % LZ_DICT_SIZE
        invariant found ==> probesLeft < before
        invariant probesLeft <= before
        decreases probesLeft, if found then 0 else 1
      {
        probesLeft := probesLeft - 1;
        if probesLeft == 0 {
          return;
        }
        found, end, probePos, dist := Probe(dict, next, lookaheadPos, maxDist, probePos, matchLen, c0, c1);
        if end {
          return;
        }
      }
      if dist == 0 {
        break;
      }
      var probeLen := MatchLength(dict, pos, probePos, maxMatchLen);
      if probeLen > matchLen {
        ProbeMatches(dict[..], src, lookaheadPos, maxDist, maxMatchLen, dist, probePos, probeLen);
        matchDist, matchLen := dist, probeLen;
        if matchLen == maxMatchLen {
          return;
        }
        c0, c1 := dict[pos + matchLen], dict[pos + matchLen - 1];
      }
    }
  }
}
