/** What the lazy-matching state machine of `tdefl_compress_normal` keeps: the recorded tokens, and the
    literal or match it still holds back, stand for the source up to the lookahead position. */
module Parsing {
  import opened Bits
  import opened Tokens
  import opened Dictionary

  /** `saved` describes the match held back (length 0 when there is none): it starts one byte before
      `pos`, and its first byte is `savedLit`. */
  datatype Saved = Saved(len: nat, dist: nat, lit: byte)

  /** The tokens `ts` of the current block, which begins at `start`, reproduce the source up to `pos`,
      except for the byte whose match is held back. */
  ghost predicate Parsed(src: seq<byte>, start: nat, ts: seq<Token>, pos: nat, s: Saved) {
    && start <= pos <= |src|
    && (s.len == 0 ==> Reproduces(src, start, ts, pos))
    && (s.len > 0 ==>
          && start < pos && Reproduces(src, start, ts, pos - 1) && s.lit == src[pos - 1]
          && MIN_MATCH_LEN <= s.len < 128 && MatchAt(src, pos - 1, s.len, s.dist))
  }

  ghost predicate Reproduces(src: seq<byte>, start: nat, ts: seq<Token>, pos: nat) {
    && start <= pos <= |src|
    && CanExpand(src[..start], ts) && Expand(src[..start], ts) == src[..pos]
  }

  lemma ReproducesLength(src: seq<byte>, start: nat, ts: seq<Token>, pos: nat)
    requires Reproduces(src, start, ts, pos)
    ensures pos == start + TotalLen(ts)
  {
    ExpandLength(src[..start], ts);
  }

  lemma ParsedLength(src: seq<byte>, start: nat, ts: seq<Token>, pos: nat, s: Saved)
    requires Parsed(src, start, ts, pos, s)
    ensures start + TotalLen(ts) == if s.len > 0 then pos - 1 else pos
  {
    ReproducesLength(src, start, ts, if s.len > 0 then pos - 1 else pos);
  }

  /** More source does not disturb what was parsed. */
  lemma ParsedExtend(src: seq<byte>, more: seq<byte>, start: nat, ts: seq<Token>, pos: nat, s: Saved)
    requires Parsed(src, start, ts, pos, s)
    ensures Parsed(src + more, start, ts, pos, s)
  {
    assert (src + more)[..start] == src[..start];
    assert (src + more)[..pos] == src[..pos];
    if s.len > 0 {
      assert (src + more)[..pos - 1] == src[..pos - 1];
    }
  }

  lemma AddLiteral(src: seq<byte>, start: nat, ts: seq<Token>, pos: nat)
    requires Reproduces(src, start, ts, pos) && pos < |src|
    ensures Reproduces(src, start, ts + [Literal(src[pos])], pos + 1)
  {
    ExpandSnoc(src[..start], ts, Literal(src[pos]));
    assert src[..pos + 1] == src[..pos] + [src[pos]];
  }

  lemma AddMatch(src: seq<byte>, start: nat, ts: seq<Token>, pos: nat, len: nat, dist: nat)
    requires Reproduces(src, start, ts, pos) && MatchAt(src, pos, len, dist) && MIN_MATCH_LEN <= len <= MAX_MATCH_LEN
    ensures Reproduces(src, start, ts + [Match(len, dist)], pos + len)
  {
    MatchExpands(src, pos, len, dist);
    ExpandSnoc(src[..start], ts, Match(len, dist));
  }

  /** When the lookahead is used up, nothing is held back. */
  lemma NothingPending(src: seq<byte>, start: nat, ts: seq<Token>, s: Saved)
    requires Parsed(src, start, ts, |src|, s)
    ensures s.len == 0 && Reproduces(src, start, ts, |src|)
  {
  }

  /** A block begins with no tokens. */
  lemma NothingParsed(src: seq<byte>, pos: nat)
    requires pos <= |src|
    ensures Reproduces(src, pos, [], pos)
  {
  }
}
