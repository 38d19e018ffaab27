/** The symbol loop of the decompressor undoes the compressor's token encoding: running the machine on
    the bits of a token list, followed by the end-of-block code, expands the tokens. */
module BlockBody {
  import opened Bits
  import opened Canonical
  import opened DecodeTable
  import opened Tokens
  import opened Inflate

  lemma StepSymbol(q: Inflater, sym: nat, rest: bits)
    requires Ok(q) && Want(q).NeedSymbol? && Uses(SizesOf(q, Want(q).table), sym)
    ensures Answer(q, sym)
    ensures Step(q, CodeWord(SizesOf(q, Want(q).table), sym) + rest) == Next(Feed(q, sym), rest)
  {
    hide Ok, Feed, Decode, Buildable;
    var sizes := SizesOf(q, Want(q).table);
    BuildableWhenUsed(q);
    BuildableValid(sizes);
    DecodeCodeWord(sizes, sym, rest);
    var s := CodeWord(sizes, sym) + rest;
    assert s[sizes[sym]..] == rest;
  }

  lemma StepBits(q: Inflater, v: nat, rest: bits)
    requires Ok(q) && Want(q).NeedBits?
    ensures v % Pow2(Want(q).n) < Pow2(Want(q).n)
    ensures Answer(q, v % Pow2(Want(q).n))
    ensures Step(q, Enc(v, Want(q).n) + rest) == Next(Feed(q, v % Pow2(Want(q).n)), rest)
  {
    hide Ok, Feed, Pow2;
    var n := Want(q).n;
    ValEncMod(v, n);
    var s := Enc(v, n) + rest;
    assert s[..n] == Enc(v, n) && s[n..] == rest;
  }

  lemma StepEmit(q: Inflater, s: bits)
    requires Ok(q) && Want(q).Emit?
    ensures Answer(q, Want(q).b)
    ensures Step(q, s) == Next(Feed(q, Want(q).b), s)
  {
    hide Ok, Feed;
  }

  /** `q` again at the symbol loop, with `out` as its output. */
  ghost predicate AtSymbol(q: Inflater, q': Inflater, out: seq<byte>) {
    && q'.pc.LitLen? && Ok(q')
    && q' == q.(pc := LitLen, out := out, counter := q'.counter, dist := q'.dist)
  }

  /** The copy loop. */
  lemma {:induction false} RunCopy(q: Inflater, s: bits) returns (q': Inflater)
    requires Ok(q) && q.pc.Copy?
    ensures Reaches(q, s, q', s)
    ensures AtSymbol(q, q', CopyBack(q.out, q.counter, Back(q)))
    decreases q.counter
  {
    hide Buildable, LENGTH_BASE, LENGTH_EXTRA, DIST_BASE, DIST_EXTRA, StepN;
    var b := q.out[|q.out| - Back(q)];
    StepEmit(q, s);
    ReachStep(q, s);
    FeedOk(q, b);
    var q1 := Feed(q, b);
    assert q1 == Emitted(q, b);
    if q.counter == 1 {
      q' := q1;
      assert CopyBack(q1.out, 0, Back(q)) == q1.out;
    } else {
      q' := RunCopy(q1, s);
      ReachTrans(q, s, q1, s, q', s);
    }
  }

  lemma RunLiteral(q: Inflater, b: byte, rest: bits) returns (q': Inflater)
    requires Ok(q) && q.pc.LitLen? && Uses(q.sizes0, b)
    ensures Reaches(q, CodeWord(q.sizes0, b) + rest, q', rest)
    ensures AtSymbol(q, q', q.out + [b])
  {
    hide Buildable, LENGTH_BASE, LENGTH_EXTRA, DIST_BASE, DIST_EXTRA, Reaches, CodeWord;
    var s := CodeWord(q.sizes0, b) + rest;
    StepSymbol(q, b, rest);
    ReachStep(q, s);
    FeedOk(q, b);
    var q1 := Feed(q, b);
    StepEmit(q1, rest);
    ReachStep(q1, rest);
    FeedOk(q1, b);
    q' := Feed(q1, b);
    ReachTrans(q, s, q1, rest, q', rest);
  }

  /** From the symbol loop over a length symbol and its extra bits to the distance symbol. */
  lemma RunLength(q: Inflater, l: nat, rest: bits) returns (q': Inflater)
    requires Ok(q) && q.pc.LitLen? && l < 256 && Uses(q.sizes0, LenSym(l))
    ensures Reaches(q, CodeWord(q.sizes0, LenSym(l)) + Enc(l, LenExtraBits(l)) + rest, q', rest)
    ensures Ok(q') && q' == q.(pc := DistSym, counter := l + 3)
  {
    hide Buildable, LENGTH_BASE, LENGTH_EXTRA, DIST_BASE, DIST_EXTRA, Reaches, CodeWord, LenSym, LenExtraBits, Enc,
      Pow2;
    LengthAgrees(l);
    var sym, n := LenSym(l), LenExtraBits(l);
    var s1 := Enc(l, n) + rest;
    var s := CodeWord(q.sizes0, sym) + s1;
    assert CodeWord(q.sizes0, sym) + Enc(l, n) + rest == s;
    StepSymbol(q, sym, s1);
    ReachStep(q, s);
    FeedOk(q, sym);
    var q1 := Feed(q, sym);
    if n == 0 {
      assert s1 == rest;
      assert Pow2(0) == 1 by { Pow2Values(); }
      q' := q1;
    } else {
      StepBits(q1, l, rest);
      ReachStep(q1, s1);
      FeedOk(q1, l % Pow2(n));
      q' := Feed(q1, l % Pow2(n));
      ReachTrans(q, s, q1, s1, q', rest);
    }
  }

  /** From the distance symbol over its extra bits and the copy back to the symbol loop. */
  lemma RunDistance(q: Inflater, d: nat, rest: bits) returns (q': Inflater)
    requires Ok(q) && q.pc.DistSym? && d < LZ_DICT_SIZE && Uses(q.sizes1, DistSymOf(d))
    requires d + 1 <= |q.out| && q.counter > 0 && q.window == 0
    ensures Reaches(q, CodeWord(q.sizes1, DistSymOf(d)) + Enc(d, DistExtraBits(d)) + rest, q', rest)
    ensures AtSymbol(q, q', CopyBack(q.out, q.counter, d + 1))
  {
    hide Buildable, LENGTH_BASE, LENGTH_EXTRA, DIST_BASE, DIST_EXTRA, Reaches, CodeWord, DistSymOf, DistExtraBits,
      Enc, Pow2;
    DistAgrees(d);
    var sym, n := DistSymOf(d), DistExtraBits(d);
    var s1 := Enc(d, n) + rest;
    var s := CodeWord(q.sizes1, sym) + s1;
    assert CodeWord(q.sizes1, sym) + Enc(d, n) + rest == s;
    StepSymbol(q, sym, s1);
    ReachStep(q, s);
    FeedOk(q, sym);
    var q1 := Feed(q, sym);
    var q2;
    if n == 0 {
      assert s1 == rest;
      assert Pow2(0) == 1 by { Pow2Values(); }
      q2 := q1;
    } else {
      StepBits(q1, d, rest);
      ReachStep(q1, s1);
      FeedOk(q1, d % Pow2(n));
      q2 := Feed(q1, d % Pow2(n));
      ReachTrans(q, s, q1, s1, q2, rest);
    }
    assert q2 == q.(pc := Copy, dist := d + 1);
    q' := RunCopy(q2, rest);
    ReachTrans(q, s, q2, rest, q', rest);
  }

  lemma RunToken(q: Inflater, t: Token, rest: bits) returns (q': Inflater)
    requires Ok(q) && q.pc.LitLen? && Encodable(q.sizes0, q.sizes1, t) && CanExpandOne(q.out, t) && q.window == 0
    ensures Reaches(q, TokenBits(q.sizes0, q.sizes1, t) + rest, q', rest)
    ensures AtSymbol(q, q', ExpandOne(q.out, t))
  {
    hide Ok, Reaches, CodeWord, LenSym, LenExtraBits, DistSymOf, DistExtraBits, Enc;
    match t
    case Literal(b) => q' := RunLiteral(q, b, rest);
    case Match(len, dist) =>
      var l, d := len - MIN_MATCH_LEN, dist - 1;
      var a := CodeWord(q.sizes0, LenSym(l)) + Enc(l, LenExtraBits(l));
      var b := CodeWord(q.sizes1, DistSymOf(d)) + Enc(d, DistExtraBits(d));
      assert a + b + rest == a + (b + rest);
      var q1 := RunLength(q, l, b + rest);
      q' := RunDistance(q1, d, rest);
      ReachTrans(q, a + (b + rest), q1, b + rest, q', rest);
  }

  /** Round trip of a token list (RFC 1951, sections 3.2.3 and 3.2.5). */
  lemma {:induction false} RunTokens(q: Inflater, ts: seq<Token>, rest: bits) returns (q': Inflater)
    requires Ok(q) && q.pc.LitLen? && AllEncodable(q.sizes0, q.sizes1, ts) && CanExpand(q.out, ts) && q.window == 0
    ensures Reaches(q, TokensBits(q.sizes0, q.sizes1, ts) + rest, q', rest)
    ensures AtSymbol(q, q', Expand(q.out, ts))
    decreases |ts|
  {
    hide Ok, Reaches, TokenBits, Encodable;
    if |ts| == 0 {
      assert [] + rest == rest;
      ReachRefl(q, rest);
      q' := q;
    } else {
      var a, b := TokenBits(q.sizes0, q.sizes1, ts[0]), TokensBits(q.sizes0, q.sizes1, ts[1..]);
      assert a + b + rest == a + (b + rest);
      var q1 := RunToken(q, ts[0], b + rest);
      q' := RunTokens(q1, ts[1..], rest);
      ReachTrans(q, a + (b + rest), q1, b + rest, q', rest);
    }
  }

  function BodyBits(lit: seq<nat>, dist: seq<nat>, ts: seq<Token>): bits
    requires AllEncodable(lit, dist, ts) && Uses(lit, 256)
  {
    TokensBits(lit, dist, ts) + CodeWord(lit, 256)
  }

  /** `q` after the end-of-block symbol. */
  ghost predicate AfterBlock(q: Inflater, q': Inflater, out: seq<byte>) {
    && Ok(q') && q'.out == out && q'.zlib == q.zlib && q'.window == q.window && q'.zAdler == q.zAdler
    && q'.final == q.final
    && q'.pc == (if q.final % 2 == 1 then FinalAlign else BlockHdr)
  }

  /** The block body decodes to the expansion of its tokens and stops at symbol 256. */
  lemma RunBody(q: Inflater, ts: seq<Token>, rest: bits) returns (q': Inflater)
    requires Ok(q) && q.pc.LitLen? && AllEncodable(q.sizes0, q.sizes1, ts) && Uses(q.sizes0, 256)
    requires CanExpand(q.out, ts) && q.window == 0
    ensures Reaches(q, BodyBits(q.sizes0, q.sizes1, ts) + rest, q', rest)
    ensures AfterBlock(q, q', Expand(q.out, ts))
  {
    hide Buildable, LENGTH_BASE, LENGTH_EXTRA, DIST_BASE, DIST_EXTRA, Reaches, TokensBits, CodeWord, Expand,
      AllEncodable;
    var a, e := TokensBits(q.sizes0, q.sizes1, ts), CodeWord(q.sizes0, 256);
    assert a + e + rest == a + (e + rest);
    var q1 := RunTokens(q, ts, e + rest);
    StepSymbol(q1, 256, rest);
    ReachStep(q1, e + rest);
    FeedOk(q1, 256);
    q' := Feed(q1, 256);
    ReachTrans(q, a + (e + rest), q1, e + rest, q', rest);
  }
}
