/** Decompression through a circular buffer (src/external/miniz.h:4351-4370, 4392-4398, 4653-4679): it does what
    decompression into one large buffer does, as long as no match reaches back before the first byte. */
module Window {
  import opened Bits
  import opened Canonical
  import opened DecodeTable
  import opened Tokens
  import opened Inflate
  import opened Progress

  /** The same state with a circular buffer of size `w` that held `before` at first. */
  function InWindow(q: Inflater, w: nat, before: seq<byte>): Inflater {
    q.(window := w, out := before + q.out)
  }

  /** A match that is being copied is at most a dictionary away. */
  predicate Near(q: Inflater) {
    q.window == 0 && (q.pc.Copy? ==> q.dist <= LZ_DICT_SIZE)
  }

  /** The first byte of a zlib header announces a dictionary of a size that DEFLATE allows. */
  predicate HeaderAllows(q: Inflater) {
    !q.pc.ZHdr0? ==> q.zhdr0 / 16 <= 7
  }

  /** The same, before anything has been read. */
  ghost predicate StreamAllows(zlib: bool, s: bits) {
    zlib && |s| >= 8 ==> Val(s[..8]) / 16 <= 7
  }

  lemma FarthestBase(d: nat)
    requires d < 32
    ensures |DIST_BASE| == |DIST_EXTRA| == 32 && DIST_BASE[d] + Pow2(DIST_EXTRA[d]) - 1 <= LZ_DICT_SIZE
  {
    Pow2Values();
  }

  lemma DictionarySize(k: nat)
    requires k <= 7
    ensures Pow2(8 + k) <= LZ_DICT_SIZE
  {
    hide Pow2;
    Pow2Values();
    Pow2Mono(8 + k, 15);
  }

  lemma BackNear(q: Inflater, w: nat, before: seq<byte>)
    requires Ok(q) && Near(q) && q.pc.Copy? && LZ_DICT_SIZE <= w
    ensures Back(q) == q.dist && Back(InWindow(q, w, before)) == q.dist
  {
    hide SizesOk;
    DivModUnique(q.dist + w - 1, w, 1, q.dist - 1);
  }

  lemma OkInWindow(q: Inflater, w: nat, before: seq<byte>)
    requires Ok(q) && Near(q) && LZ_DICT_SIZE <= w <= |before|
    ensures Ok(InWindow(q, w, before))
  {
    hide SizesOk, Back;
    if q.pc.Copy? {
      BackNear(q, w, before);
    }
  }

  lemma WantInWindow(q: Inflater, w: nat, before: seq<byte>)
    requires Ok(q) && Near(q) && LZ_DICT_SIZE <= w <= |before|
    ensures Ok(InWindow(q, w, before)) && Want(InWindow(q, w, before)) == Want(q)
    ensures forall t :: SizesOf(InWindow(q, w, before), t) == SizesOf(q, t)
  {
    hide SizesOk, SizesPlausible, Back, LENGTH_EXTRA, DIST_EXTRA;
    OkInWindow(q, w, before);
    if q.pc.Copy? {
      BackNear(q, w, before);
    }
  }

  lemma AnswerInWindow(q: Inflater, w: nat, before: seq<byte>, v: nat)
    requires Ok(q) && Near(q) && LZ_DICT_SIZE <= w <= |before| && Answer(q, v)
    ensures Ok(InWindow(q, w, before)) && Answer(InWindow(q, w, before), v)
  {
    hide Ok, Want, SizesOf;
    WantInWindow(q, w, before);
  }

  lemma StartInWindow(q: Inflater, dist: nat, w: nat, before: seq<byte>)
    requires q.window == 0 && 0 < w && StartCopy(q, dist).pc != Failed(37)
    ensures StartCopy(InWindow(q, w, before), dist) == InWindow(StartCopy(q, dist), w, before)
    ensures StartCopy(q, dist).window == 0 && StartCopy(q, dist).dist == dist
  {
  }

  lemma DoneInWindow(q: Inflater, w: nat, before: seq<byte>)
    requires |q.tableSizes| == 3
    ensures CodeLengthsDone(InWindow(q, w, before)) == InWindow(CodeLengthsDone(q), w, before)
    ensures !CodeLengthsDone(q).pc.Copy? && CodeLengthsDone(q).window == q.window
  {
    hide Buildable;
  }

  lemma FeedPlain(q: Inflater, w: nat, before: seq<byte>, v: nat)
    requires Ok(q) && Near(q) && HeaderAllows(q) && LZ_DICT_SIZE <= w <= |before| && Answer(q, v)
    requires Feed(q, v).pc != Failed(37) && !q.pc.ZHdr1? && !q.pc.CodeLen? && !q.pc.CodeLenRep?
    requires !q.pc.DistSym? && !q.pc.DistExtra? && !q.pc.Copy?
    requires !q.pc.RawHdr? && !q.pc.TableSize? && !q.pc.CodeLenLen? && !q.pc.RawPut? && !q.pc.PutLit?
    requires !q.pc.LitLen? && !q.pc.BlockHdr?
    ensures Ok(InWindow(q, w, before)) && Answer(InWindow(q, w, before), v)
    ensures Near(Feed(q, v)) && Feed(InWindow(q, w, before), v) == InWindow(Feed(q, v), w, before)
  {
    hide Ok, Answer, Want, Pow2, Buildable, StaticLit, StaticDist, LENGTH_BASE, LENGTH_EXTRA, DIST_BASE, DIST_EXTRA,
      SizesOk, CodeLengthsDone, Back;
    AnswerInWindow(q, w, before, v);
  }

  lemma FeedLitLen(q: Inflater, w: nat, before: seq<byte>, v: nat)
    requires Ok(q) && Near(q) && HeaderAllows(q) && LZ_DICT_SIZE <= w <= |before| && Answer(q, v)
    requires Feed(q, v).pc != Failed(37) && q.pc.LitLen?
    ensures Ok(InWindow(q, w, before)) && Answer(InWindow(q, w, before), v)
    ensures Near(Feed(q, v)) && Feed(InWindow(q, w, before), v) == InWindow(Feed(q, v), w, before)
  {
    hide Ok, Answer, Want, Pow2, Buildable, StaticLit, StaticDist, LENGTH_BASE, LENGTH_EXTRA, DIST_BASE, DIST_EXTRA,
      SizesOk, CodeLengthsDone, Back;
    AnswerInWindow(q, w, before, v);
  }

  lemma FeedBlockHdr(q: Inflater, w: nat, before: seq<byte>, v: nat)
    requires Ok(q) && Near(q) && HeaderAllows(q) && LZ_DICT_SIZE <= w <= |before| && Answer(q, v)
    requires Feed(q, v).pc != Failed(37) && q.pc.BlockHdr?
    ensures Ok(InWindow(q, w, before)) && Answer(InWindow(q, w, before), v)
    ensures Near(Feed(q, v)) && Feed(InWindow(q, w, before), v) == InWindow(Feed(q, v), w, before)
  {
    hide Ok, Answer, Want, Pow2, Buildable, StaticLit, StaticDist, LENGTH_BASE, LENGTH_EXTRA, DIST_BASE, DIST_EXTRA,
      SizesOk, CodeLengthsDone, Back;
    AnswerInWindow(q, w, before, v);
  }

  lemma FeedRawHeader(q: Inflater, w: nat, before: seq<byte>, v: nat)
    requires Ok(q) && Near(q) && HeaderAllows(q) && LZ_DICT_SIZE <= w <= |before| && Answer(q, v)
    requires Feed(q, v).pc != Failed(37) && q.pc.RawHdr?
    ensures Ok(InWindow(q, w, before)) && Answer(InWindow(q, w, before), v)
    ensures Near(Feed(q, v)) && Feed(InWindow(q, w, before), v) == InWindow(Feed(q, v), w, before)
  {
    hide Ok, Answer, Want, Pow2, Buildable, StaticLit, StaticDist, LENGTH_BASE, LENGTH_EXTRA, DIST_BASE, DIST_EXTRA,
      SizesOk, CodeLengthsDone, Back;
    AnswerInWindow(q, w, before, v);
  }

  lemma FeedSizes(q: Inflater, w: nat, before: seq<byte>, v: nat)
    requires Ok(q) && Near(q) && HeaderAllows(q) && LZ_DICT_SIZE <= w <= |before| && Answer(q, v)
    requires Feed(q, v).pc != Failed(37) && (q.pc.TableSize? || q.pc.CodeLenLen?)
    ensures Ok(InWindow(q, w, before)) && Answer(InWindow(q, w, before), v)
    ensures Near(Feed(q, v)) && Feed(InWindow(q, w, before), v) == InWindow(Feed(q, v), w, before)
  {
    hide Ok, Transmitted, Answer, Want, Pow2, Buildable, StaticLit, StaticDist, LENGTH_BASE, LENGTH_EXTRA, DIST_BASE,
      DIST_EXTRA, SizesOk, CodeLengthsDone, Back;
    AnswerInWindow(q, w, before, v);
  }

  lemma FeedPut(q: Inflater, w: nat, before: seq<byte>, v: nat)
    requires Ok(q) && Near(q) && HeaderAllows(q) && LZ_DICT_SIZE <= w <= |before| && Answer(q, v)
    requires Feed(q, v).pc != Failed(37) && (q.pc.RawPut? || q.pc.PutLit?)
    ensures Ok(InWindow(q, w, before)) && Answer(InWindow(q, w, before), v)
    ensures Near(Feed(q, v)) && Feed(InWindow(q, w, before), v) == InWindow(Feed(q, v), w, before)
  {
    hide Ok, Answer, Want, Pow2, Buildable, StaticLit, StaticDist, LENGTH_BASE, LENGTH_EXTRA, DIST_BASE, DIST_EXTRA,
      SizesOk, CodeLengthsDone, Back;
    AnswerInWindow(q, w, before, v);
  }

  lemma FeedCopy(q: Inflater, w: nat, before: seq<byte>, v: nat)
    requires Ok(q) && Near(q) && HeaderAllows(q) && LZ_DICT_SIZE <= w <= |before| && Answer(q, v)
    requires Feed(q, v).pc != Failed(37) && q.pc.Copy?
    ensures Ok(InWindow(q, w, before)) && Answer(InWindow(q, w, before), v)
    ensures Near(Feed(q, v)) && Feed(InWindow(q, w, before), v) == InWindow(Feed(q, v), w, before)
  {
    hide Pow2, Buildable, StaticLit, StaticDist, LENGTH_BASE, LENGTH_EXTRA, DIST_BASE, DIST_EXTRA, SizesOk,
      CodeLengthsDone, Back;
    AnswerInWindow(q, w, before, v);
  }

  lemma FeedHeader(q: Inflater, w: nat, before: seq<byte>, v: nat)
    requires Ok(q) && Near(q) && HeaderAllows(q) && LZ_DICT_SIZE <= w <= |before| && Answer(q, v)
    requires Feed(q, v).pc != Failed(37) && q.pc.ZHdr1?
    ensures Ok(InWindow(q, w, before)) && Answer(InWindow(q, w, before), v)
    ensures Near(Feed(q, v)) && Feed(InWindow(q, w, before), v) == InWindow(Feed(q, v), w, before)
  {
    hide Pow2, SizesOk, SizesPlausible;
    AnswerInWindow(q, w, before, v);
    Pow2Values();
    HeaderInWindow(q, w, v);
  }

  lemma FeedLengths(q: Inflater, w: nat, before: seq<byte>, v: nat)
    requires Ok(q) && Near(q) && HeaderAllows(q) && LZ_DICT_SIZE <= w <= |before| && Answer(q, v)
    requires Feed(q, v).pc != Failed(37) && (q.pc.CodeLen? || q.pc.CodeLenRep?)
    ensures Ok(InWindow(q, w, before)) && Answer(InWindow(q, w, before), v)
    ensures Near(Feed(q, v)) && Feed(InWindow(q, w, before), v) == InWindow(Feed(q, v), w, before)
  {
    hide Pow2, Buildable, StaticLit, StaticDist, LENGTH_BASE, LENGTH_EXTRA, DIST_BASE, DIST_EXTRA, SizesOk,
      CodeLengthsDone, Back;
    AnswerInWindow(q, w, before, v);
    if q.pc.CodeLenRep? {
      var n := v + (if q.pc.rep == 18 then 11 else 3);
      var len := if q.pc.rep == 16 then q.lenCodes[|q.lenCodes| - 1] else 0;
      DoneInWindow(q.(lenCodes := q.lenCodes + Repeat(len, n)), w, before);
    } else if v < 16 {
      DoneInWindow(q.(lenCodes := q.lenCodes + [v]), w, before);
    }
  }

  lemma FeedDistance(q: Inflater, w: nat, before: seq<byte>, v: nat)
    requires Ok(q) && Near(q) && HeaderAllows(q) && LZ_DICT_SIZE <= w <= |before| && Answer(q, v)
    requires Feed(q, v).pc != Failed(37) && (q.pc.DistSym? || q.pc.DistExtra?)
    ensures Ok(InWindow(q, w, before)) && Answer(InWindow(q, w, before), v)
    ensures Near(Feed(q, v)) && Feed(InWindow(q, w, before), v) == InWindow(Feed(q, v), w, before)
  {
    hide Pow2, Buildable, DIST_BASE, DIST_EXTRA, Back, StartCopy;
    AnswerInWindow(q, w, before, v);
    var d := if q.pc.DistSym? then v else q.pc.dsym;
    FarthestBase(d);
    assert Pow2(0) == 1 by { Pow2Values(); }
    if q.pc.DistExtra? || DIST_EXTRA[d] == 0 {
      StartInWindow(q, if q.pc.DistSym? then DIST_BASE[d] else DIST_BASE[d] + v, w, before);
    }
  }

  /** An answer has the same effect, unless it is a distance that only the large buffer finds too far. */
  lemma FeedInWindow(q: Inflater, w: nat, before: seq<byte>, v: nat)
    requires Ok(q) && Near(q) && HeaderAllows(q) && LZ_DICT_SIZE <= w <= |before| && Answer(q, v)
    requires Feed(q, v).pc != Failed(37)
    ensures Ok(InWindow(q, w, before)) && Answer(InWindow(q, w, before), v)
    ensures Near(Feed(q, v)) && Feed(InWindow(q, w, before), v) == InWindow(Feed(q, v), w, before)
  {
    hide Ok, Near, HeaderAllows, InWindow, Answer, Feed;
    match q.pc
    case ZHdr1 => FeedHeader(q, w, before, v);
    case CodeLen => FeedLengths(q, w, before, v);
    case CodeLenRep(_) => FeedLengths(q, w, before, v);
    case DistSym => FeedDistance(q, w, before, v);
    case DistExtra(_) => FeedDistance(q, w, before, v);
    case Copy => FeedCopy(q, w, before, v);
    case LitLen => FeedLitLen(q, w, before, v);
    case BlockHdr => FeedBlockHdr(q, w, before, v);
    case RawHdr(_) => FeedRawHeader(q, w, before, v);
    case TableSize(_) => FeedSizes(q, w, before, v);
    case CodeLenLen(_) => FeedSizes(q, w, before, v);
    case RawPut(_) => FeedPut(q, w, before, v);
    case PutLit(_) => FeedPut(q, w, before, v);
    case _ => FeedPlain(q, w, before, v);
  }

  lemma HeaderInWindow(q: Inflater, w: nat, v: nat)
    requires Ok(q) && q.pc.ZHdr1? && v < 256 && LZ_DICT_SIZE <= w && q.zhdr0 / 16 <= 7
    ensures ZlibHeaderOk(q.zhdr0, v, w) == ZlibHeaderOk(q.zhdr0, v, 0)
  {
    hide Ok, Pow2;
    DictionarySize(q.zhdr0 / 16);
  }

  lemma StepInWindow(q: Inflater, s: bits, w: nat, before: seq<byte>)
    requires Ok(q) && Near(q) && HeaderAllows(q) && LZ_DICT_SIZE <= w <= |before|
    requires Step(q, s).Next? ==> Step(q, s).q.pc != Failed(37)
    ensures Ok(InWindow(q, w, before))
    ensures Step(q, s).Stuck? ==> Step(InWindow(q, w, before), s).Stuck?
    ensures Step(q, s).Next? ==> Near(Step(q, s).q)
    ensures Step(q, s).Next? ==>
      Step(InWindow(q, w, before), s) == Next(InWindow(Step(q, s).q, w, before), Step(q, s).rest)
  {
    hide Ok, Feed, Decode, Answer, Want, Near, HeaderAllows, InWindow, SizesOf;
    WantInWindow(q, w, before);
    match Want(q)
    case NeedBits(n) =>
      if |s| >= n {
        ValBound(s[..n]);
        BitsAnswer(q, Val(s[..n]));
        FeedInWindow(q, w, before, Val(s[..n]));
      }
    case NeedSymbol(t) =>
      if Decode(SizesOf(q, t), s).Some? {
        DecodeInRange(SizesOf(q, t), s);
        SymbolAnswers(q, t, Decode(SizesOf(q, t), s).value.sym);
        FeedInWindow(q, w, before, Decode(SizesOf(q, t), s).value.sym);
      }
    case AlignByte =>
      AlignAnswer(q);
      FeedInWindow(q, w, before, 0);
    case Emit(b) =>
      EmitAnswer(q, b);
      FeedInWindow(q, w, before, b);
    case Halt =>
  }

  lemma HaltedFor(q: Inflater, s: bits)
    requires Ok(q) && q.pc == Failed(37)
    ensures Step(q, s).Stuck?
  {
    hide SizesOk;
  }

  lemma {:induction false} RunInWindow(n: nat, q: Inflater, s: bits, w: nat, before: seq<byte>)
    requires Ok(q) && Near(q) && HeaderAllows(q) && !q.pc.ZHdr0? && LZ_DICT_SIZE <= w <= |before|
    requires StepN(n, q, s).Some? && StepN(n, q, s).value.0.pc != Failed(37)
    ensures Ok(InWindow(q, w, before)) && Near(StepN(n, q, s).value.0)
    ensures StepN(n, InWindow(q, w, before), s)
         == Some((InWindow(StepN(n, q, s).value.0, w, before), StepN(n, q, s).value.1))
  {
    hide Ok, Step, Near, InWindow;
    OkInWindow(q, w, before);
    if n > 0 {
      var r := Step(q, s);
      StepOk(q, s);
      if n > 1 {
        HaltedLate(n - 1, r.q, r.rest);
      }
      StepInWindow(q, s, w, before);
      StepFrame(q, s);
      RunInWindow(n - 1, r.q, r.rest, w, before);
    }
  }

  /** Whatever goes on has not failed. */
  lemma HaltedLate(n: nat, q: Inflater, s: bits)
    requires Ok(q) && n > 0 && StepN(n, q, s).Some?
    ensures q.pc != Failed(37)
  {
    hide Ok, Step;
    if q.pc == Failed(37) {
      HaltedFor(q, s);
    }
  }

  lemma FirstByte(zlib: bool, s: bits, w: nat, before: seq<byte>)
    requires StreamAllows(zlib, s) && LZ_DICT_SIZE <= w <= |before|
    ensures Ok(Initial(zlib)) && Ok(InitialIn(zlib, w, before))
    ensures InitialIn(zlib, w, before) == InWindow(Initial(zlib), w, before)
    ensures Near(Initial(zlib)) && HeaderAllows(Initial(zlib))
    ensures Step(Initial(zlib), s).Next? ==> HeaderAllows(Step(Initial(zlib), s).q)
    ensures Step(Initial(zlib), s).Next? ==>
      !Step(Initial(zlib), s).q.pc.ZHdr0? && Step(Initial(zlib), s).q.pc != Failed(37)
  {
    hide SizesOk, SizesPlausible, Buildable, StaticLit, StaticDist, Pow2;
    assert before + [] == before;
  }

  /** Any run that does not end because a distance is too far is also a run with a circular buffer. */
  lemma WindowRun(zlib: bool, s: bits, q: Inflater, rest: bits, w: nat, before: seq<byte>)
    requires Reaches(Initial(zlib), s, q, rest) && StreamAllows(zlib, s) && LZ_DICT_SIZE <= w <= |before|
    requires q.pc != Failed(37)
    ensures Near(q) && Reaches(InitialIn(zlib, w, before), s, InWindow(q, w, before), rest)
  {
    hide Ok, Step, Near, InWindow, StreamAllows, HeaderAllows, Initial, InitialIn;
    FirstByte(zlib, s, w, before);
    var q0, p0 := Initial(zlib), InitialIn(zlib, w, before);
    var n: nat :| StepN(n, q0, s) == Some((q, rest));
    if n == 0 {
      ReachRefl(p0, s);
    } else {
      var r := Step(q0, s);
      StepOk(q0, s);
      StepInWindow(q0, s, w, before);
      RunInWindow(n - 1, r.q, r.rest, w, before);
      assert StepN(n, p0, s) == Some((InWindow(q, w, before), rest));
    }
  }

  /** A circular buffer finds no distance too far. */
  lemma NeverTooFar(q: Inflater, s: bits, q': Inflater, s': bits)
    requires Reaches(q, s, q', s') && q.window > 0 && q.pc != Failed(37)
    ensures q'.pc != Failed(37)
  {
    hide Ok, StepN;
    var n: nat :| StepN(n, q, s) == Some((q', s'));
    RunNeverTooFar(n, q, s);
  }

  lemma {:induction false} RunNeverTooFar(n: nat, q: Inflater, s: bits)
    requires Ok(q) && StepN(n, q, s).Some? && q.window > 0 && q.pc != Failed(37)
    ensures StepN(n, q, s).value.0.pc != Failed(37)
  {
    hide Ok, Step;
    if n > 0 {
      StepOk(q, s);
      StepFrame(q, s);
      StepNotTooFar(q, s);
      RunNeverTooFar(n - 1, Step(q, s).q, Step(q, s).rest);
    }
  }

  lemma StepNotTooFar(q: Inflater, s: bits)
    requires Ok(q) && Step(q, s).Next? && q.window > 0
    ensures Step(q, s).q.pc != Failed(37)
  {
    hide Ok, Feed, Decode, Answer;
    match Want(q)
    case NeedBits(n) =>
      ValBound(s[..n]);
      BitsAnswer(q, Val(s[..n]));
      FeedNotTooFar(q, Val(s[..n]));
    case NeedSymbol(t) =>
      DecodeInRange(SizesOf(q, t), s);
      SymbolAnswers(q, t, Decode(SizesOf(q, t), s).value.sym);
      FeedNotTooFar(q, Decode(SizesOf(q, t), s).value.sym);
    case AlignByte =>
      AlignAnswer(q);
      FeedNotTooFar(q, 0);
    case Emit(b) =>
      EmitAnswer(q, b);
      FeedNotTooFar(q, b);
    case Halt =>
  }

  lemma FeedNotTooFar(q: Inflater, v: nat)
    requires Ok(q) && Answer(q, v) && q.window > 0 && !q.pc.Failed?
    ensures Feed(q, v).pc != Failed(37)
  {
    hide Ok, Answer, Want, Pow2, Buildable, StaticLit, StaticDist, LENGTH_BASE, LENGTH_EXTRA, DIST_BASE, DIST_EXTRA,
      CodeLengthsDone, Transmitted, ZlibHeaderOk;
    if q.pc.CodeLen? || q.pc.CodeLenRep? {
      LengthsNotTooFar(q, v);
    }
  }

  lemma LengthsNotTooFar(q: Inflater, v: nat)
    requires Ok(q) && Answer(q, v) && (q.pc.CodeLen? || q.pc.CodeLenRep?)
    ensures Feed(q, v).pc != Failed(37)
  {
    hide Pow2, Buildable, SizesOk;
  }

  lemma AllowedAgrees(zlib: bool, s: bits, q: Inflater, rest: bits, w: nat, before: seq<byte>, p: Inflater, left: bits)
    requires Reaches(Initial(zlib), s, q, rest) && Ok(q) && Step(q, rest).Stuck?
    requires StreamAllows(zlib, s) && LZ_DICT_SIZE <= w <= |before|
    requires Reaches(InitialIn(zlib, w, before), s, p, left) && Ok(p) && Step(p, left).Stuck?
    ensures (p, left) == (InWindow(q, w, before), rest) <==> q.pc != Failed(37)
  {
    hide Ok, Step, Near, StreamAllows, HeaderAllows, Reaches;
    if q.pc != Failed(37) {
      WindowRun(zlib, s, q, rest, w, before);
      ReachOk(InitialIn(zlib, w, before), s, InWindow(q, w, before), rest);
      StuckInWindow(q, rest, w, before);
      StuckUnique(InitialIn(zlib, w, before), s, p, left, InWindow(q, w, before), rest);
    } else {
      NeverTooFar(InitialIn(zlib, w, before), s, p, left);
    }
  }

  // ---------- a dictionary that DEFLATE does not allow ----------

  /** The machine has the first byte of a header that announces too large a dictionary. */
  ghost predicate Oversized(q: Inflater) {
    Ok(q) && q.pc.ZHdr1? && q.zhdr0 < 256 && q.zhdr0 / 16 > 7
  }

  lemma FirstOversized(zlib: bool, s: bits, w: nat, before: seq<byte>)
    requires !StreamAllows(zlib, s) && w <= |before|
    ensures Ok(InitialIn(zlib, w, before)) && Step(InitialIn(zlib, w, before), s).Next?
    ensures var r := Step(InitialIn(zlib, w, before), s);
      && Oversized(r.q) && r.q.window == w && |r.rest| == |s| - 8
      && Ok(Initial(zlib)) && Step(Initial(zlib), s).Next? && Step(Initial(zlib), s).rest == r.rest
      && Oversized(Step(Initial(zlib), s).q) && r.q == InWindow(Step(Initial(zlib), s).q, w, before)
      && Step(Initial(zlib), s).q.window == 0
  {
    hide SizesOk, SizesPlausible, Val;
    Pow2Values();
    assert before + [] == before;
  }

  lemma DictionaryTooLarge(k: nat)
    requires k > 7
    ensures Pow2(8 + k) > 32768
  {
    hide Pow2;
    Pow2Values();
    Pow2Mono(16, 8 + k);
    assert Pow2(16) == 2 * Pow2(15) by { Pow2Next(15); }
  }

  lemma Pow2Next(k: nat)
    ensures Pow2(k + 1) == 2 * Pow2(k)
  {
  }

  /** A circular buffer refuses it, the large one may accept it. */
  lemma OversizedNext(q: Inflater, s: bits)
    requires Oversized(q)
    ensures |s| < 8 ==> Step(q, s).Stuck?
    ensures |s| >= 8 ==> Step(q, s).Next? && Ok(Step(q, s).q) && Step(q, s).rest == s[8..]
    ensures |s| >= 8 ==> Step(q, s).q == q.(pc := BlockHdr) || Step(q, s).q == q.(pc := Failed(36))
    ensures |s| >= 8 && q.window > 0 ==> Step(q, s).q.pc == Failed(36)
  {
    hide SizesOk, SizesPlausible, Val, Pow2;
    DictionaryTooLarge(q.zhdr0 / 16);
    StepOk(q, s);
  }

  /** The header is behind. */
  ghost predicate Past(q: Inflater) {
    !q.pc.ZHdr0? && !q.pc.ZHdr1? && q.pc != Failed(36)
  }

  lemma FeedPast(q: Inflater, v: nat)
    requires Ok(q) && Answer(q, v) && Past(q) && !q.pc.Failed?
    ensures Past(Feed(q, v))
  {
    hide Ok, Answer, Want, Pow2, Buildable, StaticLit, StaticDist, LENGTH_BASE, LENGTH_EXTRA, DIST_BASE, DIST_EXTRA,
      CodeLengthsDone, Transmitted, ZlibHeaderOk;
    if q.pc.CodeLen? || q.pc.CodeLenRep? {
      LengthsPast(q, v);
    }
  }

  lemma LengthsPast(q: Inflater, v: nat)
    requires Ok(q) && Answer(q, v) && (q.pc.CodeLen? || q.pc.CodeLenRep?)
    ensures Past(Feed(q, v))
  {
    hide Pow2, Buildable, SizesOk;
  }

  lemma StepPast(q: Inflater, s: bits)
    requires Ok(q) && Step(q, s).Next? && Past(q)
    ensures Past(Step(q, s).q)
  {
    hide Ok, Feed, Decode, Answer, Past;
    match Want(q)
    case NeedBits(n) =>
      ValBound(s[..n]);
      BitsAnswer(q, Val(s[..n]));
      FeedPast(q, Val(s[..n]));
    case NeedSymbol(t) =>
      DecodeInRange(SizesOf(q, t), s);
      SymbolAnswers(q, t, Decode(SizesOf(q, t), s).value.sym);
      FeedPast(q, Decode(SizesOf(q, t), s).value.sym);
    case AlignByte =>
      AlignAnswer(q);
      FeedPast(q, 0);
    case Emit(b) =>
      EmitAnswer(q, b);
      FeedPast(q, b);
    case Halt =>
  }

  lemma {:induction false} RunPast(n: nat, q: Inflater, s: bits)
    requires Ok(q) && StepN(n, q, s).Some? && Past(q)
    ensures Past(StepN(n, q, s).value.0)
  {
    hide Ok, Step, Past;
    if n > 0 {
      StepOk(q, s);
      StepPast(q, s);
      RunPast(n - 1, Step(q, s).q, Step(q, s).rest);
    }
  }

  lemma FailedStuck(q: Inflater, s: bits)
    requires Ok(q) && q.pc.Failed?
    ensures Step(q, s).Stuck?
  {
    hide SizesOk;
  }

  /** A run that ends goes on after its first step, unless that is all. */
  lemma Behind(q: Inflater, s: bits, q': Inflater, s': bits)
    requires Reaches(q, s, q', s') && Ok(q) && Step(q, s).Next? && Ok(q') && Step(q', s').Stuck?
    ensures Reaches(Step(q, s).q, Step(q, s).rest, q', s')
  {
    hide Ok, Step;
    var n: nat :| StepN(n, q, s) == Some((q', s'));
    StepOk(q, s);
    assert n > 0;
    assert StepN(n - 1, Step(q, s).q, Step(q, s).rest) == Some((q', s'));
  }

  /** From the second byte of the header on. */
  lemma OversizedAgrees(q1: Inflater, s: bits, q: Inflater, rest: bits, w: nat, before: seq<byte>, p: Inflater,
                        left: bits)
    requires Oversized(q1) && q1.window == 0 && Oversized(InWindow(q1, w, before)) && 0 < w <= |before|
    requires Reaches(q1, s, q, rest) && Ok(q) && Step(q, rest).Stuck?
    requires Reaches(InWindow(q1, w, before), s, p, left) && Ok(p) && Step(p, left).Stuck?
    ensures (p, left) == (InWindow(q, w, before), rest) <==> q.pc.ZHdr1? || q.pc == Failed(36)
    ensures q.pc == Failed(37) ==> (p, left) != (InWindow(q, w, before), rest)
  {
    hide Ok, Step, Reaches, Past;
    var p1 := InWindow(q1, w, before);
    OversizedNext(q1, s);
    OversizedNext(p1, s);
    if |s| < 8 {
      StuckStays(q1, s, q, rest);
      StuckStays(p1, s, p, left);
    } else {
      var q2, p2 := Step(q1, s).q, Step(p1, s).q;
      Behind(q1, s, q, rest);
      Behind(p1, s, p, left);
      FailedStuck(p2, s[8..]);
      StuckStays(p2, s[8..], p, left);
      if q2.pc.Failed? {
        FailedStuck(q2, s[8..]);
        StuckStays(q2, s[8..], q, rest);
      } else {
        PastStays(q2, s[8..], q, rest);
      }
    }
  }

  lemma PastStays(q: Inflater, s: bits, q': Inflater, s': bits)
    requires Reaches(q, s, q', s') && q.pc.BlockHdr?
    ensures !q'.pc.ZHdr1? && q'.pc != Failed(36)
  {
    hide Ok, Step, StepN;
    var n: nat :| StepN(n, q, s) == Some((q', s'));
    RunPast(n, q, s);
  }

  /** The two kinds of buffer give the same outcome exactly when no distance was found too far and the header announces
      a dictionary that DEFLATE allows, unless the header is not complete or is refused in any case. */
  lemma WindowAgrees(zlib: bool, s: bits, q: Inflater, rest: bits, w: nat, before: seq<byte>, p: Inflater, left: bits)
    requires Reaches(Initial(zlib), s, q, rest) && Ok(q) && Step(q, rest).Stuck? && LZ_DICT_SIZE <= w <= |before|
    requires Reaches(InitialIn(zlib, w, before), s, p, left) && Ok(p) && Step(p, left).Stuck?
    ensures (p, left) == (InWindow(q, w, before), rest) <==>
      q.pc != Failed(37) && (StreamAllows(zlib, s) || q.pc.ZHdr1? || q.pc == Failed(36))
  {
    hide Ok, Step, StreamAllows, Reaches, Oversized, Initial, InitialIn;
    if StreamAllows(zlib, s) {
      AllowedAgrees(zlib, s, q, rest, w, before, p, left);
    } else {
      FirstOversized(zlib, s, w, before);
      Behind(Initial(zlib), s, q, rest);
      Behind(InitialIn(zlib, w, before), s, p, left);
      OversizedAgrees(Step(Initial(zlib), s).q, Step(Initial(zlib), s).rest, q, rest, w, before, p, left);
    }
  }

  lemma StuckInWindow(q: Inflater, s: bits, w: nat, before: seq<byte>)
    requires Ok(q) && Near(q) && LZ_DICT_SIZE <= w <= |before| && Step(q, s).Stuck?
    ensures Ok(InWindow(q, w, before)) && Step(InWindow(q, w, before), s).Stuck?
  {
    hide Ok, Feed, Decode, Want, Near, InWindow, SizesOf;
    WantInWindow(q, w, before);
  }
}
