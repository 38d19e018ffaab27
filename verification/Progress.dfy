/** Every step of the inflate machine makes progress: it reads input, or produces output, or comes closer
    to doing one of the two.  So a run over finite input with finite room for output ends, even with the
    incomplete codes whose only symbol takes no bits. */
module Progress {
  import opened Bits
  import opened Canonical
  import opened DecodeTable
  import opened Tokens
  import opened Inflate

  /** A bound on the steps that neither read nor write. */
  ghost function Rank(q: Inflater): nat
    requires Ok(q)
  {
    match q.pc
    case RawAlign => 1
    case FinalAlign => 2
    case Trailer(_) => 1
    case LitLen => 1
    case DistSym => 2
    case DistExtra(_) => 2
    case LenExtra(_) => 3
    case CodeLen => 4 + (q.tableSizes[0] + q.tableSizes[1] - |q.lenCodes|)
    case _ => 0
  }

  /** `q'` with `s'` ahead is closer to the end than `q` with `s` ahead. */
  ghost predicate Closer(q: Inflater, s: bits, q': Inflater, s': bits)
    requires Ok(q) && Ok(q')
  {
    |s'| < |s| || (|s'| == |s| && (|q'.out| > |q.out| || (|q'.out| == |q.out| && Rank(q') < Rank(q))))
  }

  lemma {:induction false} ExitLength(sizes: seq<nat>, a: bits, k: nat)
    requires k > 0
    ensures FirstExit(sizes, a, k).Some? ==> FirstExit(sizes, a, k).value.len > 0
    decreases |a| - k
  {
    if k <= |a| && Interior(sizes, a[..k]) {
      ExitLength(sizes, a, k + 1);
    }
  }

  /** Only symbol 0 can come for free. */
  lemma FreeSymbol(sizes: seq<nat>, a: bits)
    requires Decode(sizes, a).Some? && Decode(sizes, a).value.len == 0
    ensures Decode(sizes, a).value.sym == 0
  {
    hide Interior, CodeWord, FirstExit;
    ExitLength(sizes, a, FAST_BITS + 1);
  }

  lemma FreeFeed(q: Inflater)
    requires Ok(q) && Want(q).NeedSymbol? && Answer(q, 0) && Ok(Feed(q, 0))
    ensures |Feed(q, 0).out| == |q.out| && Rank(Feed(q, 0)) < Rank(q)
  {
    hide Buildable, LENGTH_BASE, LENGTH_EXTRA, DIST_BASE, DIST_EXTRA, StaticLit, StaticDist;
    FirstDistance();
  }

  lemma FirstDistance()
    ensures |DIST_EXTRA| > 0 && DIST_EXTRA[0] == 0
  {
  }

  lemma NoBitsFeed(q: Inflater, v: nat)
    requires Ok(q) && Want(q) == NeedBits(0) && Answer(q, v) && Ok(Feed(q, v))
    ensures |Feed(q, v).out| == |q.out| && Rank(Feed(q, v)) < Rank(q)
  {
    hide Buildable, LENGTH_BASE, LENGTH_EXTRA, DIST_BASE, DIST_EXTRA, StaticLit, StaticDist, Pow2, CodeLengthsDone;
  }

  lemma AlignFeed(q: Inflater)
    requires Ok(q) && Want(q).AlignByte? && Answer(q, 0) && Ok(Feed(q, 0))
    ensures |Feed(q, 0).out| == |q.out| && Rank(Feed(q, 0)) < Rank(q)
  {
    hide Buildable, StaticLit, StaticDist, Pow2;
  }

  lemma StepCloser(q: Inflater, s: bits)
    requires Ok(q) && Step(q, s).Next?
    ensures Ok(Step(q, s).q) && Closer(q, s, Step(q, s).q, Step(q, s).rest)
  {
    hide Ok, Feed, Decode, Buildable, Rank, Answer;
    StepOk(q, s);
    StepOutput(q, s);
    match Want(q)
    case NeedBits(n) =>
      ValBound(s[..n]);
      BitsAnswer(q, Val(s[..n]));
      if n == 0 {
        NoBitsFeed(q, Val(s[..n]));
      }
    case NeedSymbol(t) =>
      BuildableWhenUsed(q);
      BuildableValid(SizesOf(q, t));
      DecodeStable(SizesOf(q, t), s, []);
      if Decode(SizesOf(q, t), s).value.len == 0 {
        FreeSymbol(SizesOf(q, t), s);
        SymbolAnswer(q);
        FreeFeed(q);
      }
    case AlignByte =>
      AlignAnswer(q);
      AlignFeed(q);
    case Emit(b) =>
    case Halt =>
  }

  lemma BitsAnswer(q: Inflater, v: nat)
    requires Ok(q) && Want(q).NeedBits? && v < Pow2(Want(q).n)
    ensures Answer(q, v)
  {
    hide Ok, Pow2, Want;
  }

  lemma SymbolAnswer(q: Inflater)
    requires Ok(q) && Want(q).NeedSymbol?
    ensures Answer(q, 0)
  {
    hide Ok, Want;
  }

  lemma AlignAnswer(q: Inflater)
    requires Ok(q) && Want(q).AlignByte?
    ensures Answer(q, 0)
  {
    hide Ok, Want;
  }

  lemma {:induction false} RunCloser(n: nat, q: Inflater, s: bits)
    requires Ok(q) && n > 0 && StepN(n, q, s).Some?
    ensures Ok(StepN(n, q, s).value.0) && Closer(q, s, StepN(n, q, s).value.0, StepN(n, q, s).value.1)
  {
    hide Ok, Step, Rank;
    StepCloser(q, s);
    StepOk(q, s);
    if n > 1 {
      RunCloser(n - 1, Step(q, s).q, Step(q, s).rest);
    }
  }

  /** A run that changed anything got closer to the end. */
  lemma ReachCloser(q: Inflater, s: bits, q': Inflater, s': bits)
    requires Reaches(q, s, q', s') && (q, s) != (q', s')
    ensures Ok(q) && Ok(q') && Closer(q, s, q', s')
  {
    hide Ok, Step, Rank;
    var n: nat :| StepN(n, q, s) == Some((q', s'));
    RunCloser(n, q, s);
  }

  // ---------- what no step changes ----------

  /** Framing and kind of buffer are chosen once. */
  lemma ReachFrame(q: Inflater, s: bits, q': Inflater, left: bits)
    requires Reaches(q, s, q', left)
    ensures q'.zlib == q.zlib && q'.window == q.window && (!q.pc.ZHdr0? ==> !q'.pc.ZHdr0? && q'.zhdr0 == q.zhdr0)
  {
    hide Ok, StepN;
    var n: nat :| StepN(n, q, s) == Some((q', left));
    RunFrame(n, q, s);
  }

  lemma {:induction false} RunFrame(n: nat, q: Inflater, s: bits)
    requires Ok(q) && StepN(n, q, s).Some?
    ensures var q' := StepN(n, q, s).value.0;
      q'.zlib == q.zlib && q'.window == q.window && (!q.pc.ZHdr0? ==> !q'.pc.ZHdr0? && q'.zhdr0 == q.zhdr0)
  {
    hide Ok, Step;
    if n > 0 {
      StepOk(q, s);
      StepFrame(q, s);
      RunFrame(n - 1, Step(q, s).q, Step(q, s).rest);
    }
  }

  lemma StepFrame(q: Inflater, s: bits)
    requires Ok(q) && Step(q, s).Next?
    ensures var q' := Step(q, s).q;
      q'.zlib == q.zlib && q'.window == q.window && !q'.pc.ZHdr0? && (!q.pc.ZHdr0? ==> q'.zhdr0 == q.zhdr0)
  {
    hide Ok, Feed, Decode, Answer;
    match Want(q)
    case NeedBits(n) =>
      ValBound(s[..n]);
      BitsAnswer(q, Val(s[..n]));
      FeedSameFrame(q, Val(s[..n]));
    case NeedSymbol(t) =>
      DecodeInRange(SizesOf(q, t), s);
      SymbolAnswers(q, t, Decode(SizesOf(q, t), s).value.sym);
      FeedSameFrame(q, Decode(SizesOf(q, t), s).value.sym);
    case AlignByte =>
      AlignAnswer(q);
      FeedSameFrame(q, 0);
    case Emit(b) =>
      EmitAnswer(q, b);
      FeedSameFrame(q, b);
    case Halt =>
  }

  lemma EmitAnswer(q: Inflater, b: byte)
    requires Ok(q) && Want(q) == Emit(b)
    ensures Answer(q, b)
  {
    hide Ok, Want;
  }

  lemma FeedSameFrame(q: Inflater, v: nat)
    requires Ok(q) && Answer(q, v)
    ensures var q' := Feed(q, v);
      q'.zlib == q.zlib && q'.window == q.window && !q'.pc.ZHdr0? && (!q.pc.ZHdr0? ==> q'.zhdr0 == q.zhdr0)
  {
    hide Ok, Answer, Feed;
    match q.pc
    case CodeLen => LengthsSameFrame(q, v);
    case CodeLenRep(_) => LengthsSameFrame(q, v);
    case LitLen => SymbolsSameFrame(q, v);
    case PutLit(_) => SymbolsSameFrame(q, v);
    case LenExtra(_) => SymbolsSameFrame(q, v);
    case DistSym => SymbolsSameFrame(q, v);
    case DistExtra(_) => SymbolsSameFrame(q, v);
    case Copy => SymbolsSameFrame(q, v);
    case ZHdr0 => ZlibSameFrame(q, v);
    case ZHdr1 => ZlibSameFrame(q, v);
    case FinalAlign => ZlibSameFrame(q, v);
    case Trailer(_) => ZlibSameFrame(q, v);
    case TableSize(_) => TablesSameFrame(q, v);
    case CodeLenLen(_) => TablesSameFrame(q, v);
    case Done => NoAnswer(q, v);
    case Failed(_) => NoAnswer(q, v);
    case _ => BlocksSameFrame(q, v);
  }

  lemma SymbolsSameFrame(q: Inflater, v: nat)
    requires Ok(q) && Answer(q, v)
    requires q.pc.LitLen? || q.pc.PutLit? || q.pc.LenExtra? || q.pc.DistSym? || q.pc.DistExtra? || q.pc.Copy?
    ensures var q' := Feed(q, v);
      q'.zlib == q.zlib && q'.window == q.window && !q'.pc.ZHdr0? && q'.zhdr0 == q.zhdr0
  {
    hide Ok, Answer, Want, Pow2, Buildable, StaticLit, StaticDist, LENGTH_BASE, LENGTH_EXTRA, DIST_BASE, DIST_EXTRA,
      CodeLengthsDone, Transmitted, ZlibHeaderOk;
  }

  lemma ZlibSameFrame(q: Inflater, v: nat)
    requires Ok(q) && Answer(q, v) && (q.pc.ZHdr0? || q.pc.ZHdr1? || q.pc.FinalAlign? || q.pc.Trailer?)
    ensures var q' := Feed(q, v);
      q'.zlib == q.zlib && q'.window == q.window && !q'.pc.ZHdr0? && (!q.pc.ZHdr0? ==> q'.zhdr0 == q.zhdr0)
  {
    hide Ok, Answer, Want, Pow2, Buildable, StaticLit, StaticDist, LENGTH_BASE, LENGTH_EXTRA, DIST_BASE, DIST_EXTRA,
      CodeLengthsDone, Transmitted, ZlibHeaderOk;
  }

  lemma BlocksSameFrame(q: Inflater, v: nat)
    requires Ok(q) && Answer(q, v)
    requires (q.pc.BlockHdr? || q.pc.RawAlign? || q.pc.RawHdr? || q.pc.RawByte? || q.pc.RawPut?)
    ensures var q' := Feed(q, v);
      q'.zlib == q.zlib && q'.window == q.window && !q'.pc.ZHdr0? && (!q.pc.ZHdr0? ==> q'.zhdr0 == q.zhdr0)
  {
    hide Ok, Answer, Want, Pow2, Buildable, StaticLit, StaticDist, LENGTH_BASE, LENGTH_EXTRA, DIST_BASE, DIST_EXTRA,
      CodeLengthsDone, Transmitted, ZlibHeaderOk;
  }

  lemma TablesSameFrame(q: Inflater, v: nat)
    requires Ok(q) && Answer(q, v) && (q.pc.TableSize? || q.pc.CodeLenLen?)
    ensures var q' := Feed(q, v);
      q'.zlib == q.zlib && q'.window == q.window && !q'.pc.ZHdr0? && (!q.pc.ZHdr0? ==> q'.zhdr0 == q.zhdr0)
  {
    hide Ok, Answer, Want, Pow2, Buildable, StaticLit, StaticDist, LENGTH_BASE, LENGTH_EXTRA, DIST_BASE, DIST_EXTRA,
      CodeLengthsDone, Transmitted, ZlibHeaderOk;
  }

  lemma LengthsSameFrame(q: Inflater, v: nat)
    requires Ok(q) && Answer(q, v) && (q.pc.CodeLen? || q.pc.CodeLenRep?)
    ensures var q' := Feed(q, v); q'.zlib == q.zlib && q'.window == q.window && !q'.pc.ZHdr0? && q'.zhdr0 == q.zhdr0
  {
    hide Pow2, Buildable, StaticLit, StaticDist, LENGTH_BASE, LENGTH_EXTRA, DIST_BASE, DIST_EXTRA, SizesOk;
  }

  lemma SymbolAnswers(q: Inflater, t: nat, sym: nat)
    requires Ok(q) && Want(q) == NeedSymbol(t) && (sym == 0 || sym < |SizesOf(q, t)|)
    ensures Answer(q, sym)
  {
    hide Ok, Want;
  }
}
