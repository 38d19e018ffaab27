/** Decompression through a circular buffer of 32768 bytes to a callback, `tinfl_decompress_mem_to_callback`
    (src/external/miniz.h:4864-4896). */
module Streaming {
  import opened Bits
  import opened DecodeTable
  import opened Tokens
  import opened Inflate
  import opened Progress
  import opened Flushing
  import opened Streams
  import opened Compressing
  import opened Window
  import opened Codec
  import Chunks
  import T = Tinfl
  import Adler32

  lemma DictionaryIsPower()
    ensures T.PowerOfTwo(LZ_DICT_SIZE) && LZ_DICT_SIZE > 0
  {
    assert T.PowerOfTwo(1) && T.PowerOfTwo(2) && T.PowerOfTwo(4) && T.PowerOfTwo(8) && T.PowerOfTwo(16)
      && T.PowerOfTwo(32);
    assert T.PowerOfTwo(64) && T.PowerOfTwo(128) && T.PowerOfTwo(256) && T.PowerOfTwo(512) && T.PowerOfTwo(1024);
    assert T.PowerOfTwo(2048) && T.PowerOfTwo(4096) && T.PowerOfTwo(8192) && T.PowerOfTwo(16384);
  }

  /** At the end of the buffer the next byte goes to its beginning: `& (TINFL_LZ_DICT_SIZE - 1)`. */
  lemma CarriesWrap(buf: seq<byte>, pos: nat, window: nat, history: seq<byte>)
    requires window > 0 && T.Carries(buf, pos, window, window, history)
    ensures T.Carries(buf, pos % window, window, window, history)
  {
    DivModUnique(pos % window, window, 0, pos % window);
  }

  /** What the dictionary holds at first. */
  ghost function Blank(): (b: seq<byte>)
    ensures |b| == LZ_DICT_SIZE && forall i :: 0 <= i < LZ_DICT_SIZE ==> b[i] == 0
  {
    seq(LZ_DICT_SIZE, _ => 0)
  }

  /** `bytes` are a stream of `data` with the right checksum, as the machine with a blank dictionary reads them. */
  ghost predicate Delivers(zlib: bool, bytes: seq<byte>, data: seq<byte>) {
    exists q, rest :: Reaches(InitialIn(zlib, LZ_DICT_SIZE, Blank()), BytesBits(bytes), q, rest) && q.pc.Done?
      && q.out == Blank() + data && (zlib ==> q.zAdler == Adler32.Adler(1, data))
  }

  method NewDictionary() returns (dict: array<byte>)
    ensures fresh(dict) && dict[..] == Blank() && dict.Length == LZ_DICT_SIZE > 0
  {
    dict := new byte[LZ_DICT_SIZE](_ => 0);
  }

  lemma DeliversIs(zlib: bool, bytes: seq<byte>, data: seq<byte>, q: Inflater, rest: bits)
    requires Reaches(InitialIn(zlib, LZ_DICT_SIZE, Blank()), BytesBits(bytes), q, rest) && q.pc.Done?
    requires q.out == Blank() + data && (zlib ==> q.zAdler == Adler32.Adler(1, data))
    ensures Delivers(zlib, bytes, data)
  {
    hide Reaches, BytesBits, Blank, Adler32.Adler;
  }

  /** The callback takes what it is given `accept` times, and refuses then.  The result is true exactly when the
      stream is complete, its checksum is right, and the callback has got all of it. */
  method InflateToCallback(zlib: bool, bytes: seq<byte>, accept: nat)
    returns (done: bool, sink: seq<byte>, ghost refused: bool, ghost q: Inflater, ghost rest: bits)
    ensures done ==> Delivers(zlib, bytes, sink)
    ensures Reaches(InitialIn(zlib, LZ_DICT_SIZE, Blank()), BytesBits(bytes), q, rest) && Ok(q)
    ensures if refused then |Blank()| + accept < |q.out| else q.out == Blank() + sink && Step(q, rest).Stuck?
    ensures done <==> !refused && q.pc.Done? && (zlib ==> q.zAdler == Adler32.Adler(1, sink))
  {
    hide *;
    var dict := NewDictionary();
    ghost var before := Blank();
    var d := new T.Decompressor(zlib, LZ_DICT_SIZE, before);
    CallbackStart(zlib, dict[..], bytes);
    d.MachineIs();
    var ofs: nat, used: nat, puts: nat := 0, 0, 0;
    sink := [];
    q, rest := d.Machine(), d.Held() + BytesBits(bytes);
    assert bytes[0..] == bytes;
    while true
      invariant ofs < LZ_DICT_SIZE && used <= |bytes| && puts <= accept && puts <= |sink|
      invariant d.Ready() && T.Carries(dict[..], ofs, LZ_DICT_SIZE, LZ_DICT_SIZE, d.history) && fresh(d) && fresh(dict)
      invariant fresh(d.look0) && fresh(d.look1) && fresh(d.look2) && fresh(d.tree0) && fresh(d.tree1) && fresh(d.tree2)
      invariant d.r.window == LZ_DICT_SIZE && d.r.zlib == zlib && d.history == before + sink
      invariant q == d.Machine() && q.zlib == zlib && rest == d.Held() + BytesBits(bytes[used..])
      invariant Reaches(InitialIn(zlib, LZ_DICT_SIZE, before), BytesBits(bytes), q, rest)
      invariant zlib ==> d.checkAdler == Adler32.Adler(1, sink)
      decreases accept - puts
    {
      ghost var q0, rest0 := q, rest;
      var status, n, made := d.Decompress(bytes[used..], dict, ofs, LZ_DICT_SIZE - ofs, false, false);
      assert bytes[used..][n..] == bytes[used + n..];
      used := used + n;
      q, rest := d.Machine(), d.Held() + BytesBits(bytes[used..]);
      d.MachineIs();
      GoneOn(InitialIn(zlib, LZ_DICT_SIZE, before), BytesBits(bytes), q0, rest0, q, rest);
      ContinuedChecksum(sink, dict[ofs..ofs + made]);
      assert before + sink + dict[ofs..ofs + made] == before + (sink + dict[ofs..ofs + made]);
      if made > 0 {
        if puts == accept {
          return false, sink, true, q, rest;
        }
        sink := sink + dict[ofs..ofs + made];
        puts := puts + 1;
      } else {
        assert sink + dict[ofs..ofs + made] == sink;
      }
      if status != T.HasMoreOutput {
        EndsStuck(status, q, d.Held(), bytes, used);
        if status == T.Complete {
          DeliversIs(zlib, bytes, sink, q, rest);
        }
        return status == T.Complete, sink, false, q, rest;
      }
      CarriesWrap(dict[..], ofs + made, LZ_DICT_SIZE, d.history);
      ofs := (ofs + made) % LZ_DICT_SIZE;
    }
  }

  lemma CallbackStart(zlib: bool, dict: seq<byte>, bytes: seq<byte>)
    requires |dict| == LZ_DICT_SIZE
    ensures var q := InitialIn(zlib, LZ_DICT_SIZE, dict);
      Reaches(q, BytesBits(bytes), q, BytesBits(bytes)) && q.zlib == zlib && q.window == LZ_DICT_SIZE
    ensures T.Carries(dict, 0, LZ_DICT_SIZE, LZ_DICT_SIZE, dict) && dict + [] == dict
    ensures [] + BytesBits(bytes) == BytesBits(bytes) && T.PowerOfTwo(LZ_DICT_SIZE) && LZ_DICT_SIZE > 0
    ensures Adler32.Adler(1, []) == 1
  {
    hide T.Carries, Reaches, BytesBits, SizesOk, SizesPlausible, T.PowerOfTwo, Adler32.Adler;
    T.CarriesAtFirst(dict, 0);
    assert dict + dict[..0] == dict;
    ReachRefl(InitialIn(zlib, LZ_DICT_SIZE, dict), BytesBits(bytes));
    DictionaryIsPower();
    NoChecksum();
  }

  lemma GoneOn(q: Inflater, s: bits, q0: Inflater, s0: bits, q1: Inflater, s1: bits)
    requires Reaches(q, s, q0, s0) && Reaches(q0, s0, q1, s1)
    ensures Reaches(q, s, q1, s1) && Ok(q1) && q1.zlib == q0.zlib
  {
    hide Ok, Reaches;
    ReachTrans(q, s, q0, s0, q1, s1);
    ReachOk(q0, s0, q1, s1);
    ReachFrame(q0, s0, q1, s1);
  }

  lemma EndsStuck(status: T.Status, q: Inflater, held: bits, bytes: seq<byte>, used: nat)
    requires Ok(q) && used <= |bytes| && status != T.NeedsMoreInput && status != T.BadParam && status != T.HasMoreOutput
    requires status == T.CannotMakeProgress ==> used == |bytes| && Step(q, held).Stuck? && !q.pc.Done?
    requires status == T.Complete || status == T.AdlerMismatch ==> q.pc.Done?
    requires status == T.Broken ==> q.pc.Failed?
    ensures Step(q, held + BytesBits(bytes[used..])).Stuck?
    ensures q.pc.Done? ==> status == T.Complete || status == T.AdlerMismatch
  {
    hide Ok, Step, BytesBits;
    if status == T.CannotMakeProgress {
      NothingLeft(held, bytes, used);
    } else {
      HaltedStuck(q, held + BytesBits(bytes[used..]));
    }
  }

  /** A stream that decompresses into one large buffer comes out of the callback in the same way. */
  lemma CallbackAgrees(zlib: bool, bytes: seq<byte>, qd: Inflater, left: bits, before: seq<byte>, q: Inflater,
                       rest: bits)
    requires Reaches(Initial(zlib), BytesBits(bytes), qd, left) && qd.pc.Done? && (zlib ==> qd.zhdr0 / 16 <= 7)
    requires |before| == LZ_DICT_SIZE && Reaches(InitialIn(zlib, LZ_DICT_SIZE, before), BytesBits(bytes), q, rest)
    requires Ok(q)
    ensures |q.out| <= |before| + |qd.out|
    ensures Step(q, rest).Stuck? ==> q == InWindow(qd, LZ_DICT_SIZE, before) && rest == left
  {
    hide Ok, Reaches, Step, Near, BytesBits, Initial, InitialIn, StreamAllows;
    var s := BytesBits(bytes);
    var p0, p := InitialIn(zlib, LZ_DICT_SIZE, before), InWindow(qd, LZ_DICT_SIZE, before);
    HeaderSeen(zlib, s, qd, left);
    WindowRun(zlib, s, qd, left, LZ_DICT_SIZE, before);
    ReachOk(p0, s, p, left);
    HaltedStuck(p, left);
    OneGoesFurther(p0, s, q, rest, p, left);
    if Reaches(q, rest, p, left) {
      ReachOutput(q, rest, p, left);
    } else {
      StuckStays(p, left, q, rest);
    }
    if Step(q, rest).Stuck? {
      StuckUnique(p0, s, q, rest, p, left);
    }
  }

  /** The first byte of the header is what the state remembers of it. */
  lemma HeaderSeen(zlib: bool, s: bits, q: Inflater, left: bits)
    requires Reaches(Initial(zlib), s, q, left) && q.pc.Done? && (zlib ==> q.zhdr0 / 16 <= 7)
    ensures StreamAllows(zlib, s)
  {
    hide Ok, Step, StepN, Val;
    if zlib && |s| >= 8 {
      var n: nat :| StepN(n, Initial(zlib), s) == Some((q, left));
      var q1 := FirstStep(n, s, q, left);
      ReachFrame(q1, s[8..], q, left);
    }
  }

  lemma FirstStep(n: nat, s: bits, q: Inflater, left: bits) returns (q1: Inflater)
    requires Ok(Initial(true)) && StepN(n, Initial(true), s) == Some((q, left)) && q.pc.Done? && |s| >= 8
    ensures Reaches(q1, s[8..], q, left) && !q1.pc.ZHdr0? && q1.zhdr0 == Val(s[..8])
  {
    hide Ok, Val;
    assert n > 0;
    StepOk(Initial(true), s);
    ValBound(s[..8]);
    q1 := Step(Initial(true), s).q;
    assert StepN(n - 1, q1, s[8..]) == Some((q, left));
  }

  /** Whatever was compressed comes out of the callback again, if the callback takes it all. */
  method RoundTripStreamed(pieces: seq<seq<byte>>, flushes: seq<Flush>, s: Settings, m: Memory, accept: nat)
    returns (done: bool, restored: seq<byte>)
    requires |pieces| == |flushes| + 1 && Finish !in flushes && accept >= |Chunks.Flatten(pieces)|
    ensures done && restored == Chunks.Flatten(pieces)
  {
    hide *;
    ghost var data := Chunks.Flatten(pieces);
    var bytes, checksum;
    bytes, checksum := CompressPieces(pieces, flushes, s, m);
    ghost var refused, q, rest;
    done, restored, refused, q, rest := InflateToCallback(s.zlib, bytes, accept);
    ghost var adler := if s.zlib then Adler32.Adler(1, data) else checksum;
    ghost var qd := TheEnd(s.zlib, bytes, data, adler);
    AtEndFacts(qd, s.zlib, data, adler);
    CallbackAgrees(s.zlib, bytes, qd, [], Blank(), q, rest);
    if !refused {
      SameOutput(qd, Blank(), q, restored);
    }
  }

  lemma SameOutput(qd: Inflater, before: seq<byte>, q: Inflater, sink: seq<byte>)
    requires q == InWindow(qd, LZ_DICT_SIZE, before) && q.out == before + sink
    ensures sink == qd.out && q.pc == qd.pc && q.zAdler == qd.zAdler
  {
    assert sink == (before + sink)[|before|..] == (before + qd.out)[|before|..];
  }
}
