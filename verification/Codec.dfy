/** The two halves together: decompressing what was compressed, and decompressing in pieces. */
module Codec {
  import opened Bits
  import opened Canonical
  import opened Chunks
  import opened DecodeTable
  import opened Tokens
  import opened Inflate
  import opened DynamicHeader
  import opened Blocks
  import opened Flushing
  import opened Streams
  import opened Compressing
  import opened Progress
  import T = Tinfl
  import Adler32

  // ---------- pieces of input ----------

  /** A run over part of the input, resumed with more input behind what it left, is a run over both. */
  lemma Resume(q: Inflater, s: bits, t: bits, q1: Inflater, s1: bits, q2: Inflater, s2: bits)
    requires Reaches(q, s, q1, s1) && Reaches(q1, s1 + t, q2, s2) && |t| % 8 == 0
    ensures Reaches(q, s + t, q2, s2)
  {
    hide Ok, Reaches;
    ReachExtend(q, s, q1, s1, t);
    ReachTrans(q, s + t, q1, s1 + t, q2, s2);
  }

  lemma HaltedStuck(q: Inflater, s: bits)
    requires Ok(q) && (q.pc.Done? || q.pc.Failed?)
    ensures Step(q, s).Stuck?
  {
    hide SizesOk, SizesPlausible;
  }

  /** How a whole decompression into a buffer for `room` bytes comes out: the status, and a state reached with
      the whole input `data`. */
  ghost predicate Outcome(zlib: bool, data: seq<byte>, room: nat, status: T.Status, q: Inflater, rest: bits) {
    && Reaches(Initial(zlib), BytesBits(data), q, rest) && Ok(q) && |q.out| <= room
    && match status
       case HasMoreOutput => |q.out| == room && (Want(q).Emit? || q.pc.RawByte?)
       case NeedsMoreInput => Step(q, rest).Stuck? && !q.pc.Done? && !q.pc.Failed? && (q.pc.RawByte? ==> |q.out| < room)
       case Complete => q.pc.Done? && (zlib ==> q.zAdler == Adler32.Adler(1, q.out))
       case AdlerMismatch => q.pc.Done? && zlib && q.zAdler != Adler32.Adler(1, q.out)
       case Broken => q.pc.Failed?
       case _ => false
  }

  lemma OutcomeFacts(zlib: bool, data: seq<byte>, room: nat, status: T.Status, q: Inflater, rest: bits)
    requires Outcome(zlib, data, room, status, q, rest)
    ensures Reaches(Initial(zlib), BytesBits(data), q, rest) && Ok(q) && |q.out| <= room
    ensures status == T.HasMoreOutput ==> |q.out| == room && (Want(q).Emit? || q.pc.RawByte?)
    ensures status != T.HasMoreOutput ==> Step(q, rest).Stuck? && !Want(q).Emit? && (q.pc.RawByte? ==> |q.out| < room)
  {
    hide Ok, Reaches, BytesBits, Adler32.Adler;
    if q.pc.Done? || q.pc.Failed? {
      HaltedStuck(q, rest);
      HaltedWants(q);
    } else if Want(q).Emit? {
      EmitNext(q, rest);
    }
  }

  lemma HaltedWants(q: Inflater)
    requires Ok(q) && (q.pc.Done? || q.pc.Failed?)
    ensures Want(q).Halt?
  {
    hide SizesOk;
  }

  lemma EmitNext(q: Inflater, s: bits)
    requires Ok(q) && Want(q).Emit?
    ensures Step(q, s).Next?
  {
    hide Ok, Want, Feed;
  }

  /** Of two runs over the same input, one of which got further, both come out the same. */
  lemma FurtherOutcome(zlib: bool, data: seq<byte>, room: nat, sa: T.Status, qa: Inflater, ra: bits, sb: T.Status,
                       qb: Inflater, rb: bits)
    requires Outcome(zlib, data, room, sa, qa, ra) && Outcome(zlib, data, room, sb, qb, rb) && Reaches(qa, ra, qb, rb)
    ensures sa == sb && qa.out == qb.out && (sa != T.HasMoreOutput ==> qa == qb && ra == rb)
  {
    hide Ok, Reaches, Step, Want, BytesBits, Outcome;
    OutcomeFacts(zlib, data, room, sa, qa, ra);
    OutcomeFacts(zlib, data, room, sb, qb, rb);
    if sa != T.HasMoreOutput {
      StuckStays(qa, ra, qb, rb);
      StatusIsUnique(zlib, data, room, sa, sb, qa, ra);
    } else {
      ReachOutput(qa, ra, qb, rb);
      assert qa.out == qb.out;
      if sb != T.HasMoreOutput {
        if Step(qa, ra).Stuck? {
          StuckStays(qa, ra, qb, rb);
        } else {
          MustEmit(qa, ra, qb, rb);
        }
        assert false;
      }
    }
  }

  lemma StatusUnique(zlib: bool, data: seq<byte>, room: nat, sa: T.Status, sb: T.Status, q: Inflater, rest: bits)
    requires Outcome(zlib, data, room, sa, q, rest) && Outcome(zlib, data, room, sb, q, rest)
    requires sa != T.HasMoreOutput && sb != T.HasMoreOutput
    ensures sa == sb
  {
    hide Ok, Reaches, Step, Want, BytesBits, Adler32.Adler;
  }

  lemma StatusIsUnique(zlib: bool, data: seq<byte>, room: nat, sa: T.Status, sb: T.Status, q: Inflater, rest: bits)
    requires Outcome(zlib, data, room, sa, q, rest) && Outcome(zlib, data, room, sb, q, rest)
    ensures sa == sb
  {
    hide Ok, Reaches, Step, Want, BytesBits, Outcome;
    OutcomeFacts(zlib, data, room, sa, q, rest);
    OutcomeFacts(zlib, data, room, sb, q, rest);
    if sa != T.HasMoreOutput && sb != T.HasMoreOutput {
      StatusUnique(zlib, data, room, sa, sb, q, rest);
    }
  }

  /** Output and status depend only on the input and the room, not on how the input was cut. */
  lemma OneOutcome(zlib: bool, data: seq<byte>, room: nat, sa: T.Status, qa: Inflater, ra: bits, sb: T.Status,
                   qb: Inflater, rb: bits)
    requires Outcome(zlib, data, room, sa, qa, ra) && Outcome(zlib, data, room, sb, qb, rb)
    ensures sa == sb && qa.out == qb.out && (sa != T.HasMoreOutput ==> qa == qb && ra == rb)
  {
    hide Ok, Reaches, BytesBits, Outcome;
    OutcomeFacts(zlib, data, room, sa, qa, ra);
    OutcomeFacts(zlib, data, room, sb, qb, rb);
    OneGoesFurther(Initial(zlib), BytesBits(data), qa, ra, qb, rb);
    if Reaches(qa, ra, qb, rb) {
      FurtherOutcome(zlib, data, room, sa, qa, ra, sb, qb, rb);
    } else {
      FurtherOutcome(zlib, data, room, sb, qb, rb, sa, qa, ra);
    }
  }

  lemma HeldAhead(held: bits, a: seq<byte>, b: seq<byte>)
    ensures held + BytesBits(a) + BytesBits(b) == held + BytesBits(a + b)
  {
    hide BytesBits;
    BytesBitsConcat(a, b);
    Assoc3(held, BytesBits(a), BytesBits(b));
  }

  /** What the decompressor has left of the input when it does not take all of it. */
  lemma StopsEarly(zlib: bool, before: seq<byte>, chunk: seq<byte>, used: nat, after: seq<byte>, q: Inflater,
                   held: bits)
    requires used <= |chunk|
    requires Reaches(Initial(zlib), BytesBits(before + chunk), q, held + BytesBits(chunk[used..]))
    ensures Reaches(Initial(zlib), BytesBits(before + chunk + after), q, held + BytesBits(chunk[used..] + after))
    ensures Ok(q)
  {
    hide Ok, Reaches, BytesBits;
    ReachExtend(Initial(zlib), BytesBits(before + chunk), q, held + BytesBits(chunk[used..]), BytesBits(after));
    BytesBitsConcat(before + chunk, after);
    HeldAhead(held, chunk[used..], after);
    ReachOk(Initial(zlib), BytesBits(before + chunk + after), q, held + BytesBits(chunk[used..] + after));
  }

  /** Where the calls end: the last chunk that is fed, how many bytes of all are read, and what the reservoir holds. */
  datatype Stop = Stop(last: nat, read: nat, held: bits)

  /** At the end of a stream, its rest is in the reservoir and in the bytes not read; the reservoir is empty
      (`MZ_ASSERT(!num_bits)`) exactly when the stream has ended within the last chunk. */
  ghost predicate StopsAt(chunks: seq<seq<byte>>, rest: bits, stop: Stop) {
    stop.last < |chunks| &&
    var data, before := Flatten(chunks), |Flatten(chunks[..stop.last])|;
    && before <= stop.read <= before + |chunks[stop.last]| <= |data|
    && rest == stop.held + BytesBits(data[stop.read..])
    && (stop.held == [] <==> |rest| <= 8 * (|data| - before))
  }

  lemma StoppedAt(chunks: seq<seq<byte>>, last: nat, used: nat, held: bits)
    requires last < |chunks| && used <= |chunks[last]| && |held| % 8 == 0 && (|held| < 8 || used == 0)
    ensures var data, before := Flatten(chunks), Flatten(chunks[..last]);
      && |before| + |chunks[last]| <= |data| && data == before + chunks[last] + data[|before| + |chunks[last]|..]
      && StopsAt(chunks, held + BytesBits(chunks[last][used..] + data[|before| + |chunks[last]|..]),
                 Stop(last, |before| + used, held))
  {
    hide BytesBits, Flatten;
    var data, before := Flatten(chunks), Flatten(chunks[..last]);
    FlattenNext(chunks, last);
    FlattenPrefix(chunks, last + 1);
    var after := data[|before| + |chunks[last]|..];
    assert data == before + chunks[last] + after;
    assert data[|before| + used..] == chunks[last][used..] + after;
  }

  /** Feed the chunks one call after the other, into a buffer for all output. */
  method InflateChunks(zlib: bool, chunks: seq<seq<byte>>, buf: array<byte>)
    returns (status: T.Status, made: nat, ghost q: Inflater, ghost rest: bits, ghost stop: Stop)
    modifies buf
    ensures made <= buf.Length && q.out == buf[..made]
    ensures Outcome(zlib, Flatten(chunks), buf.Length, status, q, rest)
    ensures q.pc.Done? ==> StopsAt(chunks, rest, stop)
  {
    hide *;
    stop := Stop(0, 0, []);
    var d := new T.Decompressor(zlib, 0, []);
    var i := 0;
    made := 0;
    status := T.NeedsMoreInput;
    ghost var data := Flatten(chunks);
    FlattenNone(chunks);
    InitialWaits(zlib, buf.Length);
    WholeBuffer(buf[..], 0, buf.Length, []);
    q, rest := d.Machine(), d.Held();
    d.MachineIs();
    while i < |chunks|
      invariant i <= |chunks| && d.Ready() && fresh(d) && made <= buf.Length && d.r.window == 0
      invariant T.Carries(buf[..], made, buf.Length, 0, d.history)
      invariant fresh(d.look0) && fresh(d.look1) && fresh(d.look2) && fresh(d.tree0) && fresh(d.tree1) && fresh(d.tree2)
      invariant status == T.NeedsMoreInput && q == d.Machine() && rest == d.Held() && d.r.zlib == q.zlib == zlib
      invariant q.out == d.history
      invariant Outcome(zlib, Flatten(chunks[..i]), buf.Length, T.NeedsMoreInput, q, rest)
      invariant zlib ==> d.checkAdler == Adler32.Adler(1, d.history)
    {
      ghost var before := Flatten(chunks[..i]);
      FlattenNext(chunks, i);
      FlattenPrefix(chunks, i + 1);
      var used, n;
      ghost var q0, held0, history0 := q, rest, d.history;
      status, used, n := d.Decompress(chunks[i], buf, made, buf.Length - made, true, false);
      ContinuedChecksum(history0, buf[made..made + n]);
      made := made + n;
      q, rest := d.Machine(), d.Held();
      d.MachineIs();
      WholeBuffer(buf[..], made, buf.Length, d.history);
      Resumed(zlib, before, chunks[i], buf.Length, q0, held0, q, rest + BytesBits(chunks[i][used..]));
      if status != T.NeedsMoreInput {
        ghost var after := data[|before + chunks[i]|..];
        assert data == before + chunks[i] + after;
        StopsEarly(zlib, before, chunks[i], used, after, q, rest);
        if q.pc.Done? {
          StoppedAt(chunks, i, used, rest);
          stop := Stop(i, |before| + used, rest);
        }
        rest := rest + BytesBits(chunks[i][used..] + after);
        if status == T.HasMoreOutput {
          NotDone(q);
        }
        EndedAs(zlib, data, buf.Length, status, q, rest);
        return;
      }
      NothingLeft(rest, chunks[i], used);
      WaitsAgain(zlib, Flatten(chunks[..i + 1]), buf.Length, q, rest);
      i := i + 1;
    }
    assert chunks[..i] == chunks;
    WholeBuffer(buf[..], made, buf.Length, d.history);
    StillWaits(zlib, data, buf.Length, q, rest);
  }

  lemma StillWaits(zlib: bool, data: seq<byte>, room: nat, q: Inflater, rest: bits)
    requires Outcome(zlib, data, room, T.NeedsMoreInput, q, rest)
    ensures !q.pc.Done?
  {
  }

  /** A buffer that is not circular holds exactly the output. */
  lemma WholeBuffer(buf: seq<byte>, pos: nat, end: nat, history: seq<byte>)
    requires pos <= end <= |buf|
    ensures T.Carries(buf, pos, end, 0, history) <==> buf[..pos] == history
  {
  }

  lemma ContinuedChecksum(a: seq<byte>, b: seq<byte>)
    ensures Adler32.Adler(1, a + b) == Adler32.Adler(Adler32.Adler(1, a), b) && Adler32.Adler(1, []) == 1
  {
    hide Adler32.Adler;
    Adler32.AdlerConcat(1, a, b);
    NoChecksum();
  }

  lemma NoChecksum()
    ensures Adler32.Adler(1, []) == 1
  {
  }

  /** Before any input the machine waits. */
  lemma InitialWaits(zlib: bool, room: nat)
    ensures Outcome(zlib, [], room, T.NeedsMoreInput, Initial(zlib), [])
    ensures InitialIn(zlib, 0, []) == Initial(zlib) && Initial(zlib).out == [] && Initial(zlib).zlib == zlib
    ensures Initial(zlib).window == 0
    ensures Adler32.Adler(1, []) == 1
  {
    hide SizesOk, SizesPlausible, Adler32.Adler;
    ReachRefl(Initial(zlib), []);
    NoChecksum();
  }

  lemma Resumed(zlib: bool, before: seq<byte>, chunk: seq<byte>, room: nat, q0: Inflater, held0: bits, q: Inflater,
                left: bits)
    requires Outcome(zlib, before, room, T.NeedsMoreInput, q0, held0) && Reaches(q0, held0 + BytesBits(chunk), q, left)
    ensures Reaches(Initial(zlib), BytesBits(before + chunk), q, left) && Ok(q) && q.zlib == q0.zlib
  {
    hide Ok, Reaches, Step, BytesBits, Outcome;
    OutcomeFacts(zlib, before, room, T.NeedsMoreInput, q0, held0);
    BytesBitsConcat(before, chunk);
    Resume(Initial(zlib), BytesBits(before), BytesBits(chunk), q0, held0, q, left);
    ReachOk(Initial(zlib), BytesBits(before + chunk), q, left);
    ReachFrame(q0, held0 + BytesBits(chunk), q, left);
  }

  lemma NothingLeft(held: bits, chunk: seq<byte>, used: nat)
    requires used == |chunk|
    ensures held + BytesBits(chunk[used..]) == held
  {
  }

  lemma EndedAs(zlib: bool, data: seq<byte>, room: nat, status: T.Status, q: Inflater, rest: bits)
    requires Reaches(Initial(zlib), BytesBits(data), q, rest) && Ok(q) && |q.out| <= room
    requires status == T.HasMoreOutput ==> |q.out| == room && (Want(q).Emit? || q.pc.RawByte?)
    requires status == T.Complete || status == T.AdlerMismatch ==> q.pc.Done?
    requires status == T.AdlerMismatch <==> q.pc.Done? && zlib && Adler32.Adler(1, q.out) != q.zAdler
    requires status == T.Broken ==> q.pc.Failed?
    requires status != T.BadParam && status != T.CannotMakeProgress && status != T.NeedsMoreInput
    ensures Outcome(zlib, data, room, status, q, rest)
  {
    hide Ok, Reaches, Step, Want, BytesBits, Adler32.Adler;
  }

  /** One more call. */
  lemma CallOutcome(zlib: bool, before: seq<byte>, chunk: seq<byte>, room: nat, q0: Inflater, held0: bits,
                    status: T.Status, used: nat, q: Inflater, held: bits)
    requires Outcome(zlib, before, room, T.NeedsMoreInput, q0, held0) && used <= |chunk|
    requires Reaches(q0, held0 + BytesBits(chunk), q, held + BytesBits(chunk[used..])) && |q.out| <= room
    requires Ok(q) && q0.zlib == zlib
    requires status == T.NeedsMoreInput ==> used == |chunk| && Step(q, held).Stuck? && !q.pc.Done? && !q.pc.Failed?
    requires status == T.NeedsMoreInput && q.pc.RawByte? ==> |q.out| < room
    requires status == T.HasMoreOutput ==> |q.out| == room && (Want(q).Emit? || q.pc.RawByte?)
    requires status == T.Complete || status == T.AdlerMismatch ==> q.pc.Done?
    requires status == T.AdlerMismatch <==> q.pc.Done? && zlib && Adler32.Adler(1, q.out) != q.zAdler
    requires status == T.Broken ==> q.pc.Failed?
    requires status != T.BadParam && status != T.CannotMakeProgress
    ensures Outcome(zlib, before + chunk, room, status, q, held + BytesBits(chunk[used..])) && q.zlib == zlib
  {
    hide *;
    Resumed(zlib, before, chunk, room, q0, held0, q, held + BytesBits(chunk[used..]));
    if status == T.NeedsMoreInput {
      NothingLeft(held, chunk, used);
      WaitsAgain(zlib, before + chunk, room, q, held);
    } else {
      EndedAs(zlib, before + chunk, room, status, q, held + BytesBits(chunk[used..]));
    }
  }

  lemma WaitsAgain(zlib: bool, data: seq<byte>, room: nat, q: Inflater, rest: bits)
    requires Reaches(Initial(zlib), BytesBits(data), q, rest) && Ok(q) && Step(q, rest).Stuck? && |q.out| <= room
    requires !q.pc.Done? && !q.pc.Failed? && (q.pc.RawByte? ==> |q.out| < room)
    ensures Outcome(zlib, data, room, T.NeedsMoreInput, q, rest)
  {
    hide Ok, Reaches, Step, BytesBits;
  }

  /** Resumability: however the input is cut, output and status are those of one call on the whole input. */
  method InflateTwice(zlib: bool, chunks: seq<seq<byte>>, room: nat)
    returns (a: seq<byte>, b: seq<byte>, statusA: T.Status, statusB: T.Status)
    ensures a == b && statusA == statusB
  {
    hide Ok, Reaches, Step, BytesBits, Outcome;
    var bufA := NewBuffer(room);
    var bufB := NewBuffer(room);
    var madeA, madeB;
    ghost var qa, resta, stopa, qb, restb, stopb;
    statusA, madeA, qa, resta, stopa := InflateChunks(zlib, chunks, bufA);
    var whole := Flatten(chunks);
    FlattenOne(whole);
    statusB, madeB, qb, restb, stopb := InflateChunks(zlib, [whole], bufB);
    a, b := bufA[..madeA], bufB[..madeB];
    OneOutcome(zlib, whole, room, statusA, qa, resta, statusB, qb, restb);
  }

  method NewBuffer(n: nat) returns (a: array<byte>)
    ensures fresh(a) && a.Length == n
  {
    a := new byte[n](_ => 0);
  }

  // ---------- what is held at the end ----------

  /** With a complete code every answer is a code word. */
  lemma CompleteDecode(sizes: seq<nat>, s: bits, t: bits)
    requires Complete(sizes) && Buildable(sizes) && Decode(sizes, s + t).Some? && Decode(sizes, s + t).value.len <= |s|
    ensures Decode(sizes, s).Some?
  {
    hide Complete, Buildable, Decode, CodeWord;
    BuildableValid(sizes);
    var a := s + t;
    var pad := Enc(0, MAX_BITS);
    DecodeStable(sizes, a, pad);
    var sym := SomeCodeWord(sizes, a + pad);
    var c := CodeWord(sizes, sym);
    assert a + pad == c + (a + pad)[|c|..];
    DecodeCodeWord(sizes, sym, (a + pad)[|c|..]);
    assert c == (a + pad)[..|c|] == s[..|c|];
    DecodeCodeWord(sizes, sym, s[|c|..]);
    assert s == c + s[|c|..];
  }

  /** A machine that waited with the bits `s` reads past them in its next step, unless its code is incomplete:
      then an unassigned code is only recognised with fifteen bits at hand, and takes fewer. */
  lemma ReadsPast(q: Inflater, s: bits, t: bits)
    requires Ok(q) && Step(q, s).Stuck? && Step(q, s + t).Next?
    requires Want(q).NeedSymbol? ==> Complete(SizesOf(q, Want(q).table))
    ensures |Step(q, s + t).rest| <= |t|
  {
    hide Ok, Feed, Decode, Complete, Buildable;
    match Want(q)
    case NeedBits(n) =>
    case NeedSymbol(table) =>
      BuildableWhenUsed(q);
      var sizes := SizesOf(q, table);
      if Decode(sizes, s + t).value.len <= |s| {
        CompleteDecode(sizes, s, t);
      }
    case AlignByte =>
    case Emit(b) =>
    case Halt =>
  }

  lemma RunReadsPast(q: Inflater, s: bits, t: bits, q': Inflater, s': bits)
    requires Reaches(q, s + t, q', s') && Ok(q) && Step(q, s).Stuck? && q' != q
    requires Want(q).NeedSymbol? ==> Complete(SizesOf(q, Want(q).table))
    ensures |s'| <= |t|
  {
    hide Ok, Step, Want, Complete, SizesOf, Rank;
    var n: nat :| StepN(n, q, s + t) == Some((q', s'));
    assert n > 0 && Step(q, s + t).Next?;
    ReadsPast(q, s, t);
    StepOk(q, s + t);
    assert StepN(n - 1, Step(q, s + t).q, Step(q, s + t).rest) == Some((q', s'));
    if n > 1 {
      RunCloser(n - 1, Step(q, s + t).q, Step(q, s + t).rest);
      T.CloserMeans(Step(q, s + t).q, Step(q, s + t).rest, q', s');
    }
  }

  /** At the end of a stream the reservoir is empty (`MZ_ASSERT(!num_bits)`) exactly when the stream ends within
      the input of the last call: whole bytes are given back as long as there are any to give. */
  lemma HeldAtEnd(held: bits, data: seq<byte>, used: nat)
    requires used <= |data| && |held| % 8 == 0 && (|held| < 8 || used == 0)
    ensures held == [] <==> |held + BytesBits(data[used..])| <= 8 * |data|
  {
    hide BytesBits;
  }

  /** So it is when the decompressor waited before that call, unless it waited for a symbol of an incomplete code. */
  lemma NothingHeld(q0: Inflater, held0: bits, data: seq<byte>, used: nat, q: Inflater, held: bits)
    requires Ok(q0) && Step(q0, held0).Stuck? && !q0.pc.Done?
    requires Want(q0).NeedSymbol? ==> Complete(SizesOf(q0, Want(q0).table))
    requires used <= |data| && Reaches(q0, held0 + BytesBits(data), q, held + BytesBits(data[used..])) && q.pc.Done?
    requires |held| % 8 == 0 && (|held| < 8 || used == 0)
    ensures held == []
  {
    hide Ok, Step, Want, Complete, SizesOf, Reaches, BytesBits;
    RunReadsPast(q0, held0, BytesBits(data), q, held + BytesBits(data[used..]));
    HeldAtEnd(held, data, used);
  }

  // ---------- decompression inverts compression ----------

  /** A machine that wants to write has more output coming before it waits or ends. */
  lemma MustEmit(q0: Inflater, s0: bits, q: Inflater, s: bits)
    requires Reaches(q0, s0, q, s) && Ok(q0) && Ok(q) && Step(q, s).Stuck?
    requires Want(q0).Emit? || (q0.pc.RawByte? && Step(q0, s0).Next?)
    ensures |q.out| > |q0.out|
  {
    hide Ok, Step, Want;
    var n: nat :| StepN(n, q0, s0) == Some((q, s));
    if Want(q0).Emit? {
      EmitNext(q0, s0);
    }
    assert n > 0;
    StepOk(q0, s0);
    StepOutput(q0, s0);
    var q1, s1 := Step(q0, s0).q, Step(q0, s0).rest;
    StepNOutput(n - 1, q1, s1);
    if !Want(q0).Emit? {
      RawByteNext(q0, s0);
      EmitNext(q1, s1);
      assert n > 1;
      StepOk(q1, s1);
      StepOutput(q1, s1);
      StepNOutput(n - 2, Step(q1, s1).q, Step(q1, s1).rest);
    }
  }

  lemma RawByteNext(q: Inflater, s: bits)
    requires Ok(q) && q.pc.RawByte? && Step(q, s).Next?
    ensures Step(q, s).q.pc.RawPut? && Ok(Step(q, s).q) && Want(Step(q, s).q).Emit?
  {
    hide SizesOk;
    StepOk(q, s);
  }

  /** Of a complete stream every other run is a part. */
  lemma OnlyPart(q0: Inflater, s: bits, q: Inflater, left: bits, qd: Inflater)
    requires Reaches(q0, s, q, left) && Reaches(q0, s, qd, []) && qd.pc.Done?
    ensures Ok(q) && Ok(qd) && Step(qd, []).Stuck? && Reaches(q, left, qd, [])
  {
    hide Ok, Reaches, Step, StepN;
    ReachOk(q0, s, q, left);
    ReachOk(q0, s, qd, []);
    HaltedStuck(qd, []);
    OneGoesFurther(q0, s, q, left, qd, []);
    if Reaches(qd, [], q, left) {
      StuckStays(qd, [], q, left);
      ReachRefl(qd, []);
    }
  }

  /** Out of input, or out of room. */
  ghost predicate Paused(q: Inflater, left: bits, room: nat)
    requires Ok(q)
  {
    Step(q, left).Stuck? || (|q.out| == room && (Want(q).Emit? || q.pc.RawByte?))
  }

  /** A run over a complete stream that pauses, when the room is exactly its output, has reached the end. */
  lemma PausedAtEnd(q0: Inflater, s: bits, q: Inflater, left: bits, qd: Inflater)
    requires Reaches(q0, s, q, left) && Reaches(q0, s, qd, []) && qd.pc.Done?
    requires Ok(q) && Paused(q, left, |qd.out|)
    ensures q == qd && left == []
  {
    hide Ok, Reaches, Step, Want;
    OnlyPart(q0, s, q, left, qd);
    if Step(q, left).Stuck? {
      StuckStays(q, left, qd, []);
    } else {
      MustEmit(q, left, qd, []);
      assert false;
    }
  }

  /** What a stream decodes to, as a state that is reached. */
  lemma TheEnd(zlib: bool, bytes: seq<byte>, data: seq<byte>, checksum: nat) returns (qd: Inflater)
    requires DecodesTo(BytesBits(bytes), zlib, Pc.Done, data, checksum)
    ensures Reaches(Initial(zlib), BytesBits(bytes), qd, []) && At(qd, zlib, Pc.Done, data, checksum)
  {
    hide Ok, Reaches, BytesBits, Initial, At;
    var s := BytesBits(bytes);
    assert Lands(s, [], zlib, Pc.Done, data, checksum);
    qd :| Reaches(Initial(zlib), s + [], qd, []) && At(qd, zlib, Pc.Done, data, checksum);
    assert s + [] == s;
  }

  lemma AtEndFacts(q: Inflater, zlib: bool, data: seq<byte>, checksum: nat)
    requires At(q, zlib, Pc.Done, data, checksum)
    ensures q.pc.Done? && q.out == data && q.window == 0 && (zlib ==> q.zAdler == checksum && q.zhdr0 == 0x78)
  {
    hide Ok;
  }

  /** The run over a complete stream, when the room is exactly its output: it reaches the end. */
  lemma ReachesEnd(zlib: bool, bytes: seq<byte>, data: seq<byte>, checksum: nat, q: Inflater, left: bits)
    requires DecodesTo(BytesBits(bytes), zlib, Pc.Done, data, checksum)
    requires Reaches(Initial(zlib), BytesBits(bytes), q, left)
    requires Ok(q) && Paused(q, left, |data|)
    ensures q.pc.Done? && q.out == data && (zlib ==> q.zAdler == checksum)
  {
    hide Ok, Reaches, Paused, BytesBits, Initial, DecodesTo, At;
    var qd := TheEnd(zlib, bytes, data, checksum);
    AtEndFacts(qd, zlib, data, checksum);
    PausedAtEnd(Initial(zlib), BytesBits(bytes), q, left, qd);
  }

  lemma NotDone(q: Inflater)
    requires Ok(q) && (Want(q).Emit? || q.pc.RawByte?)
    ensures !q.pc.Done? && !q.pc.Failed?
  {
    hide SizesOk;
  }

  /** `tinfl_decompress_mem_to_mem` applied to what `tdefl_compress_mem_to_output` produced gives the input
      back, in a buffer of exactly its size. */
  method RoundTrip(data: seq<byte>, s: Settings, m: Memory) returns (status: T.Status, restored: seq<byte>)
    ensures status == T.Complete && restored == data
  {
    hide *;
    var bytes, checksum;
    bytes, checksum := CompressAll(data, s, m);
    var buf := NewBuffer(|data|);
    var d := new T.Decompressor(s.zlib, 0, []);
    ghost var all := BytesBits(bytes);
    assert [] + all == all;
    InitialWaits(s.zlib, |data|);
    d.MachineIs();
    WholeBuffer(buf[..], 0, |data|, []);
    var used, made;
    status, used, made := d.Decompress(bytes, buf, 0, |data|, false, false);
    restored := buf[..made];
    WholeBuffer(buf[..], made, |data|, d.history);
    d.MachineIs();
    ghost var q, held := d.Machine(), d.Held();
    ReachOk(Initial(s.zlib), all, q, held + BytesBits(bytes[used..]));
    ReachFrame(Initial(s.zlib), all, q, held + BytesBits(bytes[used..]));
    PausedThere(status, q, held, bytes, used, |data|);
    ghost var adler := if s.zlib then Adler32.Adler(1, data) else checksum;
    ReachesEnd(s.zlib, bytes, data, adler, q, held + BytesBits(bytes[used..]));
    if status == T.HasMoreOutput {
      NotDone(q);
    }
    assert buf[0..made] == restored;
  }

  lemma PausedThere(status: T.Status, q: Inflater, held: bits, bytes: seq<byte>, used: nat, room: nat)
    requires Ok(q) && used <= |bytes| && status != T.NeedsMoreInput && status != T.BadParam
    requires status == T.CannotMakeProgress ==> used == |bytes| && Step(q, held).Stuck?
    requires status == T.HasMoreOutput ==> |q.out| == room && (Want(q).Emit? || q.pc.RawByte?)
    requires status == T.Complete || status == T.AdlerMismatch ==> q.pc.Done?
    requires status == T.Broken ==> q.pc.Failed?
    ensures Paused(q, held + BytesBits(bytes[used..]), room)
  {
    hide Ok, Step, Want, BytesBits;
    if status == T.CannotMakeProgress {
      NothingLeft(held, bytes, used);
    } else if status != T.HasMoreOutput {
      HaltedStuck(q, held + BytesBits(bytes[used..]));
    }
  }

  /** Cut a byte string into pieces of the given lengths, as far as it goes, and the rest. */
  function Cut(bytes: seq<byte>, lengths: seq<nat>): (chunks: seq<seq<byte>>)
    ensures Flatten(chunks) == bytes
    decreases |lengths|
  {
    if |lengths| == 0 then
      FlattenOne(bytes);
      [bytes]
    else
      var k, last := |lengths| - 1, lengths[|lengths| - 1];
      var n := if last < |bytes| then |bytes| - last else 0;
      var front := Cut(bytes[..n], lengths[..k]);
      FlattenSnoc(front, bytes[n..]);
      front + [bytes[n..]]
  }

  /** Compression in any pieces with any flushes between them, decompression in any pieces. */
  method RoundTripPieces(pieces: seq<seq<byte>>, flushes: seq<Flush>, s: Settings, m: Memory, lengths: seq<nat>)
    returns (status: T.Status, restored: seq<byte>)
    requires |pieces| == |flushes| + 1 && Finish !in flushes
    ensures status == T.Complete && restored == Flatten(pieces)
  {
    hide *;
    var data := Flatten(pieces);
    var bytes, checksum;
    bytes, checksum := CompressPieces(pieces, flushes, s, m);
    var buf := NewBuffer(|data|);
    var made;
    ghost var q, rest, stop;
    status, made, q, rest, stop := InflateChunks(s.zlib, Cut(bytes, lengths), buf);
    restored := buf[..made];
    ghost var adler := if s.zlib then Adler32.Adler(1, data) else checksum;
    assert Flatten(Cut(bytes, lengths)) == bytes;
    OutcomePaused(s.zlib, bytes, |data|, status, q, rest);
    ReachesEnd(s.zlib, bytes, data, adler, q, rest);
    CompleteAtEnd(s.zlib, bytes, |data|, status, q, rest);
  }

  lemma OutcomePaused(zlib: bool, data: seq<byte>, room: nat, status: T.Status, q: Inflater, rest: bits)
    requires Outcome(zlib, data, room, status, q, rest)
    ensures Reaches(Initial(zlib), BytesBits(data), q, rest) && Ok(q) && Paused(q, rest, room)
  {
    hide Outcome, Ok, Reaches, Step, Want, BytesBits;
    OutcomeFacts(zlib, data, room, status, q, rest);
  }

  lemma CompleteAtEnd(zlib: bool, data: seq<byte>, room: nat, status: T.Status, q: Inflater, rest: bits)
    requires Outcome(zlib, data, room, status, q, rest) && q.pc.Done? && (zlib ==> q.zAdler == Adler32.Adler(1, q.out))
    ensures status == T.Complete
  {
    hide Ok, Reaches, Step, BytesBits, Adler32.Adler, Want;
    if status == T.HasMoreOutput {
      NotDone(q);
    }
  }
}
