/** The codec as archives use it: entries compressed as they are written (src/external/zip.c:1224-1236, 1357-1367,
    1510-1516; src/external/miniz.h:3997-4023), and read back (src/external/miniz.h:6655-6731). */
module ZipDeflate {
  import opened Bits
  import opened DecodeTable
  import opened Inflate
  import opened Flushing
  import opened Streams
  import opened Compressing
  import Progress
  import Codec
  import T = Tinfl

  /** `tdefl_create_comp_flags_from_zip_params(level, -15, MZ_DEFAULT_STRATEGY)` */
  function SettingsOf(level: nat): Settings {
    Settings(false, false, false, false, level == 0, level <= 3, false, false, NUM_PROBES[if level < 10 then level
      else 10])
  }

  /** `c` can go on compressing. */
  ghost predicate Streaming(c: Compressor)
    reads c, c.dict, c.lz, c.lz.buf, c.w
  {
    c.Valid() && c.prevStatus == Okay && !c.wantsToFinish
  }

  /** The stream of `data` is complete. */
  ghost predicate Stands(packed: seq<byte>, data: seq<byte>) {
    exists adler :: DecodesTo(BytesBits(packed), false, Pc.Done, data, adler)
  }

  method StartStream(level: nat, m: Memory) returns (c: Compressor)
    ensures Streaming(c) && c.s == SettingsOf(level) && c.src == [] && c.sink == [] && c.ToCome() == 0
    ensures fresh(c) && fresh(c.dict) && fresh(c.next) && fresh(c.hash) && fresh(c.lz) && fresh(c.lz.buf) && fresh(c.w)
  {
    hide Compressor.Valid, Compressor.Shape, SettingsOf;
    c := new Compressor(SettingsOf(level), m);
    c.FreshValid();
    c.FreshFacts();
  }

  /** `tdefl_compress_buffer` with `TDEFL_NO_FLUSH`; `out` is what the callback gets. */
  method PutMore(c: Compressor, buf: seq<byte>) returns (out: seq<byte>)
    requires Streaming(c)
    modifies c, c.dict, c.next, c.hash, c.lz, c.lz.buf, c.w
    ensures Streaming(c) && c.src == old(c.src) + buf && c.sink == old(c.sink) + out
    ensures |out| + c.ToCome() <= old(c.ToCome()) + BlocksSize(|buf| + 1)
  {
    hide Compressor.Valid, DecodesTo, BytesBits, BlocksSize, Compressor.ToCome;
    ghost var was := c.sink;
    var n := |c.sink|;
    var status := c.Compress(buf, NoFlush);
    out := c.sink[n..];
    assert c.sink == was + out;
  }

  /** `tdefl_compress_buffer` with `TDEFL_FINISH` */
  method PutLast(c: Compressor) returns (out: seq<byte>)
    requires Streaming(c) && !c.s.zlib
    modifies c, c.dict, c.next, c.hash, c.lz, c.lz.buf, c.w
    ensures c.src == old(c.src) && c.sink == old(c.sink) + out && Stands(c.sink, c.src)
    ensures |out| <= old(c.ToCome()) + BlocksSize(1)
  {
    hide Compressor.Valid, DecodesTo, BytesBits, BlocksSize, Compressor.ToCome;
    ghost var was, src := c.sink, c.src;
    var n := |c.sink|;
    var status := c.Compress([], Finish);
    out := c.sink[n..];
    assert c.sink == was + out && src + [] == src;
    c.EndFacts();
    AfterFinish();
  }

  /** Nothing is the stream of nothing: not even of no data. */
  lemma StreamNotEmpty(packed: seq<byte>, data: seq<byte>)
    requires Stands(packed, data)
    ensures packed != []
  {
    hide DecodesTo, Ok, Reaches, Step, SizesOk;
    if packed == [] {
      var adler :| DecodesTo(BytesBits(packed), false, Pc.Done, data, adler);
      var q := Codec.TheEnd(false, packed, data, adler);
      Codec.AtEndFacts(q, false, data, adler);
      Codec.InitialWaits(false, 0);
      Codec.OutcomeFacts(false, [], 0, T.NeedsMoreInput, Initial(false), []);
      StuckStays(Initial(false), [], q, []);
      assert false;
    }
  }

  // ---------- reading ----------

  /** `packed` decompresses to `data`, whatever bits are left over. */
  ghost predicate Unpacks(packed: seq<byte>, data: seq<byte>) {
    exists q, rest :: Reaches(Initial(false), BytesBits(packed), q, rest) && q.pc.Done? && q.out == data
  }

  /** The loop around `tinfl_decompress`, with `chunk` bytes read at a time; `done` unless it failed. */
  method InflateEntry(packed: seq<byte>, size: nat, chunk: nat, ghost data: seq<byte>)
    returns (done: bool, out: seq<byte>)
    requires chunk > 0 && packed != []
    ensures done ==> Unpacks(packed, out)
    ensures Stands(packed, data) && size == |data| ==> done && out == data
  {
    hide *;
    var buf := Codec.NewBuffer(size);
    var d := new T.Decompressor(false, 0, []);
    Codec.InitialWaits(false, size);
    Codec.WholeBuffer(buf[..], 0, size, []);
    d.MachineIs();
    var pos: nat, made: nat := 0, 0;
    ghost var q, rest := d.Machine(), d.Held();
    assert packed[..0] == [];
    var status := T.NeedsMoreInput;
    while status == T.NeedsMoreInput
      invariant pos <= |packed| && made <= size == buf.Length && (status == T.NeedsMoreInput ==> pos < |packed|)
      invariant status == T.NeedsMoreInput ==> Codec.Outcome(false, packed[..pos], size, status, q, rest)
      invariant d.Ready() && d.r.window == 0 && !d.r.zlib && T.Carries(buf[..], made, size, 0, d.history)
      invariant fresh(d) && fresh(buf) && q == d.Machine() && (status == T.NeedsMoreInput ==> rest == d.Held())
      invariant fresh(d.look0) && fresh(d.look1) && fresh(d.look2) && fresh(d.tree0) && fresh(d.tree1) && fresh(d.tree2)
      invariant status != T.NeedsMoreInput ==> Ended(packed, size, status, q, rest)
      decreases |packed| - pos, status == T.NeedsMoreInput
    {
      var n := if |packed| - pos < chunk then |packed| - pos else chunk;
      var input := packed[pos..pos + n];
      ghost var before, after := packed[..pos], packed[pos + n..];
      assert before + input == packed[..pos + n] && before + input + after == packed;
      assert pos + n == |packed| ==> after == [];
      pos := pos + n;
      ghost var q0, held0 := q, rest;
      var used, k;
      status, used, k := d.Decompress(input, buf, made, size - made, pos < |packed|, false);
      made := made + k;
      q, rest := d.Machine(), d.Held();
      d.MachineIs();
      Codec.WholeBuffer(buf[..], made, size, d.history);
      Codec.Resumed(false, before, input, size, q0, held0, q, rest + BytesBits(input[used..]));
      GoesOn(before, input, after, size, status, q0, held0, used, q, rest);
      if status != T.NeedsMoreInput {
        rest := rest + BytesBits(input[used..] + after);
      }
    }
    Codec.WholeBuffer(buf[..], made, size, d.history);
    d.MachineIs();
    out := buf[..made];
    done := status == T.Complete;
    AtLast(packed, size, status, q, rest, data);
  }

  /** It stopped with the input `packed`. */
  ghost predicate Ended(packed: seq<byte>, room: nat, status: T.Status, q: Inflater, rest: bits) {
    && Reaches(Initial(false), BytesBits(packed), q, rest) && Ok(q) && Codec.Paused(q, rest, room)
    && (status == T.Complete <==> q.pc.Done?)
  }

  lemma GoesOn(before: seq<byte>, input: seq<byte>, after: seq<byte>, room: nat, status: T.Status, q0: Inflater,
               held0: bits, used: nat, q: Inflater, held: bits)
    requires Codec.Outcome(false, before, room, T.NeedsMoreInput, q0, held0) && used <= |input| && |q.out| <= room
    requires Reaches(q0, held0 + BytesBits(input), q, held + BytesBits(input[used..]))
    requires status == T.NeedsMoreInput || status == T.CannotMakeProgress ==>
      used == |input| && Ok(q) && Step(q,
        held).Stuck? && !q.pc.Done? && !q.pc.Failed? && (q.pc.RawByte? ==> |q.out| < room)
    requires status == T.CannotMakeProgress ==> after == []
    requires status == T.HasMoreOutput ==> |q.out| == room && Ok(q) && (Want(q).Emit? || q.pc.RawByte?)
    requires status == T.Complete ==> q.pc.Done?
    requires status == T.Broken ==> q.pc.Failed?
    requires status != T.AdlerMismatch && status != T.BadParam
    ensures status == T.NeedsMoreInput ==> Codec.Outcome(false, before + input, room, status, q, held)
    ensures status != T.NeedsMoreInput ==>
      Ended(before + input + after, room, status, q, held + BytesBits(input[used..] + after))
  {
    hide Ok, Reaches, Step, Want, BytesBits, Codec.Outcome;
    Codec.Resumed(false, before, input, room, q0, held0, q, held + BytesBits(input[used..]));
    if status == T.NeedsMoreInput {
      Codec.NothingLeft(held, input, used);
      Codec.WaitsAgain(false, before + input, room, q, held);
    } else {
      Codec.StopsEarly(false, before, input, used, after, q, held);
      var rest := held + BytesBits(input[used..] + after);
      if status == T.CannotMakeProgress {
        assert input[used..] + after == [];
        Codec.NothingLeft(held, [], 0);
      } else if status == T.HasMoreOutput {
        Codec.NotDone(q);
      } else {
        Codec.HaltedStuck(q, rest);
      }
    }
  }

  lemma AtLast(packed: seq<byte>, room: nat, status: T.Status, q: Inflater, rest: bits, data: seq<byte>)
    requires Ended(packed, room, status, q, rest)
    ensures status == T.Complete ==> Unpacks(packed, q.out)
    ensures Stands(packed, data) && room == |data| ==> status == T.Complete && q.out == data
  {
    hide Ok, Reaches, BytesBits, Codec.Paused, DecodesTo;
    if Stands(packed, data) && room == |data| {
      var adler :| DecodesTo(BytesBits(packed), false, Pc.Done, data, adler);
      Codec.ReachesEnd(false, packed, data, adler, q, rest);
    }
  }
}
