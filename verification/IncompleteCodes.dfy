/** The one case in which the reservoir still holds whole bytes at the end of a stream (src/external/miniz.h:4733): an
    incomplete distance code, of a single one-bit code word.  Any other input is recognised only with fifteen bits at
    hand (4273-4292), and then takes none of them. */
module IncompleteCodes {
  import opened Bits
  import opened Canonical
  import opened DecodeTable
  import opened Tokens
  import opened Inflate
  import opened BlockBody
  import opened CodeLengths
  import opened DynamicHeader
  import opened Codec
  import BlockSize
  import T = Tinfl

  // ---------- the codes ----------

  /** Code lengths of the literal 0, of the end of a block and of the shortest match. */
  function Lit(): (s: seq<nat>)
    ensures |s| == 258 && s[0] == 2 && s[256] == 2 && s[257] == 1 && forall i :: 1 <= i < 256 ==> s[i] == 0
  {
    [2] + Repeat(0, 255) + [2, 1]
  }

  function Dist(): seq<nat> {
    [1]
  }

  /** The code length code: lengths 1 and 2, and long runs of zeros. */
  function Lengths(): (s: seq<nat>)
    ensures |s| == 19 && s[1] == s[2] == 2 && s[18] == 1 && s[0] == 0 && forall i :: 3 <= i < 18 ==> s[i] == 0
  {
    [0, 2, 2] + Repeat(0, 15) + [1]
  }

  lemma LitCounts(l: nat)
    ensures Count(Lit(), l) == if l == 0 then 255 else if l == 1 then 1 else if l == 2 then 2 else 0
    ensures CountTo(Lit(), 256, 2) == 1 && CountTo(Lit(), 257, 1) == 0
  {
    hide Lit;
    CountConstant(Lit(), 1, 256, 0, l);
    CountConstant(Lit(), 1, 256, 0, 1);
    CountConstant(Lit(), 1, 256, 0, 2);
    assert CountTo(Lit(), 1, l) == if l == 2 then 1 else 0;
    assert CountTo(Lit(), 257, l) == CountTo(Lit(), 256, l) + if l == 2 then 1 else 0;
    assert CountTo(Lit(), 258, l) == CountTo(Lit(), 257, l) + if l == 1 then 1 else 0;
  }

  lemma LengthsCounts(l: nat)
    ensures Count(Lengths(), l) == if l == 0 then 16 else if l == 1 then 1 else if l == 2 then 2 else 0
  {
    CountConstant(Lengths(), 1, 3, 2, l);
    CountConstant(Lengths(), 3, 18, 0, l);
  }

  /** One code word of one bit and two of two bits fill the code. */
  lemma OneTwoTwo(s: seq<nat>)
    requires forall i :: 0 <= i < |s| ==> s[i] <= 2
    requires Count(s, 1) == 1 && Count(s, 2) == 2 && forall l: nat :: l > 2 ==> Count(s, l) == 0
    ensures Complete(s) && Buildable(s) && Covered(s, 0) == 0 && Covered(s, 1) == 1
  {
    hide Count, Covered, Used;
    CoveredZero(s);
    CoveredStep(s, 1, 0, 1); CoveredStep(s, 2, 1, 2);
    CoveredStep(s, 3, 4, 0); CoveredStep(s, 4, 8, 0); CoveredStep(s, 5, 16, 0); CoveredStep(s, 6, 32, 0);
    CoveredStep(s, 7, 64, 0); CoveredStep(s, 8, 128, 0); CoveredStep(s, 9, 256, 0); CoveredStep(s, 10, 512, 0);
    CoveredStep(s, 11, 1024, 0); CoveredStep(s, 12, 2048, 0); CoveredStep(s, 13, 4096, 0);
    CoveredStep(s, 14, 8192, 0); CoveredStep(s, 15, 16384, 0);
    Pow2Values();
  }

  lemma LitCode()
    ensures Buildable(Lit()) && CodeWord(Lit(), 256) == [true, true]
  {
    hide Covered, Count, Lit;
    forall l: nat
      ensures Count(Lit(), l) == if l == 0 then 255 else if l == 1 then 1 else if l == 2 then 2 else 0
    {
      LitCounts(l);
    }
    LitCounts(2);
    OneTwoTwo(Lit());
    assert Code(Lit(), 256) == 3;
    ThreeIs();
  }

  lemma ThreeIs()
    ensures Msb(3, 2) == [true, true] && Msb(0, 1) == [false]
  {
    assert Msb(3, 2) == Msb(1, 1) + [true];
    assert Msb(1, 1) == Msb(0, 0) + [true];
  }

  lemma LengthsCode()
    ensures Buildable(Lengths())
  {
    hide Covered, Count, Lengths;
    forall l: nat
      ensures Count(Lengths(), l) == if l == 0 then 16 else if l == 1 then 1 else if l == 2 then 2 else 0
    {
      LengthsCounts(l);
    }
    OneTwoTwo(Lengths());
  }

  lemma DistCode()
    ensures Buildable(Dist()) && CodeWord(Dist(), 0) == [false]
  {
    hide Used;
    ThreeIs();
    assert Code(Dist(), 0) == 0;
    OneUsed();
  }

  lemma OneUsed()
    ensures Used(Dist()) == 1
  {
    hide UsedTo;
    UsedStep(Dist(), 0, MAX_BITS);
    NoneUsed(Dist(), MAX_BITS);
  }

  lemma {:induction false} NoneUsed(s: seq<nat>, len: nat)
    ensures UsedTo(s, 0, len) == 0
  {
    if len > 0 {
      NoneUsed(s, len - 1);
    }
  }

  /** What begins with a one is no code word; that is known when there are fifteen bits. */
  lemma Unassigned(s: bits)
    requires |s| > 0 && s[0]
    ensures |s| < 15 ==> Decode(Dist(), s).None?
    ensures |s| >= 15 ==> Decode(Dist(), s) == Some(Decoded(0, 0))
  {
    hide CodeWord, Buildable;
    DistCode();
    forall t | Uses(Dist(), t)
      ensures !(CodeWord(Dist(), t) <= s) && !(10 < Dist()[t])
    {
      assert t == 0;
    }
  }

  // ---------- the stream ----------

  function Items(): seq<Item> {
    [Item(2, 0), Item(18, 127), Item(18, 106), Item(2, 0), Item(1, 0), Item(1, 0)]
  }

  function TheHeader(): Header {
    Header(258, 1, 18, Lengths(), Items())
  }

  /** One more item is unpacked. */
  lemma OneItem(xs: seq<Item>, x: Item, ys: seq<Item>, lengths: seq<nat>)
    requires CanUnpack(xs) && Unpack(xs) == lengths && CanUnpackOne(lengths, x) && ys == xs + [x]
    ensures CanUnpack(ys) && Unpack(ys) == UnpackOne(lengths, x)
  {
    hide Unpack, CanUnpack, CanUnpackOne, UnpackOne;
    UnpackSnoc(xs, x);
  }

  lemma ItemsCan(acc: seq<nat>)
    ensures forall x :: x in Items() ==> CanUnpackOne(acc, x)
    ensures UnpackOne(acc, Item(2, 0)) == acc + [2] && UnpackOne(acc, Item(1, 0)) == acc + [1]
    ensures UnpackOne(acc, Item(18, 127)) == acc + Repeat(0, 138)
    ensures UnpackOne(acc, Item(18, 106)) == acc + Repeat(0, 117)
  {
    Pow2Values();
  }

  lemma ItemsUnpack()
    ensures CanUnpack(Items()) && Unpack(Items()) == Lit() + Dist()
  {
    hide Unpack, CanUnpack, CanUnpackOne, UnpackOne, Repeat, Lit;
    var xs := Items();
    var l1: seq<nat> := [] + [2];
    var l2, l3 := l1 + Repeat(0, 138), l1 + Repeat(0, 138) + Repeat(0, 117);
    ItemsCan([]);
    ItemsCan(l1);
    ItemsCan(l2);
    ItemsCan(l3);
    ItemsCan(l3 + [2]);
    ItemsCan(l3 + [2] + [1]);
    NoItems();
    assert xs[..0] == [];
    OneItem(xs[..0], xs[0], xs[..1], []);
    OneItem(xs[..1], xs[1], xs[..2], l1);
    OneItem(xs[..2], xs[2], xs[..3], l2);
    OneItem(xs[..3], xs[3], xs[..4], l3);
    OneItem(xs[..4], xs[4], xs[..5], l3 + [2]);
    OneItem(xs[..5], xs[5], xs[..6], l3 + [2] + [1]);
    assert xs[..6] == xs;
    LitIs(l3);
  }

  lemma LitIs(l: seq<nat>)
    requires l == [] + [2] + Repeat(0, 138) + Repeat(0, 117)
    ensures l + [2] + [1] + [1] == Lit() + Dist()
  {
    assert Repeat(0, 138) + Repeat(0, 117) == Repeat(0, 255);
    assert l == [2] + (Repeat(0, 138) + Repeat(0, 117));
    assert Lit() == l + [2, 1];
  }

  lemma NoItems()
    ensures CanUnpack([]) && Unpack([]) == []
  {
  }

  lemma HeaderOk()
    ensures Describes(TheHeader(), Lit(), Dist())
  {
    hide Unpack, CanUnpack, Buildable, Lit;
    Pow2Values();
    LengthsCode();
    ItemsUnpack();
    assert Lit()[..258] == Lit() && Dist()[..1] == Dist();
    assert Transmitted(18) == 15;
  }

  // ---------- the run ----------

  function Zeros(n: nat): (b: bits)
    ensures |b| == n
  {
    seq(n, _ => false)
  }

  /** The end of a block, which begins with a one, and padding. */
  function End(n: nat): (b: bits)
    requires n >= 2
    ensures |b| == n && b[0]
  {
    [true, true] + Zeros(n - 2)
  }

  /** A final dynamic block with a literal and the length of a match, whose distance is missing. */
  function BlockBits(): bits {
    FrontBits() + CodeWord(Lit(), 0) + CodeWord(Lit(), 257)
  }

  function FrontBits(): bits {
    assert Describes(TheHeader(), Lit(), Dist()) by { HeaderOk(); }
    Enc(1, 1) + HeaderBits(TheHeader())
  }

  lemma BlockLength()
    ensures |BlockBits()| == 98
  {
    hide Lit, CodeWord, Enc, LengthsBits, Unpack, CanUnpack, Buildable;
    HeaderOk();
    BlockSize.LengthsLength(Lengths(), 0, 18);
    ItemsLength();
  }

  lemma ItemsLength()
    ensures ItemsUse(Lengths(), Items()) && |ItemsBits(Lengths(), Items())| == 24
  {
    hide CodeWord, Enc;
    Pow2Values();
    var xs := Items();
    assert xs[1..][1..][1..][1..][1..][1..] == [];
  }

  /** The machine waits for the distance with the bits `s`. */
  ghost predicate AtDistance(q: Inflater) {
    && Ok(q) && q.pc.DistSym? && q.counter == 3 && q.sizes0 == Lit() && q.sizes1 == Dist() && q.out == [0]
    && q.final == 5 && !q.zlib && q.window == 0
  }

  lemma HeaderRead(rest: bits) returns (q: Inflater)
    ensures Reaches(Initial(false), FrontBits() + rest, q, rest) && InBlock(q) && q.out == []
  {
    hide Reaches, HeaderBits, Describes, Lit, CodeWord, Buildable, StepN, Enc, Items, Unpack, CanUnpack, StaticLit,
      StaticDist, Step;
    HeaderOk();
    LitCode();
    DistCode();
    assert Lit()[..258] == Lit() && Dist()[..1] == Dist();
    q := RunHeader(Initial(false), 1, TheHeader(), Lit(), Dist(), rest);
  }

  ghost predicate InBlock(q: Inflater) {
    && Ok(q) && q.pc.LitLen? && q.sizes0 == Lit() && q.sizes1 == Dist() && q.final == 5 && !q.zlib && q.window == 0
  }

  lemma ToDistance(s: bits) returns (q: Inflater)
    ensures Reaches(Initial(false), BlockBits() + s, q, s) && AtDistance(q)
  {
    hide Reaches, FrontBits, Lit, CodeWord, Ok, Initial;
    var q0 := Initial(false);
    var b, c := CodeWord(Lit(), 0), CodeWord(Lit(), 257);
    var q1 := HeaderRead(b + (c + s));
    assert BlockBits() + s == FrontBits() + (b + (c + s));
    var q2 := RunLiteral(q1, 0, c + s);
    ReachTrans(q0, BlockBits() + s, q1, b + (c + s), q2, c + s);
    assert c + Enc(0, LenExtraBits(0)) + s == c + s;
    q := RunLength(q2, 0, s);
    ReachTrans(q0, BlockBits() + s, q2, c + s, q, s);
  }

  /** With fewer than fifteen bits it waits; with more it takes none of them for the distance. */
  lemma Waits(q: Inflater, s: bits)
    requires AtDistance(q) && 0 < |s| && s[0]
    ensures |s| < 15 ==> Step(q, s).Stuck?
    ensures |s| >= 15 ==> Step(q, s) == Next(q.(pc := Copy, dist := 1), s)
  {
    hide Decode, Ok;
    Unassigned(s);
  }

  lemma AfterCopy(q: Inflater, s: bits) returns (q': Inflater)
    requires AtDistance(q) && |s| >= 15 && s[0]
    ensures Reaches(q, s, q', s) && AtSymbol(q.(pc := LitLen), q', q'.out) && |q'.out| == 4
  {
    hide Decode, Reaches, StepN, Lit, CodeWord, Buildable, Step;
    Waits(q, s);
    ReachStep(q, s);
    StepOk(q, s);
    var q1 := q.(pc := Copy, dist := 1);
    q' := RunCopy(q1, s);
    ReachTrans(q, s, q1, s, q', s);
  }

  lemma BlockEnds(q: Inflater, z: bits)
    requires Ok(q) && q.pc.LitLen? && q.sizes0 == Lit() && q.final == 5
    ensures var q' := q.(pc := FinalAlign); Reaches(q, [true, true] + z, q', z) && Ok(q')
  {
    hide Decode, Reaches, StepN, Lit, CodeWord, Buildable, Step, LENGTH_BASE, LENGTH_EXTRA, SizesOk;
    LitCode();
    StepSymbol(q, 256, z);
    ReachStep(q, [true, true] + z);
    FeedOk(q, 256);
  }

  lemma StreamEnds(q: Inflater, z: bits)
    requires Ok(q) && q.pc.FinalAlign? && !q.zlib
    ensures var q' := q.(pc := Done); Reaches(q, z, q', z[|z| % 8..]) && Ok(q')
  {
    hide Reaches, StepN;
    ReachStep(q, z);
    StepOk(q, z);
  }

  /** From there the block ends, and so does the stream, with what is behind the byte in which the block ends. */
  lemma ToEnd(q: Inflater, n: nat) returns (q': Inflater, rest: bits)
    requires AtDistance(q) && n >= 15
    ensures Reaches(q, End(n), q', rest) && q'.pc.Done? && |rest| == n - 2 - (n - 2) % 8
    ensures Ok(q') && |q'.out| == 4 && !q'.zlib
  {
    hide Reaches, Lit, Ok;
    var q2 := AfterCopy(q, End(n));
    var q3, z := q2.(pc := FinalAlign), Zeros(n - 2);
    BlockEnds(q2, z);
    StreamEnds(q3, z);
    q', rest := q3.(pc := Done), z[|z| % 8..];
    ReachTrans(q, End(n), q2, End(n), q3, z);
    ReachTrans(q, End(n), q3, z, q', rest);
  }

  /** The bytes of a bit string. */
  function ToBytes(b: bits): (s: seq<byte>)
    requires |b| % 8 == 0
    ensures BytesBits(s) == b
  {
    if |b| == 0 then []
    else
      ValBound(b[..8]);
      Pow2Values();
      EncVal(b[..8]);
      assert b == b[..8] + b[8..];
      [Val(b[..8])] + ToBytes(b[8..])
  }

  lemma OneMore()
    ensures End(14) + BytesBits([0]) == End(22)
  {
    assert Enc(0, 8) == Zeros(8) by { ZeroBits(8); }
    assert BytesBits([0]) == Enc(0, 8) + [];
  }

  lemma {:induction false} ZeroBits(n: nat)
    ensures Enc(0, n) == Zeros(n)
  {
    if n > 0 {
      ZeroBits(n - 1);
      assert Zeros(n) == [false] + Zeros(n - 1);
    }
  }

  lemma StreamLength(data: seq<byte>)
    requires BytesBits(data) == BlockBits() + End(14)
    ensures |data| == 14
  {
    hide BlockBits, End;
    BlockLength();
  }

  lemma WaitOutcome(data: seq<byte>, q: Inflater, s: bits)
    requires Reaches(Initial(false), BytesBits(data), q, s) && AtDistance(q) && 0 < |s| < 15 && s[0]
    ensures Outcome(false, data, 4, T.NeedsMoreInput, q, s)
  {
    hide Reaches, StepN, Ok, Step, BytesBits;
    Waits(q, s);
  }

  lemma EndOutcome(data: seq<byte>, q: Inflater, s: bits)
    requires Reaches(Initial(false), BytesBits(data), q, s) && Ok(q) && q.pc.Done? && |q.out| == 4
    ensures Outcome(false, data, 4, T.Complete, q, s)
  {
    hide Reaches, StepN, Ok, Step, BytesBits;
  }

  /** The machine waits with fourteen bits, and with one byte more it is at the end with two bytes left. */
  lemma TwoLeft(data: seq<byte>) returns (q0: Inflater, q: Inflater, rest: bits)
    requires BytesBits(data) == BlockBits() + End(14)
    ensures Outcome(false, data, 4, T.NeedsMoreInput, q0, End(14)) && AtDistance(q0)
    ensures Reaches(q0, End(14) + BytesBits([0]), q, rest)
    ensures Outcome(false, data + [0], 4, T.Complete, q, rest) && |rest| == 16
  {
    hide Reaches, BlockBits, End, AtDistance, Outcome, BytesBits, Ok;
    q0 := ToDistance(End(14));
    OneMore();
    EndLength();
    q, rest := ToEnd(q0, 22);
    WaitOutcome(data, q0, End(14));
    Resume(Initial(false), BytesBits(data), BytesBits([0]), q0, End(14), q, rest);
    BytesBitsConcat(data, [0]);
    EndOutcome(data + [0], q, rest);
  }

  lemma EndLength()
    ensures |End(14)| == 14 && End(14)[0] && |End(22)| == 22
  {
  }

  /** So there is input at whose end a decompressor, fed twice, holds a whole byte. */
  method ReservoirLeft() returns (held: nat)
    ensures held == 8
  {
    hide *;
    BlockLength();
    EndLength();
    var data, more := ToBytes(BlockBits() + End(14)), [0];
    ghost var q0, q, rest := TwoLeft(data);
    var d := new T.Decompressor(false, 0, []);
    var buf := NewBuffer(4);
    WholeBuffer(buf[..], 0, 4, []);
    InitialWaits(false, 4);
    d.MachineIs();
    var status, used, made := d.Decompress(data, buf, 0, 4, true, false);
    WholeBuffer(buf[..], made, 4, d.history);
    d.MachineIs();
    ghost var q1, held1 := d.Machine(), d.Held();
    ghost var left1 := held1 + BytesBits(data[used..]);
    assert [] + data == data;
    ReachOk(Initial(false), [] + BytesBits(data), q1, left1);
    CallOutcome(false, [], data, 4, Initial(false), [], status, used, q1, held1);
    OneOutcome(false, data, 4, status, q1, left1, T.NeedsMoreInput, q0, End(14));
    NothingLeft(held1, data, used);
    var status2, used2, made2 := d.Decompress(more, buf, made, 4 - made, true, false);
    WholeBuffer(buf[..], made + made2, 4, d.history);
    d.MachineIs();
    ghost var q2, held2 := d.Machine(), d.Held();
    ReachOk(q1, held1 + BytesBits(more), q2, held2 + BytesBits(more[used2..]));
    CallOutcome(false, data, more, 4, q1, held1, status2, used2, q2, held2);
    OneOutcome(false, data + more, 4, status2, q2, held2 + BytesBits(more[used2..]), T.Complete, q, rest);
    held := d.numBits;
    EndFacts(data + more, q, rest);
  }

  lemma EndFacts(data: seq<byte>, q: Inflater, s: bits)
    requires Outcome(false, data, 4, T.Complete, q, s)
    ensures q.pc.Done?
  {
  }
}
