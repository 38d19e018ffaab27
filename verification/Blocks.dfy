/** The three kinds of blocks (RFC 1951, section 3.2.3) and the zlib frame around them (RFC 1950,
    section 2.2): how many bits they take, and that the decompressor reads them back. */
module Blocks {
  import opened Bits
  import opened Canonical
  import opened DecodeTable
  import opened Tokens
  import opened Inflate
  import opened BlockBody
  import opened DynamicHeader
  import opened BlockStart
  import opened CodeLengths

  datatype Block =
    | Stored(data: seq<byte>)
    | Static(ts: seq<Token>)
    | Dynamic(h: Header, lit: seq<nat>, dist: seq<nat>, ts: seq<Token>)

  ghost predicate Proper(b: Block) {
    match b
    case Stored(data) => |data| < 0x10000
    case Static(ts) => AllEncodable(StaticLit(), StaticDist(), ts)
    case Dynamic(h, lit, dist, ts) =>
      && Describes(h, lit, dist) && Buildable(lit) && Buildable(dist)
      && Uses(lit, 256) && AllEncodable(lit, dist, ts)
  }

  /** Does this block make sense after the output `out`? */
  predicate Follows(b: Block, out: seq<byte>) {
    match b
    case Stored(_) => true
    case Static(ts) => CanExpand(out, ts)
    case Dynamic(_, _, _, ts) => CanExpand(out, ts)
  }

  function Contents(b: Block, out: seq<byte>): (r: seq<byte>)
    requires Follows(b, out)
    ensures out <= r
  {
    match b
    case Stored(data) => out + data
    case Static(ts) => Expand(out, ts)
    case Dynamic(_, _, _, ts) => Expand(out, ts)
  }

  /** How many bits are missing to the next byte boundary. */
  function Padding(at: nat): (p: nat)
    ensures p < 8 && (at + p) % 8 == 0
  {
    (8 - at % 8) % 8
  }

  function StoredBits(data: seq<byte>, at: nat): bits
    requires |data| < 0x10000
  {
    Enc(0, 2) + (Enc(0, Padding(at + 2)) + (Enc(|data|, 16) + (Enc(0xFFFF - |data|, 16) + BytesBits(data))))
  }

  lemma StaticUses256()
    ensures Uses(StaticLit(), 256)
  {
  }

  /** What follows the final bit of a block, at bit position `at`. */
  ghost function KindBits(b: Block, at: nat): bits
    requires Proper(b)
  {
    match b
    case Stored(data) => StoredBits(data, at)
    case Static(ts) =>
      StaticUses256();
      Enc(1, 2) + BodyBits(StaticLit(), StaticDist(), ts)
    case Dynamic(h, lit, dist, ts) => HeaderBits(h) + BodyBits(lit, dist, ts)
  }

  ghost function BlockBits(b: Block, final: nat, at: nat): bits
    requires Proper(b)
  {
    Enc(final, 1) + KindBits(b, at + 1)
  }

  // ---------- stored blocks ----------

  lemma RunAlign(q: Inflater, pad: nat, rest: bits) returns (q': Inflater)
    requires Ok(q) && (q.pc.RawAlign? || q.pc.FinalAlign?) && pad < 8 && |rest| % 8 == 0
    ensures q' == Feed(q, 0) && Ok(q')
    ensures Reaches(q, Enc(0, pad) + rest, q', rest)
  {
    hide Feed, Reaches, Enc, Buildable;
    var s := Enc(0, pad) + rest;
    assert |s| % 8 == pad;
    assert s[pad..] == rest;
    assert Want(q) == AlignByte;
    ReachStep(q, s);
    FeedOk(q, 0);
    q' := Feed(q, 0);
  }

  lemma TwoBytes(v: nat)
    requires v < 0x10000
    ensures Enc(v, 16) == Enc(v % 256, 8) + Enc(v / 256, 8)
    ensures v % 256 + 256 * (v / 256) == v && v / 256 < 256
  {
    hide Enc, Pow2;
    Pow2Values();
    EncSplit(v, 8, 8);
    ShrDiv(v, 8);
    EncMod(v, 8);
  }

  lemma StoredType(final: nat)
    requires final < 2
    ensures Enc(final, 1) + Enc(0, 2) == Enc(final, 3) && final < Pow2(3)
  {
    Pow2Values();
    EncSplit(final, 1, 2);
    ShrDiv(final, 1);
    EncMod(0, 2);
  }

  lemma RunRawHeaderByte(q: Inflater, v: byte, rest: bits) returns (q': Inflater)
    requires Ok(q) && q.pc.RawHdr?
    ensures q.pc.i <= 3 && |q.raw| == q.pc.i
    ensures Reaches(q, Enc(v, 8) + rest, q', rest)
    ensures Ok(q') && q' == RawHeader(q, v)
  {
    hide Buildable, Reaches, Enc, Step, StepN, RawHeader;
    Pow2Values();
    q' := RunBits(q, v, rest);
  }

  /** The last byte of LEN and NLEN. */
  lemma HeaderRead(q: Inflater, n: nat)
    requires q.pc == RawHdr(3) && n < 0x10000 && q.raw == [n % 256, n / 256, (0xFFFF - n) % 256]
    ensures var q' := RawHeader(q, (0xFFFF - n) / 256);
      q'.raw == q.raw + [(0xFFFF - n) / 256] && q' == if n > 0 then q.(pc := RawByte, counter := n, raw := q'.raw)
        else EndBlock(q.(counter := 0, raw := q'.raw))
  {
  }

  /** LEN and NLEN. */
  lemma RunStoredLength(q: Inflater, n: nat, rest: bits) returns (q': Inflater)
    requires Ok(q) && q.pc == RawHdr(0) && q.raw == [] && n < 0x10000
    ensures Reaches(q, Enc(n, 16) + (Enc(0xFFFF - n, 16) + rest), q', rest)
    ensures Ok(q') && q'.out == q.out && q'.window == q.window
    ensures n > 0 ==> q' == q.(pc := RawByte, counter := n, raw := q'.raw)
    ensures n == 0 ==> AfterBlock(q, q', q.out)
  {
    hide Buildable, Reaches, Enc, Pow2, Step, StepN, Ok, Feed, Want;
    var m := 0xFFFF - n;
    TwoBytes(n);
    TwoBytes(m);
    var s3 := Enc(m / 256, 8) + rest;
    var s2 := Enc(m % 256, 8) + s3;
    var s1 := Enc(n / 256, 8) + s2;
    var s := Enc(n % 256, 8) + s1;
    assert Enc(n, 16) + (Enc(m, 16) + rest) == s by {
      Assoc3(Enc(n % 256, 8), Enc(n / 256, 8), Enc(m, 16) + rest);
      Assoc3(Enc(m % 256, 8), Enc(m / 256, 8), rest);
    }
    var q1 := RunRawHeaderByte(q, n % 256, s1);
    var q2 := RunRawHeaderByte(q1, n / 256, s2);
    ReachTrans(q, s, q1, s1, q2, s2);
    var q3 := RunRawHeaderByte(q2, m % 256, s3);
    ReachTrans(q, s, q2, s2, q3, s3);
    q' := RunRawHeaderByte(q3, m / 256, rest);
    ReachTrans(q, s, q3, s3, q', rest);
    HeaderRead(q3, n);
  }

  lemma {:induction false} RunStoredBytes(q: Inflater, data: seq<byte>, rest: bits) returns (q': Inflater)
    requires Ok(q) && q.pc.RawByte? && q.counter == |data|
    ensures Reaches(q, BytesBits(data) + rest, q', rest)
    ensures AfterBlock(q, q', q.out + data)
    decreases |data|
  {
    hide Buildable, Reaches, Enc, Pow2, Step, StepN;
    Pow2Values();
    var s1 := BytesBits(data[1..]) + rest;
    var s := Enc(data[0], 8) + s1;
    assert BytesBits(data) + rest == s;
    var q1 := RunBits(q, data[0], s1);
    StepEmit(q1, s1);
    assert Reaches(q1, s1, Feed(q1, data[0]), s1) by { ReachEmit(q1, s1); }
    FeedOk(q1, data[0]);
    var q2 := Feed(q1, data[0]);
    ReachTrans(q, s, q1, s1, q2, s1);
    if |data| == 1 {
      assert s1 == rest;
      assert q.out + data == q.out + [data[0]];
      q' := q2;
    } else {
      q' := RunStoredBytes(q2, data[1..], rest);
      ReachTrans(q, s, q2, s1, q', rest);
      assert q.out + data == q2.out + data[1..];
    }
  }

  lemma ReachEmit(q: Inflater, s: bits)
    requires Ok(q) && Want(q).Emit?
    ensures Answer(q, Want(q).b) && Reaches(q, s, Feed(q, Want(q).b), s)
  {
    hide Ok, Feed, Reaches;
    StepEmit(q, s);
    ReachStep(q, s);
  }

  lemma RunStored(q: Inflater, data: seq<byte>, final: nat, at: nat, rest: bits) returns (q': Inflater)
    requires Ok(q) && q.pc.BlockHdr? && |data| < 0x10000 && final < 2 && (at + |StoredBits(data, at)| + |rest|) % 8 == 0
    ensures Reaches(q, Enc(final, 1) + StoredBits(data, at) + rest, q', rest)
    ensures AfterBlock(q.(final := final), q', q.out + data)
  {
    hide Buildable, Reaches, Enc, Pow2, Step, StepN, StaticLit, StaticDist, Padding;
    Pow2Values();
    var pad, n := Padding(at + 2), |data|;
    var s2 := BytesBits(data) + rest;
    var s1 := Enc(n, 16) + (Enc(0xFFFF - n, 16) + s2);
    var s0 := Enc(0, pad) + s1;
    var s := Enc(final, 3) + s0;
    StoredType(final);
    assert Enc(final, 1) + StoredBits(data, at) + rest == s by {
      AssocStored(Enc(final, 1), Enc(0, 2), Enc(0, pad), Enc(n, 16), Enc(0xFFFF - n, 16), BytesBits(data), rest);
    }
    StoredWhole(data, at, rest);
    var q0 := RunBits(q, final, s0);
    var q1 := RunAlign(q0, pad, s1);
    ReachTrans(q, s, q0, s0, q1, s1);
    var q2 := RunStoredLength(q1, n, s2);
    ReachTrans(q, s, q1, s1, q2, s2);
    if n == 0 {
      assert s2 == rest && q.out + data == q.out;
      q' := q2;
    } else {
      q' := RunStoredBytes(q2, data, rest);
      ReachTrans(q, s, q2, s2, q', rest);
    }
  }

  lemma StoredWhole(data: seq<byte>, at: nat, rest: bits)
    requires |data| < 0x10000 && (at + |StoredBits(data, at)| + |rest|) % 8 == 0
    ensures |rest| % 8 == 0 && |Enc(|data|, 16) + (Enc(0xFFFF - |data|, 16) + (BytesBits(data) + rest))| % 8 == 0
  {
    hide Enc, BytesBits;
    assert |StoredBits(data, at)| == 2 + Padding(at + 2) + 32 + 8 * |data|;
  }

  lemma AssocStored(f: bits, t: bits, p: bits, a: bits, b: bits, d: bits, r: bits)
    ensures f + (t + (p + (a + (b + d)))) + r == (f + t) + (p + (a + (b + (d + r))))
  {
    Assoc3(f, t + (p + (a + (b + d))), r);
    Assoc3(t, p + (a + (b + d)), r);
    Assoc3(p, a + (b + d), r);
    Assoc3(a, b + d, r);
    Assoc3(b, d, r);
    Assoc3(f, t, p + (a + (b + (d + r))));
  }

  // ---------- compressed blocks ----------

  lemma StaticType(final: nat)
    requires final < 2
    ensures Enc(final, 1) + Enc(1, 2) == Enc(2 + final, 3) && 2 + final < Pow2(3)
  {
    Pow2Values();
    EncSplit(2 + final, 1, 2);
    ShrDiv(2 + final, 1);
    EncMod(2 + final, 1);
    EncMod(final, 1);
  }

  lemma RunStatic(q: Inflater, ts: seq<Token>, final: nat, rest: bits) returns (q': Inflater)
    requires Ok(q) && q.pc.BlockHdr? && final < 2 && AllEncodable(StaticLit(), StaticDist(), ts) && CanExpand(q.out, ts)
    requires Uses(StaticLit(), 256) && q.window == 0
    ensures Reaches(q, Enc(final, 1) + (Enc(1, 2) + BodyBits(StaticLit(), StaticDist(), ts)) + rest, q', rest)
    ensures AfterBlock(q.(final := 2 + final), q', Expand(q.out, ts))
  {
    hide Buildable, Reaches, Enc, Pow2, Step, StepN, StaticLit, StaticDist, BodyBits, Expand, AllEncodable;
    StaticType(final);
    var b := BodyBits(StaticLit(), StaticDist(), ts);
    var s1 := b + rest;
    var s := Enc(2 + final, 3) + s1;
    assert Enc(final, 1) + (Enc(1, 2) + b) + rest == s by {
      Assoc3(Enc(final, 1), Enc(1, 2), b);
      Assoc3(Enc(2 + final, 3), b, rest);
    }
    var q1 := RunBits(q, 2 + final, s1);
    q' := RunBody(q1, ts, rest);
    ReachTrans(q, s, q1, s1, q', rest);
  }

  lemma RunDynamic(q: Inflater, b: Block, final: nat, rest: bits) returns (q': Inflater)
    requires Ok(q) && q.pc.BlockHdr? && final < 2 && b.Dynamic? && Proper(b) && CanExpand(q.out, b.ts) && q.window == 0
    ensures Reaches(q, Enc(final, 1) + (HeaderBits(b.h) + BodyBits(b.lit, b.dist, b.ts)) + rest, q', rest)
    ensures AfterBlock(q.(final := 4 + final), q', Expand(q.out, b.ts))
  {
    hide Buildable, Reaches, Enc, Pow2, Step, StepN, BodyBits, HeaderBits, Expand, AllEncodable, ItemsUse, CanUnpack,
      Unpack;
    var x, y := HeaderBits(b.h), BodyBits(b.lit, b.dist, b.ts);
    var s1 := y + rest;
    var s := Enc(final, 1) + x + s1;
    assert Enc(final, 1) + (x + y) + rest == s by {
      Assoc3(Enc(final, 1), x, y);
      Assoc3(Enc(final, 1) + x, y, rest);
    }
    TrimBuildable(b.lit, b.h.numLit);
    TrimBuildable(b.dist, b.h.numDist);
    TrimBody(b.lit, b.dist, b.h.numLit, b.h.numDist, b.ts);
    var q1 := RunHeader(q, final, b.h, b.lit, b.dist, s1);
    q' := RunBody(q1, b.ts, rest);
    ReachTrans(q, s, q1, s1, q', rest);
  }

  /** The state after a block: `final` bit seen, output extended. */
  ghost predicate Past(q: Inflater, q': Inflater, final: nat, out: seq<byte>) {
    && Ok(q') && q'.out == out && q'.zlib == q.zlib && q'.window == q.window && q'.zAdler == q.zAdler
    && q'.pc == (if final == 1 then FinalAlign else BlockHdr)
  }

  /** Every block decodes to its contents, whatever bits follow it. */
  lemma RunBlock(q: Inflater, b: Block, final: nat, at: nat, rest: bits) returns (q': Inflater)
    requires Ok(q) && q.pc.BlockHdr? && final < 2 && Proper(b) && Follows(b, q.out) && q.window == 0
    requires (at + |BlockBits(b, final, at)| + |rest|) % 8 == 0
    ensures Reaches(q, BlockBits(b, final, at) + rest, q', rest)
    ensures Past(q, q', final, Contents(b, q.out))
  {
    hide Buildable, Reaches, Enc, Step, StepN, BodyBits, HeaderBits, Expand, AllEncodable, Describes, Ok, StaticLit,
      StaticDist, StoredBits;
    match b
    case Stored(data) => q' := RunStored(q, data, final, at + 1, rest);
    case Static(ts) =>
      StaticUses256();
      q' := RunStatic(q, ts, final, rest);
    case Dynamic(_, _, _, _) => q' := RunDynamic(q, b, final, rest);
  }

  // ---------- the zlib frame ----------

  /** A two-byte header whose check bits are right, without preset dictionary. */
  predicate ZlibHeader(cmf: nat, flg: nat) {
    cmf == 0x78 && flg < 256 && (cmf * 256 + flg) % 31 == 0 && (flg / 32) % 2 == 0
  }

  lemma RunZlibHeader(q: Inflater, cmf: nat, flg: nat, rest: bits) returns (q': Inflater)
    requires Ok(q) && q.pc.ZHdr0? && ZlibHeader(cmf, flg) && q.window == 0
    ensures Reaches(q, Enc(cmf, 8) + Enc(flg, 8) + rest, q', rest)
    ensures Ok(q') && q' == q.(pc := BlockHdr, zhdr0 := cmf)
  {
    hide Buildable, Reaches, Enc, Pow2, Step, StepN;
    Pow2Values();
    var s1 := Enc(flg, 8) + rest;
    var s := Enc(cmf, 8) + s1;
    Assoc3(Enc(cmf, 8), Enc(flg, 8), rest);
    var q1 := RunBits(q, cmf, s1);
    q' := RunBits(q1, flg, rest);
    ReachTrans(q, s, q1, s1, q', rest);
  }

  /** The checksum, most significant byte first. */
  function AdlerBytes(a: nat): seq<byte>
    requires a < 0x1_0000_0000
  {
    [a / 0x1000000, a / 0x10000 % 256, a / 256 % 256, a % 256]
  }

  /** What is at the end of a finished stream. */
  function TrailerBits(zlib: bool, at: nat, a: nat): bits
    requires a < 0x1_0000_0000
  {
    Enc(0, Padding(at)) + (if zlib then BytesBits(AdlerBytes(a)) else [])
  }

  lemma RunTrailer(q: Inflater, at: nat, a: nat, rest: bits) returns (q': Inflater)
    requires Ok(q) && q.pc.FinalAlign? && a < 0x1_0000_0000 && |rest| % 8 == 0
    ensures Reaches(q, TrailerBits(q.zlib, at, a) + rest, q', rest)
    ensures Ok(q') && q'.pc.Done? && q'.out == q.out && q'.zlib == q.zlib && q'.window == q.window
    ensures (q.zlib ==> q'.zAdler == a)
  {
    hide Buildable, Reaches, Enc, Pow2, Step, StepN, Padding, BytesBits;
    Pow2Values();
    var pad := Padding(at);
    if q.zlib {
      var t := BytesBits(AdlerBytes(a));
      Assoc3(Enc(0, pad), t, rest);
      var q1 := RunAlign(q, pad, t + rest);
      q' := RunChecksum(q1, a, rest);
      ReachTrans(q, Enc(0, pad) + (t + rest), q1, t + rest, q', rest);
    } else {
      assert Enc(0, pad) + [] == Enc(0, pad);
      q' := RunAlign(q, pad, rest);
    }
  }

  lemma RunTrailerByte(q: Inflater, v: byte, rest: bits) returns (q': Inflater)
    requires Ok(q) && q.pc.Trailer?
    ensures Reaches(q, Enc(v, 8) + rest, q', rest)
    ensures Ok(q')
    ensures q' == q.(zAdler := (q.zAdler * 256 + v) % 0x1_0000_0000, 
      pc := if q.pc.i < 3 then Trailer(q.pc.i + 1) else Done)
  {
    hide Buildable, Reaches, Enc, Step, StepN;
    Pow2Values();
    q' := RunBits(q, v, rest);
  }

  lemma RunChecksum(q: Inflater, a: nat, rest: bits) returns (q': Inflater)
    requires Ok(q) && q.pc == Trailer(0) && a < 0x1_0000_0000
    ensures Reaches(q, BytesBits(AdlerBytes(a)) + rest, q', rest)
    ensures Ok(q') && q' == q.(pc := Done, zAdler := a)
  {
    hide Ok, Reaches, Enc, BytesBits, AdlerBytes, Append;
    var b := AdlerBytes(a);
    Digits(a);
    FourBytes(b);
    var s3 := Enc(b[3], 8) + rest;
    var s2 := Enc(b[2], 8) + s3;
    var s1 := Enc(b[1], 8) + s2;
    var s := Enc(b[0], 8) + s1;
    assert BytesBits(b) + rest == s by {
      Assoc3(Enc(b[0], 8), Enc(b[1], 8) + (Enc(b[2], 8) + Enc(b[3], 8)), rest);
      Assoc3(Enc(b[1], 8), Enc(b[2], 8) + Enc(b[3], 8), rest);
      Assoc3(Enc(b[2], 8), Enc(b[3], 8), rest);
    }
    var q1 := RunTrailerByte(q, b[0], s1);
    var q2 := RunTrailerByte(q1, b[1], s2);
    ReachTrans(q, s, q1, s1, q2, s2);
    var q3 := RunTrailerByte(q2, b[2], s3);
    ReachTrans(q, s, q2, s2, q3, s3);
    q' := RunTrailerByte(q3, b[3], rest);
    ReachTrans(q, s, q3, s3, q', rest);
    ShiftIn(q.zAdler, b[0], b[1], b[2], b[3], a);
  }

  lemma FourBytes(b: seq<byte>)
    requires |b| == 4
    ensures BytesBits(b) == Enc(b[0], 8) + (Enc(b[1], 8) + (Enc(b[2], 8) + Enc(b[3], 8)))
  {
    hide Enc;
    assert b[1..][1..] == b[2..] && b[2..][1..] == b[3..] && b[3..][1..] == [];
    assert BytesBits(b[3..]) == Enc(b[3], 8) + BytesBits([]);
    assert BytesBits(b[2..]) == Enc(b[2], 8) + BytesBits(b[3..]);
    assert BytesBits(b[1..]) == Enc(b[1], 8) + BytesBits(b[2..]);
  }

  lemma Digits(a: nat)
    requires a < 0x1_0000_0000
    ensures var b := AdlerBytes(a); |b| == 4 && Append(Append(Append(b[0], b[1]), b[2]), b[3]) == a
  {
    var h := a / 256;
    assert a / 0x10000 == h / 256 && a / 0x1000000 == h / 256 / 256;
  }

  function Append(x: nat, b: nat): nat {
    x * 256 + b
  }

  /** Four bytes shifted into a 32-bit word replace what it held. */
  lemma ShiftIn(z: nat, b0: nat, b1: nat, b2: nat, b3: nat, a: nat)
    requires a == Append(Append(Append(b0, b1), b2), b3) < 0x1_0000_0000
    ensures ((((z * 256 + b0) % 0x1_0000_0000 * 256 + b1) % 0x1_0000_0000 * 256 + b2)
      % 0x1_0000_0000 * 256 + b3) % 0x1_0000_0000 == a
  {
    var x1 := z * 256 + b0;
    var x2 := x1 * 256 + b1;
    var x3 := x2 * 256 + b2;
    Reduce(x1, b1);
    Reduce(x2, b2);
    Reduce(x3, b3);
    assert x3 * 256 + b3 == z * 0x1_0000_0000 + a;
    DivModUnique(x3 * 256 + b3, 0x1_0000_0000, z, a);
  }

  lemma Reduce(x: nat, b: nat)
    ensures (x % 0x1_0000_0000 * 256 + b) % 0x1_0000_0000 == (x * 256 + b) % 0x1_0000_0000
  {
    var m, y := 0x1_0000_0000, x % 0x1_0000_0000 * 256 + b;
    var k := x / m;
    assert x * 256 + b == (y / m + 256 * k) * m + y % m;
    DivModUnique(x * 256 + b, m, y / m + 256 * k, y % m);
  }
}
