/** Adler-32 (RFC 1950, sections 8.2 and 9; src/external/miniz.h:1871-1894, 4774-4799): the modulo is
    taken once per 5552 bytes, which is as late as 32-bit sums allow. */
module Adler32 {
  import opened Bits

  const BASE: nat := 65521
  const NMAX: nat := 5552

  type u32 = x: int | 0 <= x < 0x1_0000_0000

  datatype Sums = Sums(a: nat, b: nat)

  predicate Reduced(s: Sums) {
    s.a < BASE && s.b < BASE
  }

  // ---------- the definition: modulo after every byte ----------

  function Add(s: Sums, x: byte): (r: Sums)
    ensures Reduced(r)
  {
    var a := (s.a + x) % BASE;
    Sums(a, (s.b + a) % BASE)
  }

  function Roll(s: Sums, data: seq<byte>): (r: Sums)
    ensures Reduced(s) ==> Reduced(r)
    decreases |data|
  {
    if |data| == 0 then s else Roll(Add(s, data[0]), data[1..])
  }

  function Word(s: Sums): nat {
    s.b * 0x10000 + s.a
  }

  function Unword(w: nat): Sums {
    Sums(w % 0x10000, w / 0x10000)
  }

  /** The checksum of a byte string continued from the checksum `w`. */
  function Adler(w: nat, data: seq<byte>): nat {
    Word(Roll(Unword(w), data))
  }

  predicate ValidWord(w: nat) {
    Reduced(Unword(w))
  }

  lemma WordUnword(s: Sums)
    requires Reduced(s)
    ensures Unword(Word(s)) == s && ValidWord(Word(s)) && Word(s) < 0x1_0000_0000
  {
    DivModUnique(Word(s), 0x10000, s.b, s.a);
  }

  lemma {:induction false} RollConcat(s: Sums, x: seq<byte>, y: seq<byte>)
    ensures Roll(s, x + y) == Roll(Roll(s, x), y)
    decreases |x|
  {
    if |x| == 0 {
      assert x + y == y;
    } else {
      assert (x + y)[1..] == x[1..] + y;
      RollConcat(Add(s, x[0]), x[1..], y);
    }
  }

  /** Checksums compose over concatenation. */
  lemma AdlerConcat(w: nat, x: seq<byte>, y: seq<byte>)
    requires ValidWord(w)
    ensures ValidWord(Adler(w, x)) && Adler(w, x + y) == Adler(Adler(w, x), y)
  {
    RollConcat(Unword(w), x, y);
    WordUnword(Roll(Unword(w), x));
  }

  // ---------- the sums without any modulo ----------

  function Raw(s: Sums, data: seq<byte>): Sums
    decreases |data|
  {
    if |data| == 0 then s
    else
      var r := Raw(s, data[..|data| - 1]);
      Sums(r.a + data[|data| - 1], r.b + r.a + data[|data| - 1])
  }

  lemma RollSnoc(s: Sums, data: seq<byte>, x: byte)
    ensures Roll(s, data + [x]) == Add(Roll(s, data), x)
  {
    RollConcat(s, data, [x]);
    assert [x][1..] == [];
  }

  /** Deferring the modulo does not change the result. */
  lemma {:induction false} RawRoll(s: Sums, data: seq<byte>)
    requires Reduced(s)
    ensures var r := Raw(s, data); Roll(s, data) == Sums(r.a % BASE, r.b % BASE)
    decreases |data|
  {
    if |data| > 0 {
      var init, x := data[..|data| - 1], data[|data| - 1];
      assert data == init + [x];
      RollSnoc(s, init, x);
      RawRoll(s, init);
      AddReduced(Raw(s, init), x);
    }
  }

  lemma AddReduced(r: Sums, x: byte)
    ensures Add(Sums(r.a % BASE, r.b % BASE), x) == Sums((r.a + x) % BASE, (r.b + r.a + x) % BASE)
  {
    ModAdd(r.a, x);
    ModAdd2(r.b, r.a + x);
  }

  lemma ModAdd(a: nat, x: nat)
    ensures (a % BASE + x) % BASE == (a + x) % BASE
  {
    var y := a % BASE + x;
    assert a + x == (a / BASE + y / BASE) * BASE + y % BASE;
    DivModUnique(a + x, BASE, a / BASE + y / BASE, y % BASE);
  }

  lemma ModAdd2(b: nat, a: nat)
    ensures (b % BASE + a % BASE) % BASE == (b + a) % BASE
  {
    ModAdd(a, b % BASE);
    ModAdd(b, a);
  }

  /** Both sums of a block stay below 2^32. */
  lemma {:induction false} RawBound(s: Sums, data: seq<byte>)
    requires Reduced(s)
    ensures var r, n := Raw(s, data), |data|;
      && r.a <= BASE - 1 + 255 * n
      && 2 * r.b <= 2 * (BASE - 1) * (n + 1) + 255 * (n * (n + 1))
    decreases |data|
  {
    var n := |data|;
    if n > 0 {
      RawBound(s, data[..n - 1]);
      assert n * (n + 1) == (n - 1) * n + 2 * n;
    }
  }

  lemma RawFits(s: Sums, data: seq<byte>)
    requires Reduced(s) && |data| <= NMAX
    ensures var r := Raw(s, data); r.a < 0x1_0000_0000 && r.b < 0x1_0000_0000
  {
    hide Raw;
    RawBound(s, data);
    var n := |data|;
    assert n * (n + 1) <= NMAX * (NMAX + 1) by { Square(n, NMAX); }
  }

  lemma Square(m: nat, n: nat)
    requires m <= n
    ensures m * (m + 1) <= n * (n + 1)
  {
    assert n * (n + 1) - m * (m + 1) == (n - m) * (n + m + 1);
  }

  // ---------- the loop ----------

  lemma RawStep(s: Sums, block: seq<byte>, i: nat)
    requires Reduced(s) && i < |block| <= NMAX
    ensures var r := Raw(s, block[..i]);
      && Raw(s, block[..i + 1]) == Sums(r.a + block[i], r.b + r.a + block[i])
      && r.a + block[i] < 0x1_0000_0000 && r.b + r.a + block[i] < 0x1_0000_0000
  {
    assert block[..i + 1][..i] == block[..i];
    assert Raw(s, block[..i + 1])
         == Sums(Raw(s, block[..i]).a + block[i], Raw(s, block[..i]).b + Raw(s, block[..i]).a + block[i]);
    RawFits(s, block[..i + 1]);
  }

  method AddByte(ghost s: Sums, ghost block: seq<byte>, ghost i: nat, x: byte, a: u32, b: u32)
    returns (s1: u32, s2: u32)
    requires Reduced(s) && i < |block| <= NMAX && x == block[i] && Sums(a, b) == Raw(s, block[..i])
    ensures Sums(s1, s2) == Raw(s, block[..i + 1])
  {
    RawStep(s, block, i);
    s1 := a + x;
    s2 := b + s1;
  }

  /** One block of at most 5552 bytes: eight at a time, then the rest, then the modulo. */
  method Block(a: u32, b: u32, block: seq<byte>) returns (s1: u32, s2: u32)
    requires a < BASE && b < BASE && |block| <= NMAX
    ensures Sums(s1, s2) == Roll(Sums(a, b), block)
  {
    hide Raw, Roll, Reduced;
    ghost var s := Sums(a, b);
    assert Reduced(s) by { ReducedPair(a, b); }
    s1, s2 := a, b;
    var i := 0;
    RawNone(s, block);
    while i + 7 < |block|
      invariant 0 <= i <= |block| && Sums(s1, s2) == Raw(s, block[..i])
    {
      s1, s2 := AddByte(s, block, i, block[i], s1, s2);
      s1, s2 := AddByte(s, block, i + 1, block[i + 1], s1, s2);
      s1, s2 := AddByte(s, block, i + 2, block[i + 2], s1, s2);
      s1, s2 := AddByte(s, block, i + 3, block[i + 3], s1, s2);
      s1, s2 := AddByte(s, block, i + 4, block[i + 4], s1, s2);
      s1, s2 := AddByte(s, block, i + 5, block[i + 5], s1, s2);
      s1, s2 := AddByte(s, block, i + 6, block[i + 6], s1, s2);
      s1, s2 := AddByte(s, block, i + 7, block[i + 7], s1, s2);
      i := i + 8;
    }
    while i < |block|
      invariant 0 <= i <= |block| && Sums(s1, s2) == Raw(s, block[..i])
    {
      s1, s2 := AddByte(s, block, i, block[i], s1, s2);
      i := i + 1;
    }
    assert block[..i] == block;
    RawRoll(s, block);
    s1, s2 := s1 % BASE, s2 % BASE;
  }

  lemma ReducedPair(a: nat, b: nat)
    requires a < BASE && b < BASE
    ensures Reduced(Sums(a, b))
  {
  }

  lemma RawNone(s: Sums, block: seq<byte>)
    ensures Raw(s, block[..0]) == s
  {
  }

  lemma RollNone(s: Sums)
    ensures Roll(s, []) == s
  {
  }

  lemma WordIs(a: nat, b: nat)
    ensures Word(Sums(a, b)) == b * 0x10000 + a
  {
  }

  /** The loop over the blocks, a short one first. */
  method Update(adler: nat, data: seq<byte>) returns (r: nat)
    requires ValidWord(adler)
    ensures r == Adler(adler, data) && ValidWord(r) && r < 0x1_0000_0000
  {
    hide Roll, Word;
    var s1: u32, s2: u32 := adler % 0x10000, adler / 0x10000;
    ghost var s := Sums(s1, s2);
    RollNone(s);
    var blockLen := |data| % NMAX;
    var p := 0;
    assert data[..0] == [];
    while p < |data|
      invariant 0 <= p <= |data| && s1 < BASE && s2 < BASE && Sums(s1, s2) == Roll(s, data[..p])
      invariant (blockLen == |data| % NMAX && p == 0) || (blockLen == NMAX && (|data| - p) % NMAX == 0)
      decreases |data| - p, if blockLen == NMAX then 0 else 1
    {
      RollConcat(s, data[..p], data[p..p + blockLen]);
      assert data[..p] + data[p..p + blockLen] == data[..p + blockLen];
      s1, s2 := Block(s1, s2, data[p..p + blockLen]);
      p := p + blockLen;
      blockLen := NMAX;
    }
    assert data[..p] == data;
    WordUnword(Sums(s1, s2));
    r := s2 * 0x10000 + s1;
    WordIs(s1, s2);
  }
}
