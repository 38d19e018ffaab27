/** Bit strings, and the C integer operations on them that the codec uses.

    A bit string lists the bits of a stream in the order in which DEFLATE sends them (RFC 1951,
    section 3.1.1): the first bit of a byte is its least significant bit.  `Val` and `Enc` are the
    two directions between a bit string and the integer kept in a bit buffer. */
module Bits {

  type byte = x: int | 0 <= x < 256
  type bits = seq<bool>

  function Pow2(n: nat): (p: nat)
    ensures p > 0
  {
    if n == 0 then 1 else 2 * Pow2(n - 1)
  }

  lemma {:induction false} Pow2Add(a: nat, b: nat)
    ensures Pow2(a + b) == Pow2(a) * Pow2(b)
  {
    if b == 0 {
    } else {
      Pow2Add(a, b - 1);
      assert Pow2(a + b) == 2 * (Pow2(a) * Pow2(b - 1)) == Pow2(a) * (2 * Pow2(b - 1));
    }
  }

  lemma {:induction false} Pow2Mono(a: nat, b: nat)
    requires a <= b
    ensures Pow2(a) <= Pow2(b)
  {
    if a < b {
      Pow2Mono(a, b - 1);
    }
  }

  lemma Pow2Values()
    ensures Pow2(0) == 1 && Pow2(1) == 2 && Pow2(2) == 4 && Pow2(3) == 8 && Pow2(4) == 16
    ensures Pow2(5) == 32 && Pow2(6) == 64 && Pow2(7) == 128 && Pow2(8) == 256 && Pow2(9) == 512
    ensures Pow2(10) == 1024 && Pow2(11) == 2048 && Pow2(12) == 4096 && Pow2(13) == 8192
    ensures Pow2(14) == 16384 && Pow2(15) == 32768 && Pow2(16) == 65536
  {
    assert Pow2(4) == 16;
    assert Pow2(8) == 256;
    assert Pow2(12) == 4096;
  }

  function Bit(b: bool): (r: nat)
    ensures r <= 1
  {
    if b then 1 else 0
  }

  /** The integer whose binary digits, least significant first, are `b`. */
  function Val(b: bits): nat {
    if |b| == 0 then 0 else Bit(b[0]) + 2 * Val(b[1..])
  }

  /** The `n` low bits of `v`, least significant first. */
  function Enc(v: nat, n: nat): (b: bits)
    ensures |b| == n
  {
    if n == 0 then [] else [v % 2 == 1] + Enc(v / 2, n - 1)
  }

  lemma {:induction false} ValBound(b: bits)
    ensures Val(b) < Pow2(|b|)
  {
    if |b| != 0 {
      ValBound(b[1..]);
    }
  }

  lemma {:induction false} EncVal(b: bits)
    ensures Enc(Val(b), |b|) == b
  {
    if |b| != 0 {
      EncVal(b[1..]);
      assert Val(b) / 2 == Val(b[1..]) && (Val(b) % 2 == 1) == b[0];
      assert b == [b[0]] + b[1..];
    }
  }

  lemma {:induction false} ValEnc(v: nat, n: nat)
    requires v < Pow2(n)
    ensures Val(Enc(v, n)) == v
  {
    if n != 0 {
      ValEnc(v / 2, n - 1);
      assert Enc(v, n)[1..] == Enc(v / 2, n - 1);
    }
  }

  lemma {:induction false} ValConcat(a: bits, b: bits)
    ensures Val(a + b) == Val(a) + Pow2(|a|) * Val(b)
  {
    if |a| == 0 {
      assert a + b == b;
    } else {
      ValConcat(a[1..], b);
      assert (a + b)[1..] == a[1..] + b;
      assert 2 * (Pow2(|a| - 1) * Val(b)) == Pow2(|a|) * Val(b);
    }
  }

  /** Dropping high bits is a remainder, dropping low bits is a quotient. */
  lemma {:induction false} ValSplit(b: bits, n: nat)
    requires n <= |b|
    ensures Val(b[..n]) == Val(b) % Pow2(n)
    ensures Val(b[n..]) == Val(b) / Pow2(n)
  {
    assert b == b[..n] + b[n..];
    ValConcat(b[..n], b[n..]);
    ValBound(b[..n]);
    MulComm(Pow2(n), Val(b[n..]));
    DivModUnique(Val(b), Pow2(n), Val(b[n..]), Val(b[..n]));
  }

  lemma MulGap(a: nat, b: nat, d: nat)
    requires a < b
    ensures a * d + d <= b * d
  {
    assert b * d == a * d + (b - a) * d;
    assert (b - a) * d == d + (b - a - 1) * d;
    MulNonNeg(b - a - 1, d);
  }

  lemma MulNonNeg(a: nat, b: nat)
    ensures a * b >= 0
  {
  }

  lemma MulComm(a: nat, b: nat)
    ensures a * b == b * a
  {
  }

  lemma DivModUnique(x: nat, d: nat, q: nat, r: nat)
    requires r < d && x == q * d + r
    ensures x / d == q && x % d == r
  {
    DivModUniqueAux(d, x / d, x % d, q, r);
  }

  lemma DivModUniqueAux(d: nat, q': nat, r': nat, q: nat, r: nat)
    requires r < d && r' < d && q' * d + r' == q * d + r
    ensures q' == q && r' == r
  {
    if q' < q {
      MulGap(q', q, d);
    } else if q < q' {
      MulGap(q, q', d);
    }
  }

  /** C's `v >> n` on an unsigned integer. */
  function Shr(v: nat, n: nat): nat {
    if n == 0 then v else Shr(v / 2, n - 1)
  }

  lemma {:induction false} ShrDiv(v: nat, n: nat)
    ensures Shr(v, n) == v / Pow2(n)
  {
    if n != 0 {
      ShrDiv(v / 2, n - 1);
      DivDiv(v, Pow2(n - 1));
    }
  }

  lemma {:induction false} EncSplit(v: nat, n: nat, m: nat)
    ensures Enc(v, n + m) == Enc(v, n) + Enc(Shr(v, n), m)
  {
    if n == 0 {
      assert Enc(v, 0) + Enc(v, m) == Enc(v, m);
    } else {
      EncSplit(v / 2, n - 1, m);
      var x, lo, hi := [v % 2 == 1], Enc(v / 2, n - 1), Enc(Shr(v, n), m);
      assert Enc(v, n + m) == x + (lo + hi);
      assert x + (lo + hi) == (x + lo) + hi;
    }
  }

  lemma DivDiv(v: nat, p: nat)
    requires p > 0
    ensures (v / 2) / p == v / (2 * p)
  {
    var q, r := (v / 2) / p, (v / 2) % p;
    assert v / 2 == q * p + r;
    assert v == q * (2 * p) + (2 * r + v % 2);
    DivModUnique(v, 2 * p, q, 2 * r + v % 2);
  }

  lemma ModDouble(v: nat, p: nat)
    requires p > 0
    ensures v % (2 * p) == v % 2 + 2 * ((v / 2) % p)
  {
    var q, r := (v / 2) / p, (v / 2) % p;
    assert v / 2 == q * p + r;
    assert v == q * (2 * p) + (2 * r + v % 2);
    DivModUnique(v, 2 * p, q, 2 * r + v % 2);
  }

  lemma {:induction false} EncMod(v: nat, n: nat)
    ensures Enc(v % Pow2(n), n) == Enc(v, n)
  {
    var b := Enc(v, n);
    ValEncMod(v, n);
    EncVal(b);
  }

  lemma {:induction false} ValEncMod(v: nat, n: nat)
    ensures Val(Enc(v, n)) == v % Pow2(n)
  {
    if n != 0 {
      ValEncMod(v / 2, n - 1);
      assert Enc(v, n)[1..] == Enc(v / 2, n - 1);
      ModDouble(v, Pow2(n - 1));
    }
  }

  /** The concatenated bits of a byte string. */
  function BytesBits(s: seq<byte>): (b: bits)
    ensures |b| == 8 * |s|
  {
    if |s| == 0 then [] else Enc(s[0], 8) + BytesBits(s[1..])
  }

  lemma {:induction false} BytesBitsConcat(a: seq<byte>, b: seq<byte>)
    ensures BytesBits(a + b) == BytesBits(a) + BytesBits(b)
  {
    if |a| == 0 {
      assert a + b == b;
    } else {
      BytesBitsConcat(a[1..], b);
      assert (a + b)[1..] == a[1..] + b;
      assert Enc(a[0], 8) + (BytesBits(a[1..]) + BytesBits(b)) == BytesBits(a) + BytesBits(b);
    }
  }

  /** C's `<<` where nothing is shifted out. */
  function Shl(v: nat, n: nat): nat {
    MulNonNeg(v, Pow2(n));
    v * Pow2(n)
  }

  /** C's `|` on unsigned integers. */
  function BitOr(a: nat, b: nat): nat {
    if a == 0 then b
    else (if a % 2 == 1 || b % 2 == 1 then 1 else 0) + 2 * BitOr(a / 2, b / 2)
  }

  /** `a | (b << k)` is a sum when `a` fits in `k` bits. */
  lemma {:induction false} OrShifted(a: nat, b: nat, k: nat)
    requires a < Pow2(k)
    ensures BitOr(a, b * Pow2(k)) == a + b * Pow2(k)
  {
    if a != 0 {
      assert b * Pow2(k) == 2 * (b * Pow2(k - 1));
      OrShifted(a / 2, b, k - 1);
    }
  }

  /** Most significant bit first, as the bits of a Huffman code are numbered (RFC 1951, section 3.1.1). */
  function Msb(v: nat, n: nat): (b: bits)
    ensures |b| == n
  {
    if n == 0 then [] else Msb(v / 2, n - 1) + [v % 2 == 1]
  }

  /** The bit reversal loop `for (l = n; l > 0; l--, v >>= 1) rev = (rev << 1) | (v & 1)`. */
  method ReverseBits(v: nat, n: nat) returns (rev: nat)
    requires v < Pow2(n)
    ensures rev < Pow2(n)
    ensures Enc(rev, n) == Msb(v, n)
  {
    rev := 0;
    var l: nat, code: nat := n, v;
    assert Msb(v, n) + [] == Msb(v, n);
    while l > 0
      invariant 0 <= l <= n
      invariant rev < Pow2(n - l)
      invariant Msb(v, n) == Msb(code, l) + Enc(rev, n - l)
      decreases l
    {
      ghost var before := Enc(rev, n - l);
      OrShifted(code % 2, rev, 1);
      assert Pow2(1) == 2;
      rev := BitOr(code % 2, rev * 2);
      assert Enc(rev, n - l + 1) == [code % 2 == 1] + before;
      code := code / 2;
      l := l - 1;
    }
  }
}
