/** The header of a dynamic block (RFC 1951, section 3.2.7): what `tdefl_start_dynamic_block` writes
    (src/external/miniz.h:2855-2935) is what `tinfl_decompress` reads back (4499-4561). */
module DynamicHeader {
  import opened Bits
  import opened Canonical
  import opened DecodeTable
  import opened CodeLengths
  import opened Inflate
  import opened BlockBody
  import opened BitWriting
  import opened MergeQueues
  import opened MinRedundancy
  import HuffmanTable
  import LzCodes

  datatype Header = Header(numLit: nat, numDist: nat, numLengths: nat, sizes2: seq<nat>, items: seq<Item>)

  function ItemBits(sizes2: seq<nat>, x: Item): bits
    requires ValidItem(x) && Uses(sizes2, x.sym)
  {
    CodeWord(sizes2, x.sym) + Enc(x.extra, ExtraBits(x.sym))
  }

  predicate ItemsUse(sizes2: seq<nat>, xs: seq<Item>) {
    ValidItems(xs) && forall i :: 0 <= i < |xs| ==> Uses(sizes2, xs[i].sym)
  }

  function ItemsBits(sizes2: seq<nat>, xs: seq<Item>): bits
    requires ItemsUse(sizes2, xs)
  {
    if |xs| == 0 then [] else ItemBits(sizes2, xs[0]) + ItemsBits(sizes2, xs[1..])
  }

  /** The lengths `i..n` of the code length code, in the order of transmission. */
  function LengthsBits(sizes2: seq<nat>, i: nat, n: nat): bits
    requires |sizes2| == 19 && i <= n <= 19
    decreases n - i
  {
    if i == n then [] else Enc(sizes2[Transmitted(i)], 3) + LengthsBits(sizes2, i + 1, n)
  }

  ghost predicate WellFormed(h: Header) {
    && 257 <= h.numLit <= 288 && 1 <= h.numDist <= 32 && 4 <= h.numLengths <= 19
    && |h.sizes2| == 19 && Buildable(h.sizes2)
    && (forall k :: 0 <= k < 19 ==> h.sizes2[k] <= 7)
    && (forall k :: h.numLengths <= k < 19 ==> h.sizes2[Transmitted(k)] == 0)
    && ItemsUse(h.sizes2, h.items) && CanUnpack(h.items)
    && |Unpack(h.items)| == h.numLit + h.numDist
  }

  /** The header stands for these two vectors of code lengths, up to trailing zeros. */
  ghost predicate Describes(h: Header, lit: seq<nat>, dist: seq<nat>) {
    && WellFormed(h) && h.numLit <= |lit| && h.numDist <= |dist|
    && Unpack(h.items) == lit[..h.numLit] + dist[..h.numDist]
    && (forall k :: h.numLit <= k < |lit| ==> lit[k] == 0)
    && (forall k :: h.numDist <= k < |dist| ==> dist[k] == 0)
  }

  function HeaderBits(h: Header): bits
    requires |h.sizes2| == 19 && h.numLengths <= 19 && ItemsUse(h.sizes2, h.items)
    requires 257 <= h.numLit && 1 <= h.numDist && 4 <= h.numLengths
  {
    Enc(2, 2) + (Enc(h.numLit - 257, 5) + (Enc(h.numDist - 1, 5) + (Enc(h.numLengths - 4, 4)
    + (LengthsBits(h.sizes2, 0, h.numLengths) + ItemsBits(h.sizes2, h.items)))))
  }

  // ---------- reading ----------

  lemma RunBits(q: Inflater, v: nat, rest: bits) returns (q': Inflater)
    requires Ok(q) && Want(q).NeedBits? && v < Pow2(Want(q).n)
    ensures Answer(q, v) && q' == Feed(q, v) && Ok(q')
    ensures Reaches(q, Enc(v, Want(q).n) + rest, q', rest)
  {
    hide Ok, Feed, Pow2, Enc, Reaches;
    StepBits(q, v, rest);
    DivModUnique(v, Pow2(Want(q).n), 0, v);
    ReachStep(q, Enc(v, Want(q).n) + rest);
    FeedOk(q, v);
    q' := Feed(q, v);
  }

  lemma RunSymbol(q: Inflater, sym: nat, rest: bits) returns (q': Inflater)
    requires Ok(q) && Want(q).NeedSymbol? && Uses(SizesOf(q, Want(q).table), sym)
    ensures Answer(q, sym) && q' == Feed(q, sym) && Ok(q')
    ensures Reaches(q, CodeWord(SizesOf(q, Want(q).table), sym) + rest, q', rest)
  {
    hide Ok, Feed, CodeWord, Reaches;
    StepSymbol(q, sym, rest);
    ReachStep(q, CodeWord(SizesOf(q, Want(q).table), sym) + rest);
    FeedOk(q, sym);
    q' := Feed(q, sym);
  }

  lemma TypeBits(final: nat)
    requires final < 2
    ensures Enc(final, 1) + Enc(2, 2) == Enc(4 + final, 3) && 4 + final < Pow2(3)
  {
    Pow2Values();
    EncSplit(4 + final, 1, 2);
    ShrDiv(4 + final, 1);
    EncMod(4 + final, 1);
    EncMod(final, 1);
  }

  /** The three table sizes. */
  lemma RunSizes(q: Inflater, final: nat, h: Header, rest: bits) returns (q': Inflater)
    requires Ok(q) && q.pc.BlockHdr? && WellFormed(h) && final < 2
    ensures Reaches(q,
      Enc(4 + final,
        3) + (Enc(h.numLit - 257, 5) + (Enc(h.numDist - 1, 5) + (Enc(h.numLengths - 4, 4) + rest))), q', rest)
    ensures Ok(q') && q' == q.(pc := CodeLenLen(0), final := 4 + final,
                               tableSizes := [h.numLit, h.numDist, h.numLengths], sizes2 := Repeat(0, 19))
  {
    hide Buildable, Reaches, Enc, Pow2, StaticLit, StaticDist, CanUnpack, Unpack, ItemsUse, Step, StepN;
    Pow2Values();
    var s2 := Enc(h.numLengths - 4, 4) + rest;
    var s1 := Enc(h.numDist - 1, 5) + s2;
    var s0 := Enc(h.numLit - 257, 5) + s1;
    var s := Enc(4 + final, 3) + s0;
    var q0 := RunBits(q, 4 + final, s0);
    var q1 := RunBits(q0, h.numLit - 257, s1);
    ReachTrans(q, s, q0, s0, q1, s1);
    var q2 := RunBits(q1, h.numDist - 1, s2);
    ReachTrans(q, s, q1, s1, q2, s2);
    q' := RunBits(q2, h.numLengths - 4, rest);
    ReachTrans(q, s, q2, s2, q', rest);
    assert seq(19, _ => 0) == Repeat(0, 19);
    assert q'.tableSizes == [h.numLit, h.numDist, h.numLengths];
  }

  /** What the machine holds after `i` lengths of the code length code. */
  ghost predicate LengthsRead(have: seq<nat>, sizes2: seq<nat>, i: nat) {
    && |have| == |sizes2| == 19 && i <= 19
    && (forall k :: 0 <= k < i ==> have[Transmitted(k)] == sizes2[Transmitted(k)])
    && (forall k :: i <= k < 19 ==> have[Transmitted(k)] == 0)
  }

  /** The transmission order is a permutation of the 19 symbols. */
  lemma Dezigzag(k: nat) returns (j: nat)
    requires k < 19
    ensures j < 19 && Transmitted(j) == k
  {
    var inverse := [3, 17, 15, 13, 11, 9, 7, 5, 4, 6, 8, 10, 12, 14, 16, 18, 0, 1, 2];
    j := inverse[k];
  }

  lemma DezigzagDistinct(i: nat, j: nat)
    requires i < j < 19
    ensures Transmitted(i) != Transmitted(j)
  {
  }

  lemma LengthsReadStep(have: seq<nat>, sizes2: seq<nat>, i: nat)
    requires LengthsRead(have, sizes2, i) && i < 19
    ensures LengthsRead(have[Transmitted(i) := sizes2[Transmitted(i)]], sizes2, i + 1)
  {
    hide Transmitted;
    forall k | 0 <= k < 19 && k != i
      ensures Transmitted(k) != Transmitted(i)
    {
      DezigzagDistinct(if k < i then k else i, if k < i then i else k);
    }
  }

  lemma LengthsReadAll(have: seq<nat>, sizes2: seq<nat>, n: nat)
    requires LengthsRead(have, sizes2, n) && forall k :: n <= k < 19 ==> sizes2[Transmitted(k)] == 0
    ensures have == sizes2
  {
    hide Transmitted;
    forall k | 0 <= k < 19
      ensures have[k] == sizes2[k]
    {
      var j := Dezigzag(k);
    }
  }

  lemma {:induction false} RunLengths(q: Inflater, h: Header, rest: bits) returns (q': Inflater)
    requires Ok(q) && WellFormed(h) && q.pc.CodeLenLen? && q.tableSizes == [h.numLit, h.numDist, h.numLengths]
    requires LengthsRead(q.sizes2, h.sizes2, q.pc.i)
    ensures Reaches(q, LengthsBits(h.sizes2, q.pc.i, h.numLengths) + rest, q', rest)
    ensures Ok(q') && q' == q.(pc := CodeLen, sizes2 := h.sizes2, lenCodes := [])
    decreases h.numLengths - q.pc.i
  {
    hide Buildable, Reaches, Enc, Pow2, CanUnpack, Unpack, ItemsUse, LengthsRead, Transmitted, Step, StepN;
    Pow2Values();
    var i, n := q.pc.i, h.numLengths;
    var v := h.sizes2[Transmitted(i)];
    var s1 := LengthsBits(h.sizes2, i + 1, n) + rest;
    var s := Enc(v, 3) + s1;
    assert LengthsBits(h.sizes2, i, n) + rest == s;
    var q1 := RunBits(q, v, s1);
    LengthsReadStep(q.sizes2, h.sizes2, i);
    if i + 1 < n {
      q' := RunLengths(q1, h, rest);
      ReachTrans(q, s, q1, s1, q', rest);
    } else {
      LengthsReadAll(q.sizes2[Transmitted(i) := v], h.sizes2, n);
      assert s1 == rest;
      q' := q1;
    }
  }

  lemma {:induction false} UnpackPrefix(xs: seq<Item>, k: nat)
    requires CanUnpack(xs) && k <= |xs|
    ensures CanUnpack(xs[..k]) && Unpack(xs[..k]) <= Unpack(xs)
    ensures k < |xs| ==> |Unpack(xs[..k])| < |Unpack(xs)|
  {
    if k == |xs| {
      assert xs[..k] == xs;
    } else {
      var ys := xs[..|xs| - 1];
      assert ys[..k] == xs[..k];
      UnpackPrefix(ys, k);
      UnpackExtends(Unpack(ys), xs[|xs| - 1]);
    }
  }

  lemma UnpackExtends(acc: seq<nat>, x: Item)
    requires CanUnpackOne(acc, x)
    ensures acc <= UnpackOne(acc, x)
  {
  }

  lemma UnpackNext(xs: seq<Item>, k: nat)
    requires CanUnpack(xs) && k < |xs|
    ensures CanUnpack(xs[..k]) && CanUnpackOne(Unpack(xs[..k]), xs[k])
    ensures CanUnpack(xs[..k + 1]) && Unpack(xs[..k + 1]) == UnpackOne(Unpack(xs[..k]), xs[k])
  {
    hide CanUnpackOne, UnpackOne;
    UnpackPrefix(xs, k + 1);
    assert xs[..k + 1][..k] == xs[..k];
  }

  lemma RunItem(q: Inflater, x: Item, rest: bits) returns (q': Inflater)
    requires Ok(q) && q.pc.CodeLen? && CanUnpackOne(q.lenCodes, x) && Uses(q.sizes2, x.sym)
    ensures Reaches(q, ItemBits(q.sizes2, x) + rest, q', rest)
    ensures Ok(q') && q' == CodeLengthsDone(q.(lenCodes := UnpackOne(q.lenCodes, x)))
  {
    hide Buildable, Reaches, Enc, Pow2, CodeWord, CodeLengthsDone, Step, StepN;
    var s1 := Enc(x.extra, ExtraBits(x.sym)) + rest;
    var s := CodeWord(q.sizes2, x.sym) + s1;
    assert ItemBits(q.sizes2, x) + rest == s;
    var q1 := RunSymbol(q, x.sym, s1);
    if x.sym < 16 {
      assert s1 == rest by { EncNone(x.extra); }
      q' := q1;
    } else {
      q' := RunBits(q1, x.extra, rest);
      ReachTrans(q, s, q1, s1, q', rest);
      DonePc(q.(lenCodes := UnpackOne(q.lenCodes, x)), q1.pc);
    }
  }

  lemma EncNone(v: nat)
    ensures Enc(v, 0) == []
  {
  }

  /** Where the machine goes next does not depend on where it was. */
  lemma DonePc(q: Inflater, pc: Pc)
    requires |q.tableSizes| == 3
    ensures CodeLengthsDone(q.(pc := pc)) == CodeLengthsDone(q)
  {
    hide Buildable;
  }

  lemma {:induction false} RunItems(q: Inflater, xs: seq<Item>, k: nat, rest: bits) returns (q': Inflater)
    requires Ok(q) && q.pc.CodeLen? && ItemsUse(q.sizes2, xs) && CanUnpack(xs) && k < |xs| && CanUnpack(xs[..k])
    requires q.lenCodes == Unpack(xs[..k]) && |Unpack(xs)| == q.tableSizes[0] + q.tableSizes[1]
    ensures Reaches(q, ItemsBits(q.sizes2, xs[k..]) + rest, q', rest)
    ensures Ok(q') && q' == CodeLengthsDone(q.(lenCodes := Unpack(xs)))
    decreases |xs| - k
  {
    hide Buildable, Reaches, ItemBits, CanUnpack, Unpack, UnpackOne, CanUnpackOne, Step, StepN, Want;
    UnpackNext(xs, k);
    var s1 := ItemsBits(q.sizes2, xs[k + 1..]) + rest;
    var s := ItemBits(q.sizes2, xs[k]) + s1;
    assert ItemsBits(q.sizes2, xs[k..]) + rest == s by {
      assert xs[k..][1..] == xs[k + 1..];
    }
    var q1 := RunItem(q, xs[k], s1);
    if k + 1 == |xs| {
      assert xs[..k + 1] == xs;
      assert s1 == rest;
      q' := q1;
    } else {
      UnpackPrefix(xs, k + 1);
      assert q1 == q.(lenCodes := Unpack(xs[..k + 1]));
      q' := RunItems(q1, xs, k + 1, rest);
      ReachTrans(q, s, q1, s1, q', rest);
    }
  }

  /** The header a dynamic block starts with sets up both codes, whatever follows it. */
  lemma RunHeader(q: Inflater, final: nat, h: Header, lit: seq<nat>, dist: seq<nat>, rest: bits) returns (q': Inflater)
    requires Ok(q) && q.pc.BlockHdr? && final < 2 && Describes(h, lit, dist)
    requires Buildable(lit[..h.numLit]) && Buildable(dist[..h.numDist])
    ensures Reaches(q, Enc(final, 1) + HeaderBits(h) + rest, q', rest)
    ensures Ok(q') && q'.pc.LitLen? && q'.sizes0 == lit[..h.numLit] && q'.sizes1 == dist[..h.numDist]
    ensures q'.out == q.out && q'.final == 4 + final && q'.zlib == q.zlib && q'.window == q.window
    ensures q'.zAdler == q.zAdler
  {
    hide Buildable, Reaches, ItemsBits, LengthsBits, Enc, CanUnpack, UnpackOne, CanUnpackOne, Step, StepN, Want,
      ItemsUse, StaticLit, StaticDist;
    var s2 := ItemsBits(h.sizes2, h.items) + rest;
    var s1 := LengthsBits(h.sizes2, 0, h.numLengths) + s2;
    var s := Enc(4 + final, 3) + (Enc(h.numLit - 257, 5) + (Enc(h.numDist - 1, 5) + (Enc(h.numLengths - 4, 4) + s1)));
    HeaderShape(h, final, rest);
    var q1 := RunSizes(q, final, h, s1);
    NothingRead(h.sizes2);
    var q2 := RunLengths(q1, h, s2);
    ReachTrans(q, s, q1, s1, q2, s2);
    assert h.items[0..] == h.items && h.items[..0] == [];
    UnpackPrefix(h.items, 0);
    q' := RunItems(q2, h.items, 0, rest);
    ReachTrans(q, s, q2, s2, q', rest);
    var codes := lit[..h.numLit] + dist[..h.numDist];
    assert codes[..h.numLit] == lit[..h.numLit] && codes[h.numLit..] == dist[..h.numDist];
  }

  lemma NothingRead(sizes2: seq<nat>)
    requires |sizes2| == 19
    ensures LengthsRead(Repeat(0, 19), sizes2, 0)
  {
  }

  lemma HeaderShape(h: Header, final: nat, rest: bits)
    requires WellFormed(h) && final < 2
    ensures Enc(final, 1) + HeaderBits(h) + rest
         == Enc(4 + final, 3) + (Enc(h.numLit - 257, 5) + (Enc(h.numDist - 1, 5) + (Enc(h.numLengths - 4, 4)
            + (LengthsBits(h.sizes2, 0, h.numLengths) + (ItemsBits(h.sizes2, h.items) + rest)))))
  {
    hide Buildable, Enc, LengthsBits, ItemsBits, CanUnpack, Unpack, Transmitted, HeaderBits, ItemsUse, Pow2;
    TypeBits(final);
    Assoc(Enc(final, 1), Enc(2, 2), Enc(h.numLit - 257, 5), Enc(h.numDist - 1, 5), Enc(h.numLengths - 4, 4),
          LengthsBits(h.sizes2, 0, h.numLengths), ItemsBits(h.sizes2, h.items), rest);
    HeaderIs(h);
  }

  lemma HeaderIs(h: Header)
    requires WellFormed(h)
    ensures HeaderBits(h) == Enc(2, 2) + (Enc(h.numLit - 257, 5) + (Enc(h.numDist - 1, 5) + (Enc(h.numLengths - 4, 4)
      + (LengthsBits(h.sizes2, 0, h.numLengths) + ItemsBits(h.sizes2, h.items)))))
  {
    hide Enc, LengthsBits, ItemsBits;
  }

  lemma Assoc(f: bits, t: bits, a: bits, b: bits, c: bits, d: bits, e: bits, r: bits)
    ensures f + (t + (a + (b + (c + (d + e))))) + r == (f + t) + (a + (b + (c + (d + (e + r)))))
  {
    Assoc3(f, t + (a + (b + (c + (d + e)))), r);
    Assoc3(t, a + (b + (c + (d + e))), r);
    Assoc3(a, b + (c + (d + e)), r);
    Assoc3(b, c + (d + e), r);
    Assoc3(c, d + e, r);
    Assoc3(d, e, r);
    Assoc3(f, t, a + (b + (c + (d + (e + r)))));
  }

  lemma Assoc3(a: bits, b: bits, c: bits)
    ensures (a + b) + c == a + (b + c)
  {
  }
}
