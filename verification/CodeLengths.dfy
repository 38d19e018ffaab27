/** Run-length coding of code lengths (RFC 1951, section 3.2.7): the loop of
    `tdefl_start_dynamic_block` (src/external/miniz.h:2808-2848, 2874-2908) and what the
    decompressor's unpacking makes of it. */
module CodeLengths {
  import opened Bits
  import opened MergeQueues
  import opened MinRedundancy
  import LzCodes
  import opened Inflate

  /** One symbol of the code length code with its extra value. */
  datatype Item = Item(sym: nat, extra: nat)

  function ExtraBits(sym: nat): nat
    requires sym <= 18
  {
    if sym == 16 then 2 else if sym == 17 then 3 else if sym == 18 then 7 else 0
  }

  predicate ValidItem(x: Item) {
    x.sym <= 18 && x.extra < Pow2(ExtraBits(x.sym))
  }

  predicate ValidItems(xs: seq<Item>) {
    forall i :: 0 <= i < |xs| ==> ValidItem(xs[i])
  }

  predicate CanUnpackOne(acc: seq<nat>, x: Item) {
    ValidItem(x) && (x.sym == 16 ==> |acc| > 0)
  }

  /** The decompressor's step: a length, a repetition of the last one, or zeros. */
  function UnpackOne(acc: seq<nat>, x: Item): (r: seq<nat>)
    requires CanUnpackOne(acc, x)
    ensures |r| > |acc|
  {
    if x.sym < 16 then acc + [x.sym]
    else if x.sym == 16 then acc + Repeat(acc[|acc| - 1], x.extra + 3)
    else acc + Repeat(0, x.extra + (if x.sym == 17 then 3 else 11))
  }

  predicate CanUnpack(xs: seq<Item>)
    decreases |xs|, 0
  {
    |xs| == 0 || (CanUnpack(xs[..|xs| - 1]) && CanUnpackOne(Unpack(xs[..|xs| - 1]), xs[|xs| - 1]))
  }

  function Unpack(xs: seq<Item>): seq<nat>
    requires CanUnpack(xs)
    decreases |xs|, 1
  {
    if |xs| == 0 then [] else UnpackOne(Unpack(xs[..|xs| - 1]), xs[|xs| - 1])
  }

  lemma UnpackSnoc(xs: seq<Item>, x: Item)
    requires CanUnpack(xs) && CanUnpackOne(Unpack(xs), x)
    ensures CanUnpack(xs + [x]) && Unpack(xs + [x]) == UnpackOne(Unpack(xs), x)
  {
    assert (xs + [x])[..|xs|] == xs;
  }

  /** The bytes of `packed_code_sizes`: a symbol, and its extra value when it has one. */
  function ItemBytes(x: Item): seq<byte>
    requires ValidItem(x)
  {
    Pow2Values();
    if x.sym < 16 then [x.sym] else [x.sym, x.extra]
  }

  function ItemsBytes(xs: seq<Item>): seq<byte>
    requires ValidItems(xs)
  {
    if |xs| == 0 then [] else ItemsBytes(xs[..|xs| - 1]) + ItemBytes(xs[|xs| - 1])
  }

  lemma ItemsBytesSnoc(xs: seq<Item>, x: Item)
    requires ValidItems(xs) && ValidItem(x)
    ensures ItemsBytes(xs + [x]) == ItemsBytes(xs) + ItemBytes(x)
  {
    assert (xs + [x])[..|xs|] == xs;
  }

  /** Every symbol used has been counted, and nothing else. */
  ghost predicate ItemsCounted(count: seq<nat>, xs: seq<Item>)
    requires ValidItems(xs)
  {
    && |count| == 19 && Sum(count) == |xs|
    && forall i :: 0 <= i < |xs| ==> count[xs[i].sym] > 0
  }

  lemma ItemsCountedSnoc(count: seq<nat>, xs: seq<Item>, x: Item)
    requires ValidItems(xs) && ValidItem(x) && ItemsCounted(count, xs)
    ensures ItemsCounted(LzCodes.Bump(count, x.sym), xs + [x])
  {
    LzCodes.SumUpdate(count, x.sym, count[x.sym] + 1);
  }

  lemma {:induction false} RepeatStep(v: nat, n: nat)
    ensures Repeat(v, n + 1) == Repeat(v, n) + [v]
  {
  }

  /** The local variables of the packing loop. */
  class Packer {
    var packed: seq<byte>
    var count: seq<nat>
    var repeatCount: nat
    var zCount: nat
    var prev: nat

    ghost var items: seq<Item>

    /** The sizes read so far: those packed, then the run being counted. */
    ghost function Seen(): seq<nat>
      requires CanUnpack(items)
      reads this
    {
      Unpack(items) + Repeat(prev, repeatCount) + Repeat(0, zCount)
    }

    ghost predicate Packed()
      reads this
    {
      && ValidItems(items) && CanUnpack(items) && packed == ItemsBytes(items) && ItemsCounted(count, items)
      && |packed| <= |Unpack(items)| && |items| <= |packed|
    }

    ghost predicate Valid()
      reads this
    {
      && Packed()
      && repeatCount < 6 && zCount < 138 && (repeatCount == 0 || zCount == 0)
      && (prev == 0xFF || prev <= 15)
      && (0 < prev <= 15 ==> zCount == 0 && |Unpack(items)| > 0 && Unpack(items)[|Unpack(items)| - 1] == prev)
      && (prev == 0 || prev == 0xFF ==> repeatCount == 0)
      && (prev == 0xFF ==> zCount == 0 && items == [])
    }

    constructor ()
      ensures Valid() && Seen() == [] && prev == 0xFF
    {
      packed, count, repeatCount, zCount, prev := [], seq(19, _ => 0), 0, 0, 0xFF;
      items := [];
      new;
      LzCodes.ZeroCounts(count);
    }

    /** Append one symbol, and its extra value from 16 on. */
    method Put(x: Item)
      requires Packed() && ValidItem(x) && CanUnpackOne(Unpack(items), x)
      modifies this`packed, this`count, this`items
      ensures Packed() && items == old(items) + [x] && Unpack(items) == UnpackOne(old(Unpack(items)), x)
    {
      Pow2Values();
      UnpackSnoc(items, x);
      ItemsBytesSnoc(items, x);
      ItemsCountedSnoc(count, items, x);
      count := LzCodes.Bump(count, x.sym);
      packed := packed + ItemBytes(x);
      items := items + [x];
    }

    /** `TDEFL_RLE_PREV_CODE_SIZE` */
    method RlePrev()
      requires Packed() && repeatCount <= 6
      requires repeatCount > 0 ==> 0 < prev <= 15 && |Unpack(items)| > 0 && Unpack(items)[|Unpack(items)| - 1] == prev
      modifies this`packed, this`count, this`items, this`repeatCount
      ensures Packed() && repeatCount == 0
      ensures Unpack(items) == old(Unpack(items)) + Repeat(prev, old(repeatCount))
      ensures old(repeatCount) == 0 ==> items == old(items)
    {
      hide ItemsCounted, ItemsBytes, UnpackOne;
      Pow2Values();
      if repeatCount > 0 {
        if repeatCount < 3 {
          ghost var acc, n := Unpack(items), repeatCount;
          while repeatCount > 0
            invariant Packed() && repeatCount <= n
            invariant Unpack(items) == acc + Repeat(prev, n - repeatCount)
          {
            ghost var before := Unpack(items);
            UnpackLiteral(before, prev);
            Put(Item(prev, 0));
            RepeatStep(prev, n - repeatCount);
            repeatCount := repeatCount - 1;
          }
        } else {
          UnpackRepeat(Unpack(items), repeatCount - 3);
          Put(Item(16, repeatCount - 3));
        }
        repeatCount := 0;
      }
    }

    /** `TDEFL_RLE_ZERO_CODE_SIZE` */
    method RleZero()
      requires Packed() && zCount <= 138
      modifies this`packed, this`count, this`items, this`zCount
      ensures Packed() && zCount == 0
      ensures Unpack(items) == old(Unpack(items)) + Repeat(0, old(zCount))
      ensures old(zCount) == 0 ==> items == old(items)
    {
      hide ItemsCounted, ItemsBytes, UnpackOne;
      Pow2Values();
      if zCount > 0 {
        if zCount < 3 {
          ghost var acc, n := Unpack(items), zCount;
          while zCount > 0
            invariant Packed() && zCount <= n
            invariant Unpack(items) == acc + Repeat(0, n - zCount)
          {
            ghost var before := Unpack(items);
            UnpackLiteral(before, 0);
            Put(Item(0, 0));
            RepeatStep(0, n - zCount);
            zCount := zCount - 1;
          }
        } else if zCount <= 10 {
          UnpackZeros(Unpack(items), zCount - 3, 17);
          Put(Item(17, zCount - 3));
        } else {
          UnpackZeros(Unpack(items), zCount - 11, 18);
          Put(Item(18, zCount - 11));
        }
        zCount := 0;
      }
    }

    /** The body of the loop over the code sizes. */
    method Next(codeSize: nat)
      requires Valid() && codeSize <= 15
      modifies this
      ensures Valid() && prev == codeSize && Seen() == old(Seen()) + [codeSize]
    {
      hide ItemsCounted, ItemsBytes, UnpackOne, Unpack, CanUnpack, ValidItems;
      if codeSize == 0 {
        RlePrev();
        RepeatStep(0, zCount);
        zCount := zCount + 1;
        if zCount == 138 {
          RleZero();
        }
      } else {
        RleZero();
        if codeSize != prev {
          RlePrev();
          UnpackLiteral(Unpack(items), codeSize);
          Put(Item(codeSize, 0));
        } else {
          RepeatStep(prev, repeatCount);
          repeatCount := repeatCount + 1;
          if repeatCount == 6 {
            RlePrev();
          }
        }
      }
      prev := codeSize;
    }

    /** After the loop. */
    method Finish()
      requires Valid()
      modifies this
      ensures Packed() && Unpack(items) == old(Seen())
    {
      hide ItemsCounted, ItemsBytes, UnpackOne, Unpack, CanUnpack, ValidItems;
      if repeatCount > 0 {
        RlePrev();
      } else {
        RleZero();
      }
    }
  }

  lemma UnpackLiteral(acc: seq<nat>, v: nat)
    requires v <= 15
    ensures CanUnpackOne(acc, Item(v, 0)) && UnpackOne(acc, Item(v, 0)) == acc + [v]
  {
  }

  lemma UnpackRepeat(acc: seq<nat>, e: nat)
    requires |acc| > 0 && e < 4
    ensures CanUnpackOne(acc, Item(16, e)) && UnpackOne(acc, Item(16, e)) == acc + Repeat(acc[|acc| - 1], e + 3)
  {
    Pow2Values();
  }

  lemma UnpackZeros(acc: seq<nat>, e: nat, sym: nat)
    requires (sym == 17 && e < 8) || (sym == 18 && e < 128)
    ensures CanUnpackOne(acc, Item(sym, e))
    ensures UnpackOne(acc, Item(sym, e)) == acc + Repeat(0, e + (if sym == 17 then 3 else 11))
  {
    Pow2Values();
  }

  /** Packing, and what unpacking gives back: the same sizes, from no more bytes than there are sizes. */
  method PackCodeSizes(sizes: seq<nat>) returns (packed: seq<byte>, count: seq<nat>, ghost items: seq<Item>)
    requires forall i :: 0 <= i < |sizes| ==> sizes[i] <= 15
    ensures ValidItems(items) && packed == ItemsBytes(items) && ItemsCounted(count, items)
    ensures CanUnpack(items) && Unpack(items) == sizes
    ensures |packed| <= |sizes| && |items| <= |sizes|
  {
    hide ItemsCounted, ItemsBytes, UnpackOne, Unpack, CanUnpack, ValidItems;
    var p := new Packer();
    var i := 0;
    while i < |sizes|
      invariant 0 <= i <= |sizes| && p.Valid() && fresh(p) && p.Seen() == sizes[..i]
    {
      p.Next(sizes[i]);
      i := i + 1;
    }
    p.Finish();
    packed, count, items := p.packed, p.count, p.items;
  }
}
