/** The goods for which the headings of the freight list (src/simutrans/freight_list_sorter.cc:155-339) come out right,
    whatever is on the list, are the suited ones, exactly: for others there are wares with a wrong total. */
module FreightExact {
  import opened Freight
  import opened FreightList
  import opened FreightHeadings

  // ---------- short lists ----------

  /** A packet on its way to halt `to`. */
  function Packet(good: nat, amount: nat, to: nat): Ware {
    Ware(good, amount, Halt(to), Halt(to), false, (0, 0))
  }

  lemma {:induction false} SortedStays(w: World, sortBy: Mode, xs: seq<Ware>)
    requires AllKnown(w, xs) && Sorted(w, sortBy, xs)
    ensures SortWares(w, sortBy, xs) == xs
  {
    hide CompareWare;
    if |xs| > 0 {
      var rest := xs[1..];
      assert xs == [xs[0]] + rest;
      SortedStays(w, sortBy, rest);
      if |rest| > 0 {
        assert !CompareWare(w, sortBy, rest[0], xs[0]);
      }
    }
  }

  lemma NotAfter(w: World, sortBy: Mode, x: Ware, y: Ware)
    requires KnownGood(w, x) && KnownGood(w, y) && GoodBefore(w.goods, x.index, y.index)
    ensures !CompareWare(w, sortBy, y, x)
  {
  }

  lemma BeforeTrans(goods: seq<Good>, a: nat, b: nat, c: nat)
    requires a < |goods| && b < |goods| && c < |goods| && GoodBefore(goods, a, b) && GoodBefore(goods, b, c)
    ensures GoodBefore(goods, a, c)
  {
  }

  /** The first heading that is printed. */
  lemma FirstHeading(w: World, list: seq<Ware>, lost: seq<nat>)
    requires AllKnown(w, list) && |list| > 0
    ensures var hs := Headings(Lines(w, list, lost, 0, -1, -1)); |hs| > 0 && hs[0] == NewHeading(w, list, lost, 0)
  {
    hide Lines, NewHeading, Headings;
    var l, d := NewHeading(w, list, lost, 0), DetailOf(list[0]);
    LinesNext(w, list, lost, 0, -1, -1);
    HeadingsConcat([l, d], Lines(w, list, lost, 1, list[0].index, CatgMark(w, list[0])));
    OneHeading(l, d);
  }

  lemma OneHeading(l: Line, d: Line)
    requires l.Heading? && d.Detail?
    ensures Headings([l, d]) == [l]
  {
    LinesSnoc([l], d);
    LinesSnoc([], l);
    assert [l] + [d] == [l, d] && [] + [l] == [l];
  }

  /** What the first heading of a list counts that begins with `x`, followed by `y`. */
  lemma FirstSum(w: World, list: seq<Ware>, lost: seq<nat>)
    requires AllKnown(w, list) && |list| >= 2 && list[0].index != list[1].index
    ensures var x, y := list[0], list[1];
      NewHeading(w, list, lost, 0).sum == Lost(lost, CatgIndex(w, x)) + x.amount
        + if CatgMark(w, x) == CatgOf(w, y) then RunSum(w, list, 1, x.index, CatgMark(w, x)) else 0
  {
    var i, c := list[0].index, CatgMark(w, list[0]);
    assert RunSum(w, list, 0, i, c) == list[0].amount + RunSum(w, list, 1, i, c);
  }

  lemma PutNew(w: World, mode: Mode, h: Halt, m: Merger, x: Ware)
    requires KnownGood(w, x) && AllKnown(w, m.list) && |m.lost| == 256 && Accepted(w, x)
    requires forall k :: 0 <= k < |m.list| ==> m.list[k].index != x.index
    ensures Put(w, mode, h, m, x) == Merger(m.list + [x], m.lost)
  {
  }

  function NoneLost(): (lost: seq<nat>)
    ensures |lost| == 256 && forall c :: 0 <= c < 256 ==> lost[c] == 0
  {
    seq(256, _ => 0)
  }

  lemma MergeOne(w: World, mode: Mode, h: Halt, x: Ware)
    requires KnownGood(w, x) && Accepted(w, x)
    ensures AllKnown(w, [x]) && Merge(w, mode, h, [x]) == Merger([x], NoneLost())
  {
    hide Put, Accepted;
    assert [x][..0] == [];
    PutNew(w, mode, h, Merger([], NoneLost()), x);
    assert [] + [x] == [x];
  }

  /** Packets of different goods stay apart. */
  lemma MergeTwo(w: World, mode: Mode, h: Halt, x: Ware, y: Ware)
    requires KnownGood(w, x) && KnownGood(w, y) && Accepted(w, x) && Accepted(w, y) && x.index != y.index
    ensures AllKnown(w, [x, y]) && Merge(w, mode, h, [x, y]) == Merger([x, y], NoneLost())
  {
    hide Put, Accepted;
    MergeOne(w, mode, h, x);
    assert [x, y][..1] == [x];
    PutNew(w, mode, h, Merger([x], NoneLost()), y);
    assert [x] + [y] == [x, y];
  }

  lemma MergeThree(w: World, mode: Mode, h: Halt, x: Ware, y: Ware, z: Ware)
    requires KnownGood(w, x) && KnownGood(w, y) && KnownGood(w, z)
    requires Accepted(w, x) && Accepted(w, y) && Accepted(w, z)
    requires x.index != y.index && x.index != z.index && y.index != z.index
    ensures AllKnown(w, [x, y, z]) && Merge(w, mode, h, [x, y, z]) == Merger([x, y, z], NoneLost())
  {
    hide Put, Accepted;
    MergeTwo(w, mode, h, x, y);
    assert [x, y, z][..2] == [x, y];
    PutNew(w, mode, h, Merger([x, y], NoneLost()), z);
    assert [x, y] + [z] == [x, y, z];
  }

  /** What overflows is kept by category index. */
  lemma MergeOver(w: World, mode: Mode, h: Halt, x: Ware, y: Ware, z: Ware)
    requires KnownGood(w, x) && KnownGood(w, y) && KnownGood(w, z)
    requires Accepted(w, x) && Accepted(w, y) && Accepted(w, z) && y.amount == LIMIT
    requires x.index != y.index && Joins(w, mode, h, y, z)
    ensures AllKnown(w, [x, y, z])
    ensures Merge(w, mode, h, [x, y, z]) == Merger([x, y], NoneLost()[CatgIndex(w, z) := z.amount])
  {
    hide Merge, Accepted, Put;
    MergeTwo(w, mode, h, x, y);
    assert [x, y, z][..2] == [x, y];
    assert [x, y, z][..3] == [x, y, z];
    MergeNext(w, mode, h, [x, y, z], 2);
    JoinsSame(w, mode, h, y, z);
    ApartFrom(w, mode, h, x, z);
    PutAt(w, Merger([x, y], NoneLost()), mode, h, z, 1);
    assert [x, y][1 := y.(amount := LIMIT)] == [x, y];
  }

  lemma ApartFrom(w: World, mode: Mode, h: Halt, y: Ware, x: Ware)
    requires KnownGood(w, x) && y.index != x.index
    ensures !Joins(w, mode, h, y, x)
  {
  }

  lemma TotalThree(w: World, x: Ware, y: Ware, z: Ware, g: Group)
    requires KnownGood(w, x) && KnownGood(w, y) && KnownGood(w, z)
    requires Accepted(w, x) && Accepted(w, y) && Accepted(w, z)
    ensures AllKnown(w, [x, y, z])
    ensures TotalAccepted(w, [x, y, z], g) == (if In(w, g, x) then x.amount else 0)
      + (if In(w, g, y) then y.amount else 0) + (if In(w, g, z) then z.amount else 0)
  {
    hide Accepted, In, KnownGood;
    var xs := [x, y, z];
    AcceptNext(w, xs, 0, g);
    AcceptNext(w, xs, 1, g);
    AcceptNext(w, xs, 2, g);
    assert xs[..3] == xs;
  }

  // ---------- another category between ----------

  lemma InBetween(w: World, mode: Mode, h: Halt, a: nat, m: nat, b: nat)
    requires a < |w.goods| && m < |w.goods| && b < |w.goods| && a != w.none && m != w.none && b != w.none
    requires w.goods[a].catgIndex < 256 && w.goods[m].catgIndex < 256 && w.goods[b].catgIndex < 256
    requires GoodBefore(w.goods, a, m) && GoodBefore(w.goods, m, b)
    requires SameCategory(w.goods, a, b) && !SameCategory(w.goods, a, m)
    ensures var xs := [Packet(a, 1, 0), Packet(m, 1, 0), Packet(b, 1, 0)];
      AllKnown(w, xs) && SmallAmounts(xs) && !RightHeadings(w, xs, Headings(FreightLines(w, xs, mode, h)))
  {
    hide CompareWare, Lines, Headings, Merge, SortWares, NewHeading, TotalAccepted;
    var x, y, z := Packet(a, 1, 0), Packet(m, 1, 0), Packet(b, 1, 0);
    var list := [x, y, z];
    BeforeTrans(w.goods, a, m, b);
    MergeThree(w, MergeMode(mode, h), h, x, y, z);
    NotAfter(w, mode, x, y);
    NotAfter(w, mode, y, z);
    NotAfter(w, mode, x, z);
    SortedStays(w, mode, list);
    FirstHeading(w, list, NoneLost());
    FirstSum(w, list, NoneLost());
    TotalThree(w, x, y, z, OfCategory(a));
  }

  // ---------- an overflow under the wrong index ----------

  lemma Overflow(w: World, mode: Mode, h: Halt, a: nat, b: nat, p: nat, o: nat)
    requires a < |w.goods| && b < |w.goods| && a != w.none && b != w.none
    requires w.goods[a].catgIndex < 256 && w.goods[b].catgIndex < 256 && GoodBefore(w.goods, a, b)
    requires (w.goods[a].catgIndex == w.goods[b].catgIndex) != SameCategory(w.goods, a, b)
    requires Joins(w, MergeMode(mode, h), h, Packet(b, LIMIT, p), Packet(b, 5, o))
    ensures var xs := [Packet(a, 1, 0), Packet(b, LIMIT, p), Packet(b, 5, o)];
      AllKnown(w, xs) && SmallAmounts(xs) && !RightHeadings(w, xs, Headings(FreightLines(w, xs, mode, h)))
  {
    hide CompareWare, Lines, Headings, Merge, SortWares, NewHeading, TotalAccepted, Joins;
    var x, y, z := Packet(a, 1, 0), Packet(b, LIMIT, p), Packet(b, 5, o);
    var list, lost := [x, y], NoneLost()[w.goods[b].catgIndex := 5];
    MergeOver(w, MergeMode(mode, h), h, x, y, z);
    NotAfter(w, mode, x, y);
    SortedStays(w, mode, list);
    FirstHeading(w, list, lost);
    FirstSum(w, list, lost);
    TotalThree(w, x, y, z, OfCategory(a));
  }

  /** Where packets can be merged, there are two of any good. */
  lemma SomeJoin(w: World, mode: Mode, h: Halt, b: nat) returns (p: nat, o: nat)
    requires CanMerge(w, mode) && b < |w.goods| && w.goods[b].catgIndex < 256
    ensures Joins(w, mode, h, Packet(b, LIMIT, p), Packet(b, 5, o))
  {
    p, o := 0, 0;
    if mode == ByViaOwner {
      p, o :| w.permissions(p) * (w.owners(o) - {PUBLIC}) != {};
    }
  }

  lemma Unsuited(w: World, mode: Mode, h: Halt) returns (xs: seq<Ware>)
    requires !Suited(w, mode, h) && IndicesFit(w)
    ensures AllKnown(w, xs) && SmallAmounts(xs) && !RightHeadings(w, xs, Headings(FreightLines(w, xs, mode, h)))
  {
    hide RightHeadings, SameCategory, FreightLines, Joins, CanMerge, Headings, GoodBefore, SmallAmounts, KnownGood;
    var goods, none := w.goods, w.none;
    if CanMerge(w, MergeMode(mode, h)) {
      var a: nat, b: nat :| Listable(goods, none, a) && Listable(goods, none, b)
        && (goods[a].catgIndex == goods[b].catgIndex) != SameCategory(goods, a, b);
      if !GoodBefore(goods, a, b) {
        SwapGoods(goods, a, b);
        a, b := b, a;
      }
      var p, o := SomeJoin(w, MergeMode(mode, h), h, b);
      xs := [Packet(a, 1, 0), Packet(b, LIMIT, p), Packet(b, 5, o)];
      Overflow(w, mode, h, a, b, p, o);
    } else {
      var a: nat, m: nat, b: nat :| Listable(goods, none, a) && Listable(goods, none, m) && Listable(goods, none, b)
        && GoodBefore(goods, a, m) && GoodBefore(goods, m, b)
        && SameCategory(goods, a, b) && !SameCategory(goods, a, m);
      xs := [Packet(a, 1, 0), Packet(m, 1, 0), Packet(b, 1, 0)];
      InBetween(w, mode, h, a, m, b);
    }
  }

  lemma SwapGoods(goods: seq<Good>, a: nat, b: nat)
    requires a < |goods| && b < |goods| && !GoodBefore(goods, a, b)
    ensures SameCategory(goods, a, b) == SameCategory(goods, b, a)
    ensures (goods[a].catgIndex == goods[b].catgIndex) != SameCategory(goods, a, b) ==> GoodBefore(goods, b, a)
  {
  }

  // ---------- the exact condition ----------

  /** The lost amounts have room for every listed good's index. */
  predicate IndicesFit(w: World) {
    forall g :: 0 <= g < |w.goods| && Listable(w.goods, w.none, g) ==> w.goods[g].catgIndex < 256
  }

  /** Whatever wares are given, each category has one heading, with its whole total. */
  ghost predicate AlwaysRight(w: World, mode: Mode, h: Halt) {
    forall xs :: AllKnown(w, xs) && SmallAmounts(xs) ==>
      RightHeadings(w, xs, Headings(FreightLines(w, xs, mode, h)))
  }

  /** For each mode, the goods for which that holds. */
  lemma HeadingsExactly(w: World, mode: Mode, h: Halt)
    requires IndicesFit(w)
    ensures AlwaysRight(w, mode, h) <==> Suited(w, mode, h)
  {
    hide RightHeadings, FreightLines, Headings, SmallAmounts, Suited, IndicesFit;
    if Suited(w, mode, h) {
      forall xs | AllKnown(w, xs) && SmallAmounts(xs)
        ensures RightHeadings(w, xs, Headings(FreightLines(w, xs, mode, h)))
      {
        FreightLinesRight(w, xs, mode, h);
      }
    } else {
      var xs := Unsuited(w, mode, h);
    }
  }

  /** In every mode they are right exactly when categories have indices of their own. */
  lemma EveryMode(w: World)
    requires IndicesFit(w)
    ensures (forall mode, h :: AlwaysRight(w, mode, h)) <==> Categorised(w.goods, w.none)
  {
    hide AlwaysRight, Categorised, Contiguous, IndicesFit;
    HeadingsExactly(w, ByViaSum, Unbound);
    forall mode, h | Categorised(w.goods, w.none)
      ensures AlwaysRight(w, mode, h)
    {
      CategorisedContiguous(w.goods, w.none);
      HeadingsExactly(w, mode, h);
    }
  }
}
