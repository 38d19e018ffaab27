/** The headings of the freight list (src/simutrans/freight_list_sorter.cc:127-339): each category, or special good, is
    to have one heading with its full total.  For which goods that is so is shown here, for each mode. */
module FreightHeadings {
  import opened Freight
  import opened FreightList

  // ---------- what is wanted, and when it can be had ----------

  /** One of the headings stands for the category of good `g`. */
  ghost predicate Headed(w: World, hs: seq<Line>, g: nat)
    requires g < |w.goods|
  {
    exists i :: 0 <= i < |hs| && hs[i].Heading? && hs[i].good < |w.goods| && SameCategory(w.goods, hs[i].good, g)
  }

  /** Every accepted ware has a heading for its category, no category has two, and each shows the whole total. */
  ghost predicate RightHeadings(w: World, xs: seq<Ware>, hs: seq<Line>)
    requires AllKnown(w, xs)
  {
    && (forall i :: 0 <= i < |hs| ==> hs[i].Heading? && hs[i].good < |w.goods|)
    && (forall i :: 0 <= i < |hs| ==> hs[i].sum == TotalAccepted(w, xs, OfCategory(hs[i].good)) > 0)
    && (forall i, j :: 0 <= i < j < |hs| ==> !SameCategory(w.goods, hs[i].good, hs[j].good))
    && (forall k :: 0 <= k < |xs| && Accepted(w, xs[k]) ==> Headed(w, hs, xs[k].index))
  }

  /** The order of goods in the list. */
  predicate GoodBefore(goods: seq<Good>, a: nat, b: nat)
    requires a < |goods| && b < |goods|
  {
    goods[a].catgIndex < goods[b].catgIndex || (goods[a].catgIndex == goods[b].catgIndex && a < b)
  }

  /** In that order no other category comes between two goods of one. */
  ghost predicate Contiguous(goods: seq<Good>, none: nat) {
    forall a, m, b :: Listable(goods, none, a) && Listable(goods, none, m) && Listable(goods, none, b) ==>
      (GoodBefore(goods, a, m) && GoodBefore(goods, m, b) && SameCategory(goods, a, b) ==> SameCategory(goods, a, m))
  }

  /** The mode by which packets are merged. */
  function MergeMode(mode: Mode, h: Halt): Mode {
    if h.Unbound? && mode == ByConnection then ByAmount else mode
  }

  /** The goods for which the headings come out right. */
  ghost predicate Suited(w: World, mode: Mode, h: Halt) {
    if CanMerge(w, MergeMode(mode, h)) then Categorised(w.goods, w.none) else Contiguous(w.goods, w.none)
  }

  /** What `sort_freight` prints. */
  ghost function FreightLines(w: World, xs: seq<Ware>, mode: Mode, h: Halt): seq<Line>
    requires AllKnown(w, xs)
  {
    var m := Merge(w, MergeMode(mode, h), h, xs);
    Lines(w, SortWares(w, mode, m.list), m.lost, 0, -1, -1)
  }

  lemma CategoryTrans(goods: seq<Good>, a: nat, b: nat, c: nat)
    requires a < |goods| && b < |goods| && c < |goods| && SameCategory(goods, a, b)
    ensures SameCategory(goods, b, a) && (SameCategory(goods, b, c) <==> SameCategory(goods, a, c))
  {
  }

  /** Goods with indices of their own are never apart. */
  lemma CategorisedContiguous(goods: seq<Good>, none: nat)
    requires Categorised(goods, none)
    ensures Contiguous(goods, none)
  {
    hide SameCategory;
  }

  // ---------- a sorted list ----------

  ghost predicate AllListed(w: World, list: seq<Ware>) {
    AllKnown(w, list) && forall i :: 0 <= i < |list| ==> Listed(w, list[i])
  }

  predicate Alike(w: World, x: Ware, y: Ware)
    requires KnownGood(w, x) && KnownGood(w, y)
  {
    SameCategory(w.goods, x.index, y.index)
  }

  lemma SortedByGood(w: World, sortBy: Mode, xs: seq<Ware>, i: nat, j: nat)
    requires AllKnown(w, xs) && Sorted(w, sortBy, xs) && i < j < |xs|
    ensures xs[i].index == xs[j].index || GoodBefore(w.goods, xs[i].index, xs[j].index)
  {
    assert !CompareWare(w, sortBy, xs[j], xs[i]);
  }

  /** What is between two packets of a category belongs to it. */
  lemma Between(w: World, sortBy: Mode, list: seq<Ware>, i: nat, m: nat, j: nat)
    requires AllListed(w, list) && Sorted(w, sortBy, list) && Contiguous(w.goods, w.none) && i <= m <= j < |list|
    requires Alike(w, list[i], list[j])
    ensures Alike(w, list[i], list[m]) && Alike(w, list[m], list[j])
  {
    hide CompareWare, Sorted, GoodBefore;
    if i < m < j {
      SortedByGood(w, sortBy, list, i, m);
      SortedByGood(w, sortBy, list, m, j);
      assert Listed(w, list[i]) && Listed(w, list[m]) && Listed(w, list[j]);
    }
    CategoryTrans(w.goods, list[i].index, list[m].index, list[j].index);
  }

  /** The end of the run of the category of `list[j]`. */
  function RunEnd(w: World, list: seq<Ware>, j: nat, x: Ware): (i: nat)
    requires AllKnown(w, list) && KnownGood(w, x) && j <= |list|
    ensures j <= i <= |list| && (forall k :: j <= k < i ==> Alike(w, x, list[k]))
    ensures i < |list| ==> !Alike(w, x, list[i])
    decreases |list| - j
  {
    if j < |list| && Alike(w, x, list[j]) then RunEnd(w, list, j + 1, x) else j
  }

  lemma InCategory(w: World, x: Ware, y: Ware)
    requires KnownGood(w, x) && KnownGood(w, y)
    ensures In(w, OfCategory(x.index), y) <==> Alike(w, x, y)
  {
  }

  lemma EmptyTotal(w: World, xs: seq<Ware>, g: Group)
    requires |xs| == 0
    ensures AllKnown(w, xs) && Total(w, xs, g) == 0
  {
  }

  lemma TotalFront(w: World, x: Ware, xs: seq<Ware>, g: Group)
    requires KnownGood(w, x) && AllKnown(w, xs)
    ensures AllKnown(w, [x] + xs)
    ensures Total(w, [x] + xs, g) == (if In(w, g, x) then x.amount else 0) + Total(w, xs, g)
  {
    hide KnownGood, Total, In;
    TotalConcat(w, [x], xs, g);
    EmptyTotal(w, [], g);
    TotalSnoc(w, [], x, g);
    assert [] + [x] == [x];
  }

  /** The sum over a run of one category is its total when all of it is there. */
  lemma RunTotal(w: World, sortBy: Mode, list: seq<Ware>, j: nat, i: nat)
    requires AllListed(w, list) && Sorted(w, sortBy, list) && Contiguous(w.goods, w.none) && j < i <= |list|
    requires j > 0 ==> !Alike(w, list[j - 1], list[j])
    requires forall k :: j <= k < i ==> Alike(w, list[j], list[k])
    requires i < |list| ==> !Alike(w, list[j], list[i])
    ensures Total(w, list[j..i], OfCategory(list[j].index)) == Total(w, list, OfCategory(list[j].index))
  {
    hide Total, KnownGood, CompareWare, Sorted, Contiguous, Alike, In;
    var g := OfCategory(list[j].index);
    forall k | 0 <= k < j
      ensures !In(w, g, list[k])
    {
      InCategory(w, list[j], list[k]);
      AlikeSymmetric(w, list[j], list[k]);
      if Alike(w, list[k], list[j]) {
        Between(w, sortBy, list, k, j - 1, j);
      }
    }
    forall k | i <= k < |list|
      ensures !In(w, g, list[k])
    {
      InCategory(w, list[j], list[k]);
      if Alike(w, list[j], list[k]) {
        Between(w, sortBy, list, j, i, k);
      }
    }
    TotalMiddle(w, list, j, i, g);
  }

  lemma TotalMiddle(w: World, list: seq<Ware>, j: nat, i: nat, g: Group)
    requires AllKnown(w, list) && j <= i <= |list|
    requires forall k :: 0 <= k < j || i <= k < |list| ==> !In(w, g, list[k])
    ensures Total(w, list[j..i], g) == Total(w, list, g)
  {
    hide Total, KnownGood, In;
    var before, run, after := list[..j], list[j..i], list[i..];
    TotalNone(w, before, g);
    TotalNone(w, after, g);
    assert list == before + run + after;
    TotalConcat(w, before, run, g);
    TotalConcat(w, before + run, after, g);
  }

  lemma AlikeSymmetric(w: World, x: Ware, y: Ware)
    requires KnownGood(w, x) && KnownGood(w, y)
    ensures Alike(w, x, y) <==> Alike(w, y, x)
  {
  }

  /** The inner loop adds exactly the run. */
  lemma {:induction false} RunIsTotal(w: World, list: seq<Ware>, i: nat, end: nat, lastIndex: int, lastCatg: int,
                                      g: Group)
    requires AllKnown(w, list) && i <= end <= |list|
    requires forall k :: i <= k < end ==>
      In(w, g, list[k]) && (lastIndex == list[k].index || lastCatg == CatgOf(w, list[k]))
    requires end < |list| ==> lastIndex != list[end].index && lastCatg != CatgOf(w, list[end])
    ensures RunSum(w, list, i, lastIndex, lastCatg) == Total(w, list[i..end], g)
    decreases end - i
  {
    hide KnownGood, Total, In;
    if i < end {
      RunIsTotal(w, list, i + 1, end, lastIndex, lastCatg, g);
      assert list[i..end] == [list[i]] + list[i + 1..end];
      TotalFront(w, list[i], list[i + 1..end], g);
    } else {
      EmptyTotal(w, list[i..end], g);
    }
  }

  /** The two numbers by which the category of `x` is remembered. */
  ghost predicate Remembers(w: World, x: Ware, lastIndex: int, lastCatg: int)
    requires KnownGood(w, x)
  {
    exists f: nat :: f < |w.goods| && lastIndex == f && SameCategory(w.goods, f, x.index)
      && lastCatg == (if w.goods[f].catg != 0 then w.goods[f].catg else -1)
  }

  lemma SameGroup(w: World, x: Ware, y: Ware, lastIndex: int, lastCatg: int)
    requires KnownGood(w, x) && KnownGood(w, y) && Remembers(w, x, lastIndex, lastCatg)
    ensures Alike(w, x, y) <==> (lastIndex == y.index || lastCatg == CatgOf(w, y))
  {
  }

  lemma NewlyRemembered(w: World, x: Ware)
    requires KnownGood(w, x)
    ensures Remembers(w, x, x.index, CatgMark(w, x))
  {
    assert SameCategory(w.goods, x.index, x.index);
  }

  lemma StillRemembered(w: World, x: Ware, y: Ware, lastIndex: int, lastCatg: int)
    requires KnownGood(w, x) && KnownGood(w, y) && Remembers(w, x, lastIndex, lastCatg) && Alike(w, x, y)
    ensures Remembers(w, y, lastIndex, lastCatg)
  {
    var f: nat :| f < |w.goods| && lastIndex == f && SameCategory(w.goods, f, x.index)
      && lastCatg == (if w.goods[f].catg != 0 then w.goods[f].catg else -1);
    CategoryTrans(w.goods, f, x.index, y.index);
  }

  /** In a sorted list, a run of the inner loop is the whole category. */
  lemma RunIsCategory(w: World, sortBy: Mode, list: seq<Ware>, j: nat, lastIndex: int, lastCatg: int)
    requires AllListed(w, list) && Sorted(w, sortBy, list) && Contiguous(w.goods, w.none) && j < |list|
    requires j > 0 ==> !Alike(w, list[j - 1], list[j])
    requires Remembers(w, list[j], lastIndex, lastCatg)
    ensures RunSum(w, list, j, lastIndex, lastCatg) == Total(w, list, OfCategory(list[j].index))
  {
    hide Total, CompareWare, Sorted, KnownGood, Contiguous, Remembers, In, Alike;
    var end := RunEnd(w, list, j, list[j]);
    forall k | j <= k < |list|
      ensures Alike(w, list[j], list[k]) <==> (lastIndex == list[k].index || lastCatg == CatgOf(w, list[k]))
      ensures In(w, OfCategory(list[j].index), list[k]) <==> Alike(w, list[j], list[k])
    {
      SameGroup(w, list[j], list[k], lastIndex, lastCatg);
      InCategory(w, list[j], list[k]);
    }
    assert Alike(w, list[j], list[j]) by { AlikeSelf(w, list[j]); }
    RunIsTotal(w, list, j, end, lastIndex, lastCatg, OfCategory(list[j].index));
    RunTotal(w, sortBy, list, j, end);
  }

  lemma AlikeSelf(w: World, x: Ware)
    requires KnownGood(w, x)
    ensures Alike(w, x, x)
  {
  }

  // ---------- one heading for each category ----------

  /** A heading with the total of its category. */
  ghost predicate WholeTotal(w: World, list: seq<Ware>, lost: seq<nat>, l: Line)
    requires AllKnown(w, list)
  {
    && l.Heading? && l.good < |w.goods|
    && l.sum == Lost(lost, w.goods[l.good].catgIndex) + Total(w, list, OfCategory(l.good))
  }

  ghost predicate Totals(w: World, list: seq<Ware>, lost: seq<nat>, hs: seq<Line>)
    requires AllKnown(w, list)
  {
    forall i :: 0 <= i < |hs| ==> WholeTotal(w, list, lost, hs[i])
  }

  ghost predicate Distinct(w: World, hs: seq<Line>)
    requires forall i :: 0 <= i < |hs| ==> hs[i].Heading? && hs[i].good < |w.goods|
  {
    forall i, j :: 0 <= i < j < |hs| ==> !SameCategory(w.goods, hs[i].good, hs[j].good)
  }

  ghost predicate Present(list: seq<Ware>, n: nat, l: Line)
    requires n <= |list|
  {
    l.Heading? && exists k :: 0 <= k < n && l.good == list[k].index
  }

  ghost predicate AllHeaded(w: World, list: seq<Ware>, n: nat, hs: seq<Line>)
    requires AllKnown(w, list) && n <= |list|
  {
    forall k :: 0 <= k < n ==> Headed(w, hs, list[k].index)
  }

  /** The headings are those of the first `n` packets' categories, once each, each with its whole total. */
  ghost predicate Complete(w: World, list: seq<Ware>, lost: seq<nat>, n: nat, hs: seq<Line>)
    requires AllKnown(w, list) && n <= |list|
  {
    && Totals(w, list, lost, hs) && Distinct(w, hs) && AllHeaded(w, list, n, hs)
    && (forall i :: 0 <= i < |hs| ==> Present(list, n, hs[i]))
  }

  lemma HeadedSame(w: World, hs: seq<Line>, a: nat, b: nat)
    requires a < |w.goods| && b < |w.goods| && SameCategory(w.goods, a, b) && Headed(w, hs, a)
    ensures Headed(w, hs, b)
  {
    hide SameCategory;
    var i :| 0 <= i < |hs| && hs[i].Heading? && hs[i].good < |w.goods| && SameCategory(w.goods, hs[i].good, a);
    CategoryTrans(w.goods, hs[i].good, a, b);
    CategoryTrans(w.goods, a, hs[i].good, b);
  }

  lemma HeadedLonger(w: World, hs: seq<Line>, l: Line, g: nat)
    requires g < |w.goods| && (Headed(w, hs, g) || (l.Heading? && l.good == g))
    ensures Headed(w, hs + [l], g)
  {
    if Headed(w, hs, g) {
      var i :| 0 <= i < |hs| && hs[i].Heading? && hs[i].good < |w.goods| && SameCategory(w.goods, hs[i].good, g);
      assert (hs + [l])[i] == hs[i];
    } else {
      assert (hs + [l])[|hs|] == l;
    }
  }

  lemma CompleteSame(w: World, list: seq<Ware>, lost: seq<nat>, n: nat, hs: seq<Line>)
    requires AllKnown(w, list) && n < |list| && Complete(w, list, lost, n, hs)
    requires n > 0 && Alike(w, list[n - 1], list[n])
    ensures Complete(w, list, lost, n + 1, hs)
  {
    hide Totals, Distinct, Headed, SameCategory;
    assert Headed(w, hs, list[n - 1].index);
    HeadedSame(w, hs, list[n - 1].index, list[n].index);
    forall i | 0 <= i < |hs|
      ensures Present(list, n + 1, hs[i])
    {
      assert Present(list, n, hs[i]);
    }
  }

  lemma NewCategory(w: World, sortBy: Mode, list: seq<Ware>, n: nat, l: Line)
    requires AllListed(w, list) && Sorted(w, sortBy, list) && Contiguous(w.goods, w.none) && n < |list|
    requires (n > 0 ==> !Alike(w, list[n - 1], list[n])) && Present(list, n, l) && l.good < |w.goods|
    ensures !SameCategory(w.goods, l.good, list[n].index)
  {
    hide CompareWare, Sorted, Contiguous;
    var k :| 0 <= k < n && l.good == list[k].index;
    if SameCategory(w.goods, list[k].index, list[n].index) {
      Between(w, sortBy, list, k, n - 1, n);
    }
  }

  lemma CompleteNext(w: World, sortBy: Mode, list: seq<Ware>, lost: seq<nat>, n: nat, hs: seq<Line>, sum: nat)
    requires AllListed(w, list) && Sorted(w, sortBy, list) && Contiguous(w.goods, w.none)
    requires n < |list| && Complete(w, list, lost, n, hs) && (n > 0 ==> !Alike(w, list[n - 1], list[n]))
    requires sum == Lost(lost, CatgIndex(w, list[n])) + Total(w, list, OfCategory(list[n].index))
    ensures Complete(w, list, lost, n + 1, hs + [Heading(list[n].index, sum)])
  {
    hide Total, CompareWare, Sorted, Lost, Contiguous, Headed, SameCategory, Present;
    var l := Heading(list[n].index, sum);
    var hs' := hs + [l];
    assert WholeTotal(w, list, lost, l);
    assert Totals(w, list, lost, hs');
    forall i | 0 <= i < |hs|
      ensures !SameCategory(w.goods, hs[i].good, l.good)
    {
      NewCategory(w, sortBy, list, n, hs[i]);
    }
    forall k | 0 <= k <= n
      ensures Headed(w, hs', list[k].index)
    {
      HeadedLonger(w, hs, l, list[k].index);
    }
    forall i | 0 <= i < |hs'|
      ensures Present(list, n + 1, hs'[i])
    {
      PresentNext(list, n, hs'[i]);
    }
  }

  lemma PresentNext(list: seq<Ware>, n: nat, l: Line)
    requires n < |list| && (Present(list, n, l) || (l.Heading? && l.good == list[n].index))
    ensures Present(list, n + 1, l)
  {
  }

  lemma HeadingNext(w: World, sortBy: Mode, list: seq<Ware>, lost: seq<nat>, j: nat, hs: seq<Line>)
    requires AllListed(w, list) && Sorted(w, sortBy, list) && Contiguous(w.goods, w.none)
    requires j < |list| && Complete(w, list, lost, j, hs) && (j > 0 ==> !Alike(w, list[j - 1], list[j]))
    ensures Complete(w, list, lost, j + 1, hs + [NewHeading(w, list, lost, j)])
  {
    hide Sorted, Contiguous, Complete, Total, RunSum, Lost, Alike, Remembers, KnownGood;
    NewlyRemembered(w, list[j]);
    RunIsCategory(w, sortBy, list, j, list[j].index, CatgMark(w, list[j]));
    CompleteNext(w, sortBy, list, lost, j, hs, NewHeading(w, list, lost, j).sum);
  }

  /** What has been printed so far, and what will be. */
  lemma {:induction false} LinesComplete(w: World, sortBy: Mode, list: seq<Ware>, lost: seq<nat>, j: nat,
                                         lastIndex: int, lastCatg: int, ls: seq<Line>)
    requires AllListed(w, list) && Sorted(w, sortBy, list) && Contiguous(w.goods, w.none) && j <= |list|
    requires Complete(w, list, lost, j, Headings(ls))
    requires if j == 0 then lastIndex == -1 && lastCatg == -1 else Remembers(w, list[j - 1], lastIndex, lastCatg)
    ensures Complete(w, list, lost, |list|, Headings(ls + Lines(w, list, lost, j, lastIndex, lastCatg)))
    decreases |list| - j
  {
    hide Lines, NewHeading, Sorted, KnownGood, Contiguous, Headings, Remembers, Complete, Alike, Listed, CatgMark;
    if j == |list| {
      assert Lines(w, list, lost, j, lastIndex, lastCatg) == [] by { NoMoreLines(w, list, lost, lastIndex, lastCatg); }
      assert ls + [] == ls;
    } else {
      var x, d := list[j], DetailOf(list[j]);
      if j > 0 {
        SameGroup(w, list[j - 1], x, lastIndex, lastCatg);
      }
      LinesNext(w, list, lost, j, lastIndex, lastCatg);
      if lastIndex != x.index && lastCatg != CatgOf(w, x) {
        var l := NewHeading(w, list, lost, j);
        NewlyRemembered(w, x);
        HeadingNext(w, sortBy, list, lost, j, Headings(ls));
        LinesSnoc(ls, l);
        LinesSnoc(ls + [l], d);
        Assoc(ls, l, d, Lines(w, list, lost, j + 1, x.index, CatgMark(w, x)));
        LinesComplete(w, sortBy, list, lost, j + 1, x.index, CatgMark(w, x), ls + [l] + [d]);
      } else {
        CompleteSame(w, list, lost, j, Headings(ls));
        StillRemembered(w, list[j - 1], x, lastIndex, lastCatg);
        LinesSnoc(ls, d);
        Assoc(ls, d, d, Lines(w, list, lost, j + 1, lastIndex, lastCatg));
        LinesComplete(w, sortBy, list, lost, j + 1, lastIndex, lastCatg, ls + [d]);
      }
    }
  }

  lemma NoLines(w: World, list: seq<Ware>, lost: seq<nat>)
    requires AllKnown(w, list)
    ensures Complete(w, list, lost, 0, Headings([]))
  {
  }

  // ---------- nothing is lost from the totals ----------

  lemma {:induction false} AcceptedTotal(w: World, xs: seq<Ware>, g: Group)
    requires AllKnown(w, xs)
    ensures AllKnown(w, AcceptedOnly(w, xs)) && TotalAccepted(w, xs, g) == Total(w, AcceptedOnly(w, xs), g)
  {
    hide Accepted, In, KnownGood, Total;
    if |xs| == 0 {
      EmptyTotal(w, AcceptedOnly(w, xs), g);
    } else {
      var before, x := xs[..|xs| - 1], xs[|xs| - 1];
      AcceptedTotal(w, before, g);
      if Accepted(w, x) {
        TotalSnoc(w, AcceptedOnly(w, before), x, g);
      } else {
        assert AcceptedOnly(w, before) + [] == AcceptedOnly(w, before);
      }
    }
  }

  lemma {:induction false} AcceptedListable(w: World, xs: seq<Ware>, i: nat)
    requires i < |AcceptedOnly(w, xs)|
    ensures AcceptedOnly(w, xs)[i].index != w.none
  {
    if i < |AcceptedOnly(w, xs[..|xs| - 1])| {
      AcceptedListable(w, xs[..|xs| - 1], i);
    }
  }

  /** Where categories have indices of their own, a category is what has its index. */
  lemma CategoryIsIndex(w: World, xs: seq<Ware>, g: nat)
    requires AllKnown(w, xs) && Categorised(w.goods, w.none) && Listable(w.goods, w.none, g)
    requires forall i :: 0 <= i < |xs| ==> xs[i].index != w.none
    ensures Total(w, xs, OfCategory(g)) == Total(w, xs, OfIndex(w.goods[g].catgIndex))
  {
    hide SameCategory, Total;
    var c := w.goods[g].catgIndex;
    forall i | 0 <= i < |xs|
      ensures In(w, OfCategory(g), xs[i]) <==> In(w, OfIndex(c), xs[i])
    {
      assert Listable(w.goods, w.none, xs[i].index);
    }
    TotalSame(w, xs, OfCategory(g), OfIndex(c));
  }

  lemma ListedKnown(w: World, xs: seq<Ware>, list: seq<Ware>, lost: seq<nat>)
    requires Conserves(w, xs, list, lost)
    ensures AllListed(w, list) && AllKnown(w, xs)
  {
  }

  /** What is listed and what got lost are the total of each category. */
  lemma CategoryConserved(w: World, xs: seq<Ware>, mode: Mode, h: Halt, g: nat)
    requires AllKnown(w, xs) && SmallAmounts(xs) && Suited(w, mode, h)
    requires Listable(w.goods, w.none, g) && w.goods[g].catgIndex < 256
    ensures var m := Merge(w, MergeMode(mode, h), h, xs);
      Total(w, m.list, OfCategory(g)) + Lost(m.lost, w.goods[g].catgIndex) == TotalAccepted(w, xs, OfCategory(g))
  {
    hide Total, TotalAccepted, AllListed, Conserves, Categorised, Contiguous, Merge, KnownGood, AcceptedOnly;
    var mode', c := MergeMode(mode, h), w.goods[g].catgIndex;
    var m := Merge(w, mode', h, xs);
    AcceptedTotal(w, xs, OfCategory(g));
    if CanMerge(w, mode') {
      MergeConserves(w, mode', h, xs);
      ListedKnown(w, xs, m.list, m.lost);
      ConservedAt(w, xs, m.list, m.lost, c);
      NoneListed(w, m.list);
      CategoryIsIndex(w, m.list, g);
      forall i | 0 <= i < |AcceptedOnly(w, xs)|
        ensures AcceptedOnly(w, xs)[i].index != w.none
      {
        AcceptedListable(w, xs, i);
      }
      CategoryIsIndex(w, AcceptedOnly(w, xs), g);
      AcceptedTotal(w, xs, OfIndex(c));
    } else {
      NothingMerged(w, mode', h, xs);
    }
  }

  lemma ConservedAt(w: World, xs: seq<Ware>, list: seq<Ware>, lost: seq<nat>, c: nat)
    requires c < 256 && Conserves(w, xs, list, lost)
    ensures Total(w, list, OfIndex(c)) + Lost(lost, c) == TotalAccepted(w, xs, OfIndex(c))
  {
    assert ConservesIn(w, xs, list, lost, c);
  }

  lemma NoneListed(w: World, list: seq<Ware>)
    requires AllListed(w, list)
    ensures forall i :: 0 <= i < |list| ==> list[i].index != w.none
  {
  }

  // ---------- right headings ----------

  lemma RightSum(w: World, xs: seq<Ware>, mode: Mode, h: Halt, list: seq<Ware>, lost: seq<nat>, l: Line)
    requires AllKnown(w, xs) && SmallAmounts(xs) && Suited(w, mode, h) && AllListed(w, list)
    requires var m := Merge(w, MergeMode(mode, h), h, xs); multiset(m.list) == multiset(list) && m.lost == lost
    requires WholeTotal(w, list, lost, l) && Present(list, |list|, l)
    ensures l.sum == TotalAccepted(w, xs, OfCategory(l.good)) > 0
  {
    hide Total, TotalAccepted, Merge, Suited, Lost, SmallAmounts;
    var m := Merge(w, MergeMode(mode, h), h, xs);
    var k :| 0 <= k < |list| && l.good == list[k].index;
    assert Listed(w, list[k]) && KnownGood(w, list[k]);
    CategoryConserved(w, xs, mode, h, l.good);
    TotalPermuted(w, list, m.list, OfCategory(l.good));
    TotalSome(w, list, k, OfCategory(l.good));
  }

  lemma AcceptedHeaded(w: World, xs: seq<Ware>, mode: Mode, h: Halt, list: seq<Ware>, hs: seq<Line>, k: nat)
    requires AllKnown(w, xs) && AllKnown(w, list) && AllHeaded(w, list, |list|, hs)
    requires multiset(Merge(w, MergeMode(mode, h), h, xs).list) == multiset(list)
    requires k < |xs| && Accepted(w, xs[k])
    ensures Headed(w, hs, xs[k].index)
  {
    hide Merge, Headed, Accepted;
    MergeKeepsGoods(w, MergeMode(mode, h), h, xs, k);
    var l := Merge(w, MergeMode(mode, h), h, xs).list;
    var i :| 0 <= i < |l| && l[i].index == xs[k].index;
    assert l[i] in multiset(list);
    var j :| 0 <= j < |list| && list[j] == l[i];
    assert Headed(w, hs, list[j].index);
  }

  lemma AllRight(w: World, xs: seq<Ware>, mode: Mode, h: Halt, list: seq<Ware>, lost: seq<nat>, hs: seq<Line>)
    requires AllKnown(w, xs) && SmallAmounts(xs) && Suited(w, mode, h) && AllListed(w, list)
    requires var m := Merge(w, MergeMode(mode, h), h, xs); multiset(m.list) == multiset(list) && m.lost == lost
    requires Complete(w, list, lost, |list|, hs)
    ensures RightHeadings(w, xs, hs)
  {
    hide TotalAccepted, Merge, Suited, SmallAmounts, SameCategory, Headed, Accepted, AllListed, Present,
      AllHeaded;
    assert AllKnown(w, list) by { ListedGood(w, list); }
    forall i | 0 <= i < |hs|
      ensures hs[i].Heading? && hs[i].good < |w.goods|
      ensures hs[i].sum == TotalAccepted(w, xs, OfCategory(hs[i].good)) > 0
    {
      assert WholeTotal(w, list, lost, hs[i]);
      RightSum(w, xs, mode, h, list, lost, hs[i]);
    }
    forall k | 0 <= k < |xs| && Accepted(w, xs[k])
      ensures Headed(w, hs, xs[k].index)
    {
      AcceptedHeaded(w, xs, mode, h, list, hs, k);
    }
  }

  lemma ListedGood(w: World, list: seq<Ware>)
    requires AllListed(w, list)
    ensures AllKnown(w, list)
  {
  }

  lemma SuitedContiguous(w: World, mode: Mode, h: Halt)
    requires Suited(w, mode, h)
    ensures Contiguous(w.goods, w.none)
  {
    if Categorised(w.goods, w.none) {
      CategorisedContiguous(w.goods, w.none);
    }
  }

  lemma SameListed(w: World, xs: seq<Ware>, ys: seq<Ware>)
    requires AllListed(w, xs) && multiset(xs) == multiset(ys)
    ensures AllListed(w, ys)
  {
    hide Listed, KnownGood;
    forall i | 0 <= i < |ys|
      ensures KnownGood(w, ys[i]) && Listed(w, ys[i])
    {
      assert ys[i] in multiset(xs);
      assert ys[i] in xs;
    }
  }

  /** For suited goods the headings come out right, in spite of all merging, and whichever way the list is sorted. */
  lemma SuitedRight(w: World, xs: seq<Ware>, mode: Mode, h: Halt, list: seq<Ware>)
    requires AllKnown(w, xs) && SmallAmounts(xs) && Suited(w, mode, h) && AllKnown(w, list) && Sorted(w, mode, list)
    requires multiset(list) == multiset(Merge(w, MergeMode(mode, h), h, xs).list)
    ensures RightHeadings(w, xs, Headings(Lines(w, list, Merge(w, MergeMode(mode, h), h, xs).lost, 0, -1, -1)))
  {
    hide *;
    var m := Merge(w, MergeMode(mode, h), h, xs);
    var ls := Lines(w, list, m.lost, 0, -1, -1);
    MergeConserves(w, MergeMode(mode, h), h, xs);
    ListedKnown(w, xs, m.list, m.lost);
    SameListed(w, m.list, list);
    SuitedContiguous(w, mode, h);
    NoLines(w, list, m.lost);
    LinesComplete(w, mode, list, m.lost, 0, -1, -1, []);
    assert [] + ls == ls;
    AllRight(w, xs, mode, h, list, m.lost, Headings(ls));
  }

  lemma FreightLinesRight(w: World, xs: seq<Ware>, mode: Mode, h: Halt)
    requires AllKnown(w, xs) && SmallAmounts(xs) && Suited(w, mode, h)
    ensures RightHeadings(w, xs, Headings(FreightLines(w, xs, mode, h)))
  {
    hide RightHeadings, SortWares, Suited, Sorted, Lines, Headings, Merge, SmallAmounts;
    var m := Merge(w, MergeMode(mode, h), h, xs);
    SortWaresSorted(w, mode, m.list);
    SuitedRight(w, xs, mode, h, SortWares(w, mode, m.list));
  }

  /** The packets of the details and what got lost account for all the wares given. */
  ghost predicate Accounted(w: World, xs: seq<Ware>, list: seq<Ware>, lost: seq<nat>, ls: seq<Line>) {
    && AllKnown(w, xs) && AllKnown(w, list)
    && (forall c :: 0 <= c < 256 ==>
          Total(w, list, OfIndex(c)) + Lost(lost, c) == TotalAccepted(w, xs, OfIndex(c)))
    && Detailed(list, |list|, Details(ls))
  }

  lemma AllAccounted(w: World, xs: seq<Ware>, merged: seq<Ware>, list: seq<Ware>, lost: seq<nat>, ls: seq<Line>)
    requires Conserves(w, xs, merged, lost) && multiset(merged) == multiset(list)
    requires AllKnown(w, list) && ls == Lines(w, list, lost, 0, -1, -1)
    ensures Accounted(w, xs, list, lost, ls)
  {
    hide Total, TotalAccepted, KnownGood, Conserves, Lost, Lines, Listed, Details;
    ListedKnown(w, xs, merged, lost);
    forall c | 0 <= c < 256
      ensures Total(w, list, OfIndex(c)) + Lost(lost, c) == TotalAccepted(w, xs, OfIndex(c))
    {
      ConservedAt(w, xs, merged, lost, c);
      TotalPermuted(w, merged, list, OfIndex(c));
    }
    NothingPrinted();
    LinesDetails(w, list, lost, 0, -1, -1, []);
    assert [] + ls == ls;
  }

  lemma NothingPrinted()
    ensures Details([]) == []
  {
  }

  /** `sort_freight` without a list of capacities, in every sort mode: the details account for everything, and the
      headings are right for suited goods. */
  method SortFreight(w: World, warray: seq<Ware>, mode: Mode, h: Halt) returns (ls: seq<Line>)
    requires AllKnown(w, warray) && SmallAmounts(warray)
    ensures var m := Merge(w, MergeMode(mode, h), h, warray);
      var list := SortWares(w, mode, m.list);
      Sorted(w, mode, list) && Accounted(w, warray, list, m.lost, ls)
    ensures ls == FreightLines(w, warray, mode, h)
    ensures Suited(w, mode, h) ==> RightHeadings(w, warray, Headings(ls))
  {
    hide Sorted, Suited, Headings, Conserves, KnownGood, SortWares, Grouped, AcceptedOnly, Lines, Accounted,
      RightHeadings, Merge, SmallAmounts;
    var wlist, pos, lost := MergeWares(w, warray, MergeMode(mode, h), h);
    ghost var m := Merge(w, MergeMode(mode, h), h, warray);
    var list := SortWares(w, mode, wlist[..pos]);
    SortWaresSorted(w, mode, wlist[..pos]);
    ls := PrintList(w, list, lost);
    AllAccounted(w, warray, m.list, list, m.lost, ls);
    if Suited(w, mode, h) {
      FreightLinesRight(w, warray, mode, h);
    }
  }
}
