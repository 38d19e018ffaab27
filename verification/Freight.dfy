/** The freight list of a halt or convoy (src/simutrans/freight_list_sorter.cc:59-123, 155-339;
    src/simutrans/simware.cc:190-200): merging of packets, the order of the list, and the headings with their totals. */
module Freight {
  import opened Bits

  /** 23 bits are kept for an amount. */
  const LIMIT: nat := 0x7FFFFF
  const PUBLIC: nat := 1

  datatype Mode = ByName | ByAmount | ByVia | ByViaSum | ByViaOwner | ByConnection

  datatype Halt = Unbound | Halt(id: nat)

  datatype Good = Good(catg: nat, catgIndex: nat)

  datatype Ware = Ware(index: nat, amount: nat, target: Halt, via: Halt, toFactory: bool, pos: (int, int)) {
    function Next(): Halt {
      if via.Halt? then via else target
    }
  }

  /** What the list reads from the rest of the game: descriptions by index, names, and who serves which halt. */
  datatype World = World(
    goods: seq<Good>, none: nat,
    haltName: nat -> seq<byte>, factoryName: ((int, int)) -> seq<byte>,
    lines: nat -> seq<nat>, lineGoods: nat -> set<nat>,
    convoys: nat -> seq<nat>, convoyGoods: nat -> set<nat>,
    owners: nat -> set<nat>, permissions: nat -> set<nat>)

  /** Goods of a category share its index; special goods (category 0) have one of their own.  The good `none` is
      never listed, so it does not matter. */
  ghost predicate Categorised(goods: seq<Good>, none: nat) {
    forall a, b :: Listable(goods, none, a) && Listable(goods, none, b) ==>
      (goods[a].catgIndex == goods[b].catgIndex <==> SameCategory(goods, a, b))
  }

  predicate Listable(goods: seq<Good>, none: nat, a: int) {
    0 <= a < |goods| && a != none
  }

  predicate SameCategory(goods: seq<Good>, a: nat, b: nat)
    requires a < |goods| && b < |goods|
  {
    a == b || (goods[a].catg != 0 && goods[a].catg == goods[b].catg)
  }

  predicate KnownGood(w: World, x: Ware) {
    x.index < |w.goods| && w.goods[x.index].catgIndex < 256
  }

  lemma IndexFits(w: World, x: Ware)
    requires KnownGood(w, x)
    ensures CatgIndex(w, x) < 256
  {
  }

  function CatgIndex(w: World, x: Ware): (c: nat)
    requires KnownGood(w, x)
  {
    w.goods[x.index].catgIndex
  }

  ghost predicate AllKnown(w: World, xs: seq<Ware>) {
    forall i :: 0 <= i < |xs| ==> KnownGood(w, xs[i])
  }

  predicate SmallAmounts(xs: seq<Ware>) {
    forall i :: 0 <= i < |xs| ==> xs[i].amount <= LIMIT
  }

  // ---------- totals ----------

  predicate Accepted(w: World, x: Ware) {
    x.index != w.none && x.amount != 0 && x.Next().Halt?
  }

  /** The goods with a category index, or those of the category of a good. */
  datatype Group = OfIndex(catgIndex: nat) | OfCategory(good: nat)

  predicate In(w: World, g: Group, x: Ware)
    requires KnownGood(w, x)
  {
    match g
    case OfIndex(c) => CatgIndex(w, x) == c
    case OfCategory(good) => good < |w.goods| && SameCategory(w.goods, x.index, good)
  }

  /** The amount of goods of a group. */
  ghost function Total(w: World, xs: seq<Ware>, g: Group): nat
    requires AllKnown(w, xs)
  {
    if |xs| == 0 then 0
    else Total(w, xs[..|xs| - 1], g) + if In(w, g, xs[|xs| - 1]) then xs[|xs| - 1].amount else 0
  }

  /** The same of the wares that the list accepts. */
  ghost function TotalAccepted(w: World, xs: seq<Ware>, g: Group): nat
    requires AllKnown(w, xs)
  {
    if |xs| == 0 then 0
    else
      var x := xs[|xs| - 1];
      TotalAccepted(w, xs[..|xs| - 1], g) + if Accepted(w, x) && In(w, g, x) then x.amount else 0
  }

  lemma TotalSnoc(w: World, xs: seq<Ware>, x: Ware, g: Group)
    requires AllKnown(w, xs) && KnownGood(w, x)
    ensures AllKnown(w, xs + [x])
    ensures Total(w, xs + [x], g) == Total(w, xs, g) + if In(w, g, x) then x.amount else 0
  {
    assert (xs + [x])[..|xs|] == xs;
  }

  lemma {:induction false} TotalChange(w: World, xs: seq<Ware>, i: nat, amount: nat, g: Group)
    requires AllKnown(w, xs) && i < |xs|
    ensures AllKnown(w, xs[i := xs[i].(amount := amount)])
    ensures Total(w, xs[i := xs[i].(amount := amount)], g) ==
      Total(w, xs, g) + if In(w, g, xs[i]) then amount - xs[i].amount else 0
  {
    var ys, n := xs[i := xs[i].(amount := amount)], |xs| - 1;
    if i < n {
      TotalChange(w, xs[..n], i, amount, g);
      assert ys[..n] == xs[..n][i := xs[..n][i].(amount := amount)];
    } else {
      assert ys[..n] == xs[..n];
    }
  }

  lemma {:induction false} TotalConcat(w: World, xs: seq<Ware>, ys: seq<Ware>, g: Group)
    requires AllKnown(w, xs) && AllKnown(w, ys)
    ensures AllKnown(w, xs + ys) && Total(w, xs + ys, g) == Total(w, xs, g) + Total(w, ys, g)
  {
    if |ys| == 0 {
      assert xs + ys == xs;
    } else {
      TotalConcat(w, xs, ys[..|ys| - 1], g);
      assert (xs + ys)[..|xs + ys| - 1] == xs + ys[..|ys| - 1];
    }
  }

  lemma {:induction false} TotalNone(w: World, xs: seq<Ware>, g: Group)
    requires AllKnown(w, xs) && forall i :: 0 <= i < |xs| ==> !In(w, g, xs[i])
    ensures Total(w, xs, g) == 0
  {
    if |xs| > 0 {
      TotalNone(w, xs[..|xs| - 1], g);
    }
  }

  lemma {:induction false} TotalSome(w: World, xs: seq<Ware>, i: nat, g: Group)
    requires AllKnown(w, xs) && i < |xs| && In(w, g, xs[i])
    ensures Total(w, xs, g) >= xs[i].amount
  {
    if i < |xs| - 1 {
      TotalSome(w, xs[..|xs| - 1], i, g);
    }
  }

  /** Groups with the same packets have the same total. */
  lemma {:induction false} TotalSame(w: World, xs: seq<Ware>, g: Group, k: Group)
    requires AllKnown(w, xs) && forall i :: 0 <= i < |xs| ==> (In(w, g, xs[i]) <==> In(w, k, xs[i]))
    ensures Total(w, xs, g) == Total(w, xs, k)
  {
    if |xs| > 0 {
      TotalSame(w, xs[..|xs| - 1], g, k);
    }
  }

  function Without(xs: seq<Ware>, k: nat): (ys: seq<Ware>)
    requires k < |xs|
    ensures multiset(ys) == multiset(xs) - multiset{xs[k]}
  {
    assert xs == xs[..k] + [xs[k]] + xs[k + 1..];
    xs[..k] + xs[k + 1..]
  }

  lemma TotalWithout(w: World, xs: seq<Ware>, k: nat, g: Group)
    requires AllKnown(w, xs) && k < |xs|
    ensures AllKnown(w, Without(xs, k))
    ensures Total(w, xs, g) == Total(w, Without(xs, k), g) + if In(w, g, xs[k]) then xs[k].amount else 0
  {
    hide Total, KnownGood;
    var before, x, after := xs[..k], xs[k], xs[k + 1..];
    assert xs == before + [x] + after;
    TotalSnoc(w, before, x, g);
    TotalConcat(w, before, after, g);
    TotalConcat(w, before + [x], after, g);
  }

  /** The order of a list does not matter. */
  lemma {:induction false} TotalPermuted(w: World, xs: seq<Ware>, ys: seq<Ware>, g: Group)
    requires AllKnown(w, xs) && AllKnown(w, ys) && multiset(xs) == multiset(ys)
    ensures Total(w, xs, g) == Total(w, ys, g)
    decreases |xs|
  {
    hide Without, KnownGood;
    if |xs| > 0 {
      var x := xs[0];
      assert x in multiset(ys);
      var k :| 0 <= k < |ys| && ys[k] == x;
      TotalWithout(w, xs, 0, g);
      TotalWithout(w, ys, k, g);
      ShorterWithout(xs, 0);
      TotalPermuted(w, Without(xs, 0), Without(ys, k), g);
    } else {
      assert |multiset(ys)| == 0;
    }
  }

  lemma ShorterWithout(xs: seq<Ware>, k: nat)
    requires k < |xs|
    ensures |Without(xs, k)| < |xs|
  {
  }

  // ---------- merging ----------

  /** `ware_t::add_goods`: the packet is filled up to its limit, the rest is returned. */
  function AddGoods(amount: nat, toAdd: nat): (r: (nat, nat))
    ensures r.0 + r.1 == amount + toAdd && r.0 <= LIMIT && (r.1 > 0 ==> r.0 == LIMIT)
    ensures amount <= LIMIT ==> amount <= r.0
  {
    if toAdd > LIMIT - amount then (LIMIT, toAdd - (LIMIT - amount)) else (amount + toAdd, 0)
  }

  /** A line from `h` that takes these goods to both halts. */
  ghost predicate CommonLine(w: World, h: nat, c: nat, a: nat, b: nat) {
    exists l :: l in w.lines(h) && c in w.lineGoods(l) && l in w.lines(a) && l in w.lines(b)
  }

  ghost predicate AnyLine(w: World, h: nat, c: nat, a: nat, b: nat) {
    exists l :: l in w.lines(h) && c in w.lineGoods(l) && (l in w.lines(a) || l in w.lines(b))
  }

  ghost predicate CommonConvoy(w: World, h: nat, c: nat, a: nat, b: nat) {
    exists v :: v in w.convoys(h) && c in w.convoyGoods(v) && v in w.convoys(a) && v in w.convoys(b)
  }

  /** Whether packet `x` is counted with packet `y` already in the list. */
  ghost predicate Joins(w: World, mode: Mode, h: Halt, y: Ware, x: Ware)
    requires KnownGood(w, x)
  {
    y.index == x.index &&
    match mode
    case ByViaSum => y.target == x.target || y.via == x.via
    case ByConnection =>
      x.Next() == y.Next()
      || (h.Halt? && x.Next().Halt? && y.Next().Halt?
          && (CommonLine(w, h.id, CatgIndex(w, x), x.Next().id, y.Next().id)
              || (!AnyLine(w, h.id, CatgIndex(w, x), x.Next().id, y.Next().id)
                  && CommonConvoy(w, h.id, CatgIndex(w, x), x.Next().id, y.Next().id))))
    case ByViaOwner =>
      x.Next().Halt? && y.Next().Halt? && w.permissions(y.Next().id) * (w.owners(x.Next().id) - {PUBLIC}) != {}
    case _ => false
  }

  /** The search for a common connection. */
  method SharesConnection(w: World, h: nat, c: nat, a: nat, b: nat) returns (merge: bool)
    ensures merge == (CommonLine(w, h, c, a, b) || (!AnyLine(w, h, c, a, b) && CommonConvoy(w, h, c, a, b)))
  {
    merge := false;
    var hasLine := false;
    var i := 0;
    var lines := w.lines(h);
    while i < |lines|
      invariant i <= |lines| && !merge
      invariant forall k :: 0 <= k < i && c in w.lineGoods(lines[k]) ==>
        !(lines[k] in w.lines(a) && lines[k] in w.lines(b))
      invariant hasLine <==>
        exists k :: 0 <= k < i && c in w.lineGoods(lines[k]) && (lines[k] in w.lines(a) || lines[k] in w.lines(b))
    {
      var line := lines[i];
      if c in w.lineGoods(line) {
        var hasLine1, hasLine2 := line in w.lines(a), line in w.lines(b);
        if hasLine1 && hasLine2 {
          return true;
        }
        hasLine := hasLine || hasLine1 || hasLine2;
      }
      i := i + 1;
    }
    if !hasLine {
      i := 0;
      var convoys := w.convoys(b);
      while i < |convoys|
        invariant i <= |convoys| && !merge
        invariant forall k :: 0 <= k < i ==>
          !(c in w.convoyGoods(convoys[k]) && convoys[k] in w.convoys(a) && convoys[k] in w.convoys(h))
      {
        var convoy := convoys[i];
        if c in w.convoyGoods(convoy) && convoy in w.convoys(a) && convoy in w.convoys(h) {
          return true;
        }
        i := i + 1;
      }
    }
  }

  method CheckJoin(w: World, mode: Mode, h: Halt, y: Ware, x: Ware) returns (merge: bool)
    requires KnownGood(w, x) && x.Next().Halt? && y.Next().Halt? && (mode == ByConnection ==> h.Halt?)
    ensures merge == Joins(w, mode, h, y, x)
  {
    hide CommonLine, AnyLine, CommonConvoy;
    if y.index != x.index {
      return false;
    }
    match mode {
      case ByViaSum =>
        merge := y.target == x.target || y.via == x.via;
      case ByConnection =>
        merge := x.Next() == y.Next();
        if !merge {
          merge := SharesConnection(w, h.id, CatgIndex(w, x), x.Next().id, y.Next().id);
        }
      case ByViaOwner =>
        merge := w.permissions(y.Next().id) * (w.owners(x.Next().id) - {PUBLIC}) != {};
      case _ =>
        merge := false;
    }
  }

  function Lost(lost: seq<nat>, c: nat): nat {
    if c < |lost| then lost[c] else 0
  }

  /** The merged list and what overflowed stand for the wares seen so far. */
  ghost predicate Conserves(w: World, xs: seq<Ware>, list: seq<Ware>, lost: seq<nat>) {
    && AllKnown(w, xs) && AllKnown(w, list)
    && (forall c :: 0 <= c < 256 ==> ConservesIn(w, xs, list, lost, c))
    && (forall i :: 0 <= i < |list| ==> Listed(w, list[i]))
  }

  ghost predicate ConservesIn(w: World, xs: seq<Ware>, list: seq<Ware>, lost: seq<nat>, c: nat)
    requires AllKnown(w, xs) && AllKnown(w, list)
  {
    && Total(w, list, OfIndex(c)) + Lost(lost, c) == TotalAccepted(w, xs, OfIndex(c))
    && (Lost(lost, c) > 0 ==> exists i :: 0 <= i < |list| && CatgIndex(w, list[i]) == c && list[i].amount == LIMIT)
  }

  predicate Listed(w: World, x: Ware) {
    0 < x.amount <= LIMIT && x.Next().Halt? && x.index != w.none
  }

  lemma AcceptNext(w: World, xs: seq<Ware>, k: nat, g: Group)
    requires k < |xs| && AllKnown(w, xs)
    ensures AllKnown(w, xs[..k]) && AllKnown(w, xs[..k + 1])
    ensures TotalAccepted(w, xs[..k + 1], g) == TotalAccepted(w, xs[..k], g)
      + if Accepted(w, xs[k]) && In(w, g, xs[k]) then xs[k].amount else 0
  {
    assert xs[..k + 1][..k] == xs[..k];
  }

  lemma Skipped(w: World, xs: seq<Ware>, k: nat, list: seq<Ware>, lost: seq<nat>)
    requires k < |xs| && AllKnown(w, xs) && Conserves(w, xs[..k], list, lost) && !Accepted(w, xs[k])
    ensures Conserves(w, xs[..k + 1], list, lost)
  {
    hide Total, TotalAccepted, Accepted, KnownGood;
    var seen := xs[..k + 1];
    forall c | 0 <= c < 256
      ensures ConservesIn(w, seen, list, lost, c)
    {
      AcceptNext(w, xs, k, OfIndex(c));
      assert ConservesIn(w, xs[..k], list, lost, c);
    }
  }

  lemma Appended(w: World, xs: seq<Ware>, k: nat, list: seq<Ware>, lost: seq<nat>)
    requires k < |xs| && AllKnown(w, xs) && Conserves(w, xs[..k], list, lost) && Accepted(w, xs[k])
    requires xs[k].amount <= LIMIT
    ensures Conserves(w, xs[..k + 1], list + [xs[k]], lost)
  {
    hide Total, TotalAccepted, KnownGood;
    var x, seen := xs[k], xs[..k + 1];
    var longer := list + [x];
    forall c | 0 <= c < 256
      ensures AllKnown(w, longer) && ConservesIn(w, seen, longer, lost, c)
    {
      AcceptNext(w, xs, k, OfIndex(c));
      TotalSnoc(w, list, x, OfIndex(c));
      assert ConservesIn(w, xs[..k], list, lost, c);
      if Lost(lost, c) > 0 {
        var i :| 0 <= i < |list| && CatgIndex(w, list[i]) == c && list[i].amount == LIMIT;
        assert (list + [x])[i] == list[i];
      }
    }
    TotalSnoc(w, list, x, OfIndex(0));
  }

  lemma Merged(w: World, xs: seq<Ware>, k: nat, list: seq<Ware>, lost: seq<nat>, i: nat)
    requires k < |xs| && AllKnown(w, xs) && Conserves(w, xs[..k], list, lost) && Accepted(w, xs[k])
    requires |lost| == 256 && i < |list| && list[i].index == xs[k].index
    ensures var r, c := AddGoods(list[i].amount, xs[k].amount), CatgIndex(w, xs[k]);
      Conserves(w, xs[..k + 1], list[i := list[i].(amount := r.0)], lost[c := lost[c] + r.1])
  {
    hide Total, TotalAccepted, Accepted;
    var x, y := xs[k], list[i];
    var r, c := AddGoods(y.amount, x.amount), CatgIndex(w, x);
    var list', lost' := list[i := y.(amount := r.0)], lost[c := lost[c] + r.1];
    var seen := xs[..k + 1];
    forall d | 0 <= d < 256
      ensures AllKnown(w, list') && ConservesIn(w, seen, list', lost', d)
    {
      AcceptNext(w, xs, k, OfIndex(d));
      TotalChange(w, list, i, r.0, OfIndex(d));
      assert ConservesIn(w, xs[..k], list, lost, d);
      if Lost(lost, d) > 0 {
        var m :| 0 <= m < |list| && CatgIndex(w, list[m]) == d && list[m].amount == LIMIT;
        assert CatgIndex(w, list'[m]) == d && list'[m].amount == LIMIT;
      }
      if d == c && r.1 > 0 {
        assert CatgIndex(w, list'[i]) == d && list'[i].amount == LIMIT;
      }
    }
    TotalChange(w, list, i, r.0, OfIndex(0));
  }

  /** No packet joins one before it: every merge that was possible has been made. */
  ghost predicate Grouped(w: World, mode: Mode, h: Halt, list: seq<Ware>)
    requires AllKnown(w, list)
  {
    forall i, j :: 0 <= i < j < |list| ==> !Joins(w, mode, h, list[i], list[j])
  }

  lemma GroupedAfterMerge(w: World, mode: Mode, h: Halt, list: seq<Ware>, i: nat, amount: nat)
    requires AllKnown(w, list) && Grouped(w, mode, h, list) && i < |list|
    ensures AllKnown(w, list[i := list[i].(amount := amount)])
    ensures Grouped(w, mode, h, list[i := list[i].(amount := amount)])
  {
    hide CommonLine, AnyLine, CommonConvoy;
    var list' := list[i := list[i].(amount := amount)];
    forall a, b | 0 <= a < b < |list'|
      ensures !Joins(w, mode, h, list'[a], list'[b])
    {
      assert !Joins(w, mode, h, list[a], list[b]);
    }
  }

  lemma GroupedAfterAppend(w: World, mode: Mode, h: Halt, list: seq<Ware>, x: Ware)
    requires AllKnown(w, list) && Grouped(w, mode, h, list) && KnownGood(w, x)
    requires forall k :: 0 <= k < |list| ==> !Joins(w, mode, h, list[k], x)
    ensures AllKnown(w, list + [x]) && Grouped(w, mode, h, list + [x])
  {
    hide Joins;
  }

  /** The accepted wares, in order. */
  function AcceptedOnly(w: World, xs: seq<Ware>): seq<Ware> {
    if |xs| == 0 then []
    else AcceptedOnly(w, xs[..|xs| - 1]) + if Accepted(w, xs[|xs| - 1]) then [xs[|xs| - 1]] else []
  }

  /** Are there packets that this mode merges? */
  ghost predicate CanMerge(w: World, mode: Mode) {
    match mode
    case ByViaSum => true
    case ByConnection => true
    case ByViaOwner => exists a, b :: w.permissions(a) * (w.owners(b) - {PUBLIC}) != {}
    case _ => false
  }

  lemma NoJoin(w: World, mode: Mode, h: Halt, y: Ware, x: Ware)
    requires KnownGood(w, x) && !CanMerge(w, mode) && y.Next().Halt?
    ensures !Joins(w, mode, h, y, x)
  {
  }

  // ---------- what merging comes to ----------

  /** The packets listed, and what overflowed by category index. */
  datatype Merger = Merger(list: seq<Ware>, lost: seq<nat>)

  /** The first listed packet that `x` joins; the length of the list if there is none. */
  ghost function Partner(w: World, list: seq<Ware>, mode: Mode, h: Halt, x: Ware): (i: nat)
    requires KnownGood(w, x)
    ensures i <= |list| && forall k :: 0 <= k < i ==> !Joins(w, mode, h, list[k], x)
    ensures i < |list| ==> Joins(w, mode, h, list[i], x)
  {
    if |list| == 0 || Joins(w, mode, h, list[0], x) then 0
    else
      var rest := Partner(w, list[1..], mode, h, x);
      assert forall k :: 0 < k < rest + 1 ==> list[k] == list[1..][k - 1];
      rest + 1
  }

  ghost function Put(w: World, mode: Mode, h: Halt, m: Merger, x: Ware): (r: Merger)
    requires KnownGood(w, x) && AllKnown(w, m.list) && |m.lost| == 256
    ensures AllKnown(w, r.list) && |r.lost| == 256
  {
    if !Accepted(w, x) then m
    else
      var i, c := Partner(w, m.list, mode, h, x), CatgIndex(w, x);
      if i == |m.list| then m.(list := m.list + [x])
      else
        var r := AddGoods(m.list[i].amount, x.amount);
        Merger(m.list[i := m.list[i].(amount := r.0)], m.lost[c := m.lost[c] + r.1])
  }

  ghost function Merge(w: World, mode: Mode, h: Halt, xs: seq<Ware>): (m: Merger)
    requires AllKnown(w, xs)
    ensures AllKnown(w, m.list) && |m.lost| == 256
  {
    if |xs| == 0 then Merger([], seq(256, _ => 0)) else Put(w, mode, h, Merge(w, mode, h, xs[..|xs| - 1]), xs[|xs| - 1])
  }

  lemma MergeNext(w: World, mode: Mode, h: Halt, xs: seq<Ware>, k: nat)
    requires AllKnown(w, xs) && k < |xs|
    ensures Merge(w, mode, h, xs[..k + 1]) == Put(w, mode, h, Merge(w, mode, h, xs[..k]), xs[k])
  {
    hide Put;
    assert xs[..k + 1][..k] == xs[..k];
  }

  lemma OnePartner(w: World, list: seq<Ware>, mode: Mode, h: Halt, x: Ware, i: nat)
    requires KnownGood(w, x) && i <= |list| && forall k :: 0 <= k < i ==> !Joins(w, mode, h, list[k], x)
    requires i < |list| ==> Joins(w, mode, h, list[i], x)
    ensures i == Partner(w, list, mode, h, x)
  {
    hide Joins;
  }

  lemma MergeStart(w: World, mode: Mode, h: Halt, xs: seq<Ware>)
    ensures Merge(w, mode, h, xs[..0]) == Merger([], seq(256, _ => 0))
  {
  }

  lemma {:induction false} MergeConserves(w: World, mode: Mode, h: Halt, xs: seq<Ware>)
    requires AllKnown(w, xs) && SmallAmounts(xs)
    ensures var m := Merge(w, mode, h, xs); Conserves(w, xs, m.list, m.lost)
  {
    hide Joins, Partner, Accepted, KnownGood, Conserves, AddGoods;
    if |xs| == 0 {
      NothingYet(w, xs, Merge(w, mode, h, xs).lost);
    } else {
      var k := |xs| - 1;
      var m := Merge(w, mode, h, xs[..k]);
      assert xs[..k + 1] == xs;
      MergeConserves(w, mode, h, xs[..k]);
      if !Accepted(w, xs[k]) {
        Skipped(w, xs, k, m.list, m.lost);
      } else if Partner(w, m.list, mode, h, xs[k]) == |m.list| {
        Appended(w, xs, k, m.list, m.lost);
      } else {
        var i := Partner(w, m.list, mode, h, xs[k]);
        JoinsSame(w, mode, h, m.list[i], xs[k]);
        Merged(w, xs, k, m.list, m.lost, i);
      }
    }
  }

  lemma JoinsSame(w: World, mode: Mode, h: Halt, y: Ware, x: Ware)
    requires KnownGood(w, x) && Joins(w, mode, h, y, x)
    ensures y.index == x.index
  {
  }

  lemma {:induction false} MergeGrouped(w: World, mode: Mode, h: Halt, xs: seq<Ware>)
    requires AllKnown(w, xs)
    ensures Grouped(w, mode, h, Merge(w, mode, h, xs).list)
  {
    hide Joins, Accepted, KnownGood, Grouped, AddGoods;
    if |xs| == 0 {
      NoneGrouped(w, mode, h);
    } else {
      var k := |xs| - 1;
      var m, x := Merge(w, mode, h, xs[..k]), xs[k];
      var i := Partner(w, m.list, mode, h, x);
      MergeGrouped(w, mode, h, xs[..k]);
      if i == |m.list| {
        GroupedAfterAppend(w, mode, h, m.list, x);
      } else {
        GroupedAfterMerge(w, mode, h, m.list, i, AddGoods(m.list[i].amount, x.amount).0);
      }
    }
  }

  /** Where nothing can be merged, the wares accepted are the list, and nothing overflows. */
  lemma {:induction false} NothingMerged(w: World, mode: Mode, h: Halt, xs: seq<Ware>)
    requires AllKnown(w, xs) && !CanMerge(w, mode)
    ensures Merge(w, mode, h, xs) == Merger(AcceptedOnly(w, xs), seq(256, _ => 0))
  {
    hide Joins, CanMerge, Accepted, KnownGood;
    if |xs| > 0 {
      var k := |xs| - 1;
      var m, x := Merge(w, mode, h, xs[..k]), xs[k];
      NothingMerged(w, mode, h, xs[..k]);
      var i := Partner(w, m.list, mode, h, x);
      if i < |m.list| {
        AcceptedGo(w, xs[..k], i);
        NoJoin(w, mode, h, m.list[i], x);
      }
    }
  }

  lemma {:induction false} AcceptedGo(w: World, xs: seq<Ware>, i: nat)
    requires i < |AcceptedOnly(w, xs)|
    ensures AcceptedOnly(w, xs)[i].Next().Halt?
  {
    if i < |AcceptedOnly(w, xs[..|xs| - 1])| {
      AcceptedGo(w, xs[..|xs| - 1], i);
    }
  }

  /** Of each accepted ware's good there is a packet in the list. */
  lemma {:induction false} MergeKeepsGoods(w: World, mode: Mode, h: Halt, xs: seq<Ware>, k: nat)
    requires AllKnown(w, xs) && k < |xs| && Accepted(w, xs[k])
    ensures exists i :: 0 <= i < |Merge(w, mode, h, xs).list| && Merge(w, mode, h, xs).list[i].index == xs[k].index
  {
    hide Joins, Accepted, KnownGood, AddGoods;
    var n := |xs| - 1;
    var m, x, r := Merge(w, mode, h, xs[..n]), xs[n], Merge(w, mode, h, xs);
    assert r == Put(w, mode, h, m, x);
    if k < n {
      MergeKeepsGoods(w, mode, h, xs[..n], k);
      var i :| 0 <= i < |m.list| && m.list[i].index == xs[k].index;
      assert r.list[i].index == xs[k].index;
    } else {
      var i := Partner(w, m.list, mode, h, x);
      if i < |m.list| {
        JoinsSame(w, mode, h, m.list[i], x);
      }
      assert r.list[i].index == x.index;
    }
  }

  lemma MergeFacts(w: World, mode: Mode, h: Halt, xs: seq<Ware>)
    requires AllKnown(w, xs) && SmallAmounts(xs)
    ensures var m := Merge(w, mode, h, xs);
      && Conserves(w, xs, m.list, m.lost) && Grouped(w, mode, h, m.list)
      && (!CanMerge(w, mode) ==> m.list == AcceptedOnly(w, xs))
  {
    hide *;
    MergeConserves(w, mode, h, xs);
    MergeGrouped(w, mode, h, xs);
    if !CanMerge(w, mode) {
      NothingMerged(w, mode, h, xs);
    }
  }

  lemma PutAt(w: World, m: Merger, mode: Mode, h: Halt, x: Ware, i: nat)
    requires KnownGood(w, x) && AllKnown(w, m.list) && |m.lost| == 256 && Accepted(w, x) && i <= |m.list|
    requires forall k :: 0 <= k < i ==> !Joins(w, mode, h, m.list[k], x)
    requires i < |m.list| ==> Joins(w, mode, h, m.list[i], x)
    ensures i == |m.list| ==> Put(w, mode, h, m, x) == Merger(m.list + [x], m.lost)
    ensures i < |m.list| ==>
      var r, c := AddGoods(m.list[i].amount, x.amount), CatgIndex(w, x);
      Put(w, mode, h, m, x) == Merger(m.list[i := m.list[i].(amount := r.0)], m.lost[c := m.lost[c] + r.1])
  {
    hide Joins, AddGoods;
    OnePartner(w, m.list, mode, h, x, i);
  }

  lemma PutNothing(w: World, m: Merger, mode: Mode, h: Halt, x: Ware)
    requires KnownGood(w, x) && AllKnown(w, m.list) && |m.lost| == 256 && !Accepted(w, x)
    ensures Put(w, mode, h, m, x) == m
  {
  }

  /** The first part of `sort_freight`: accepted wares are listed, or merged with one that is listed already. */
  method MergeWares(w: World, warray: seq<Ware>, mode: Mode, h: Halt)
    returns (wlist: array<Ware>, pos: nat, lost: seq<nat>)
    requires AllKnown(w, warray) && SmallAmounts(warray) && (mode == ByConnection ==> h.Halt?)
    ensures fresh(wlist) && pos <= wlist.Length && Merger(wlist[..pos], lost) == Merge(w, mode, h, warray)
    ensures Conserves(w, warray, wlist[..pos], lost) && Grouped(w, mode, h, wlist[..pos])
    ensures !CanMerge(w, mode) ==> wlist[..pos] == AcceptedOnly(w, warray)
  {
    hide Joins, KnownGood, Conserves, Grouped, CanMerge, Merge, Put, AddGoods, SmallAmounts, AcceptedOnly;
    wlist := new Ware[|warray|](_ => Ware(0, 0, Unbound, Unbound, false, (0, 0)));
    lost := seq(256, _ => 0);
    pos := 0;
    MergeStart(w, mode, h, warray);
    assert wlist[..pos] == [];
    var k := 0;
    while k < |warray|
      invariant pos <= k <= |warray| == wlist.Length && fresh(wlist)
      invariant Merger(wlist[..pos], lost) == Merge(w, mode, h, warray[..k])
      invariant forall i :: 0 <= i < pos ==> wlist[i].Next().Halt?
    {
      var ware := warray[k];
      MergeNext(w, mode, h, warray, k);
      if !Accepted(w, ware) {
        PutNothing(w, Merger(wlist[..pos], lost), mode, h, ware);
      } else {
        ghost var before := wlist[..pos];
        var i := FindPartner(w, wlist[..pos], mode, h, ware);
        PutAt(w, Merger(before, lost), mode, h, ware, i);
        if i < pos {
          var r := AddGoods(wlist[i].amount, ware.amount);
          var c := CatgIndex(w, ware);
          IndexFits(w, ware);
          wlist[i] := wlist[i].(amount := r.0);
          assert wlist[..pos] == before[i := before[i].(amount := r.0)];
          lost := lost[c := lost[c] + r.1];
        } else {
          wlist[pos] := ware;
          pos := pos + 1;
          assert wlist[..pos] == before + [ware];
        }
      }
      k := k + 1;
    }
    assert warray[..k] == warray;
    MergeFacts(w, mode, h, warray);
  }

  lemma NothingYet(w: World, xs: seq<Ware>, lost: seq<nat>)
    requires |xs| == 0 && |lost| == 256 && forall c :: 0 <= c < 256 ==> lost[c] == 0
    ensures Conserves(w, xs, [], lost)
  {
  }

  lemma NoneGrouped(w: World, mode: Mode, h: Halt)
    ensures Grouped(w, mode, h, [])
  {
  }

  /** The first listed packet with which `x` is merged, if any. */
  method FindPartner(w: World, list: seq<Ware>, mode: Mode, h: Halt, x: Ware) returns (i: nat)
    requires KnownGood(w, x) && Accepted(w, x) && (mode == ByConnection ==> h.Halt?)
    requires forall k :: 0 <= k < |list| ==> list[k].Next().Halt?
    ensures i <= |list| && forall k :: 0 <= k < i ==> !Joins(w, mode, h, list[k], x)
    ensures i < |list| ==> Joins(w, mode, h, list[i], x) && list[i].index == x.index
  {
    i := 0;
    while i < |list|
      invariant i <= |list| && forall k :: 0 <= k < i ==> !Joins(w, mode, h, list[k], x)
    {
      var merge := CheckJoin(w, mode, h, list[i], x);
      if merge {
        return;
      }
      i := i + 1;
    }
  }
}
