/** The order and the lines of the freight list (src/simutrans/freight_list_sorter.cc:59-123, 283-339). */
module FreightList {
  import opened Bits
  import opened Lexicographic
  import opened Freight

  // ---------- the order ----------

  /** The name a packet's destination is listed under. */
  function Destination(w: World, x: Ware): seq<byte>
    requires x.target.Halt?
  {
    if x.toFactory then w.factoryName(x.pos) else w.haltName(x.target.id)
  }

  predicate LessByName(w: World, a: Ware, b: Ware) {
    if a.target.Halt? && b.target.Halt? then Before(Destination(w, a), Destination(w, b))
    else !a.target.Halt? && b.target.Halt?
  }

  predicate LessByVia(w: World, a: Ware, b: Ware) {
    if a.via.Halt? && b.via.Halt? then
      if w.haltName(a.via.id) != w.haltName(b.via.id) then Before(w.haltName(a.via.id), w.haltName(b.via.id))
        else LessByName(w, a, b)
    else if a.via.Halt? then false
    else if b.via.Halt? then true
    else LessByName(w, a, b)
  }

  /** `compare_ware` */
  predicate CompareWare(w: World, sortBy: Mode, a: Ware, b: Ware)
    requires KnownGood(w, a) && KnownGood(w, b)
  {
    var byGood := if CatgIndex(w, a) != CatgIndex(w, b) then CatgIndex(w, a) - CatgIndex(w, b) else a.index - b.index;
    if byGood != 0 then byGood < 0
    else
      match sortBy
      case ByName => LessByName(w, a, b)
      case ByVia => LessByVia(w, a, b)
      case _ => if b.amount != a.amount then b.amount - a.amount < 0 else LessByVia(w, a, b)
  }

  /** Unbound halts come first. */
  function NameRank(h: Halt, name: seq<byte>): seq<int> {
    var n: seq<int> := name;
    if h.Halt? then [1] + (n + [-1]) else [0]
  }

  function DestinationRank(w: World, x: Ware): seq<int> {
    NameRank(x.target, if x.target.Halt? then Destination(w, x) else [])
  }

  function ViaRank(w: World, x: Ware): seq<int> {
    NameRank(x.via, if x.via.Halt? then w.haltName(x.via.id) else []) + DestinationRank(w, x)
  }

  /** All that the order looks at, most significant first. */
  function Rank(w: World, sortBy: Mode, x: Ware): seq<int>
    requires KnownGood(w, x)
  {
    [CatgIndex(w, x)] + ([x.index] + Tail(w, sortBy, x))
  }

  function Tail(w: World, sortBy: Mode, x: Ware): seq<int> {
    match sortBy
    case ByName => DestinationRank(w, x)
    case ByVia => ViaRank(w, x)
    case _ => Descending(x.amount) + ViaRank(w, x)
  }

  function Descending(amount: int): seq<int> {
    [-amount]
  }

  lemma NameRankOrder(h: Halt, k: Halt, a: seq<byte>, b: seq<byte>, x: seq<int>, y: seq<int>)
    ensures Before(NameRank(h, a) + x, NameRank(k, b) + y) ==
      if h.Halt? && k.Halt? then (if a == b then Before(x, y) else Before(a, b))
      else if h.Halt? then false else if k.Halt? then true else Before(x, y)
  {
    hide Before;
    var s, t := NameRank(h, a) + x, NameRank(k, b) + y;
    var a', b': seq<int> := a, b;
    var p := if h.Halt? then a' + [-1] + x else x;
    var q := if k.Halt? then b' + [-1] + y else y;
    assert s == [if h.Halt? then 1 else 0] + p && t == [if k.Halt? then 1 else 0] + q;
    BeforeCons(if h.Halt? then 1 else 0, if k.Halt? then 1 else 0, p, q);
    BeforeEnded(a, b, x, y);
  }

  lemma DestinationOrder(w: World, a: Ware, b: Ware)
    ensures Before(DestinationRank(w, a), DestinationRank(w, b)) == LessByName(w, a, b)
  {
    hide Before, NameRank, Destination;
    var da := if a.target.Halt? then Destination(w, a) else [];
    var db := if b.target.Halt? then Destination(w, b) else [];
    NameRankOrder(a.target, b.target, da, db, [], []);
    assert NameRank(a.target, da) + [] == NameRank(a.target, da)
      && NameRank(b.target, db) + [] == NameRank(b.target, db);
    BeforeTotal(da, da);
    NothingBefore();
  }

  lemma NothingBefore()
    ensures !Before([], [])
  {
  }

  lemma ViaOrder(w: World, a: Ware, b: Ware)
    ensures Before(ViaRank(w, a), ViaRank(w, b)) == LessByVia(w, a, b)
  {
    hide Before, NameRank, DestinationRank, LessByName;
    DestinationOrder(w, a, b);
    NameRankOrder(a.via, b.via,
      if a.via.Halt? then w.haltName(a.via.id) else [], if b.via.Halt? then w.haltName(b.via.id) else [],
                  DestinationRank(w, a), DestinationRank(w, b));
  }

  /** The comparison is that of the ranks, and so a strict weak order, whatever the sort mode. */
  lemma CompareIsRank(w: World, sortBy: Mode, a: Ware, b: Ware)
    requires KnownGood(w, a) && KnownGood(w, b)
    ensures CompareWare(w, sortBy, a, b) == Before(Rank(w, sortBy, a), Rank(w, sortBy, b))
  {
    hide Before, ViaRank, DestinationRank, LessByName, LessByVia;
    DestinationOrder(w, a, b);
    ViaOrder(w, a, b);
    var m: int, n: int := a.amount, b.amount;
    BeforeCons(-m, -n, ViaRank(w, a), ViaRank(w, b));
    var ta, tb := Tail(w, sortBy, a), Tail(w, sortBy, b);
    BeforeCons(a.index, b.index, ta, tb);
    BeforeCons(CatgIndex(w, a), CatgIndex(w, b), [a.index] + ta, [b.index] + tb);
  }

  /** What `std::sort` demands of its comparison: irreflexive, transitive, and with transitive incomparability. */
  lemma StrictWeakOrder(w: World, sortBy: Mode, a: Ware, b: Ware, c: Ware)
    requires KnownGood(w, a) && KnownGood(w, b) && KnownGood(w, c)
    ensures !CompareWare(w, sortBy, a, a)
    ensures CompareWare(w, sortBy, a, b) && CompareWare(w, sortBy, b, c) ==> CompareWare(w, sortBy, a, c)
    ensures !CompareWare(w, sortBy, b, a) && !CompareWare(w, sortBy, c, b) ==> !CompareWare(w, sortBy, c, a)
    ensures CompareWare(w, sortBy, a, b) ==> !CompareWare(w, sortBy, b, a)
  {
    hide Before, Rank, CompareWare;
    var x, y, z := Rank(w, sortBy, a), Rank(w, sortBy, b), Rank(w, sortBy, c);
    CompareIsRank(w, sortBy, a, a);
    CompareIsRank(w, sortBy, a, b);
    CompareIsRank(w, sortBy, b, a);
    CompareIsRank(w, sortBy, b, c);
    CompareIsRank(w, sortBy, c, b);
    CompareIsRank(w, sortBy, a, c);
    CompareIsRank(w, sortBy, c, a);
    BeforeTotal(x, x);
    BeforeTotal(x, y);
    BeforeTotal(y, z);
    BeforeTotal(x, z);
    RankTrans(x, y, z);
    RankTrans(z, y, x);
  }

  lemma RankTrans(x: seq<int>, y: seq<int>, z: seq<int>)
    ensures !Before(y, x) && !Before(z, y) ==> !Before(z, x)
  {
    if AtMost(x, y) && AtMost(y, z) {
      AtMostTrans(x, y, z);
    }
  }

  ghost predicate Sorted(w: World, sortBy: Mode, xs: seq<Ware>)
    requires AllKnown(w, xs)
  {
    forall i, j :: 0 <= i < j < |xs| ==> !CompareWare(w, sortBy, xs[j], xs[i])
  }

  /** A stand-in for `std::sort`: any list with the same packets in this order will do. */
  function Insert(w: World, sortBy: Mode, x: Ware, xs: seq<Ware>): (r: seq<Ware>)
    requires KnownGood(w, x) && AllKnown(w, xs)
    ensures multiset(r) == multiset(xs) + multiset{x} && AllKnown(w, r)
  {
    if |xs| == 0 then [x]
    else
      assert xs == [xs[0]] + xs[1..];
      assert KnownGood(w, xs[0]);
      if CompareWare(w, sortBy, xs[0], x) then [xs[0]] + Insert(w, sortBy, x, xs[1..]) else [x] + xs
  }

  function SortWares(w: World, sortBy: Mode, xs: seq<Ware>): (r: seq<Ware>)
    requires AllKnown(w, xs)
    ensures multiset(r) == multiset(xs) && AllKnown(w, r)
  {
    if |xs| == 0 then []
    else
      assert xs == [xs[0]] + xs[1..];
      Insert(w, sortBy, xs[0], SortWares(w, sortBy, xs[1..]))
  }

  lemma SortedCons(w: World, sortBy: Mode, x: Ware, t: seq<Ware>)
    requires KnownGood(w, x) && AllKnown(w, t) && Sorted(w, sortBy, t)
    requires forall j :: 0 <= j < |t| ==> !CompareWare(w, sortBy, t[j], x)
    ensures AllKnown(w, [x] + t) && Sorted(w, sortBy, [x] + t)
  {
    hide CompareWare, KnownGood;
  }

  lemma {:induction false} InsertSorted(w: World, sortBy: Mode, x: Ware, xs: seq<Ware>)
    requires KnownGood(w, x) && AllKnown(w, xs) && Sorted(w, sortBy, xs)
    ensures Sorted(w, sortBy, Insert(w, sortBy, x, xs))
  {
    hide CompareWare;
    if |xs| > 0 {
      if CompareWare(w, sortBy, xs[0], x) {
        InsertSorted(w, sortBy, x, xs[1..]);
        StillFirst(w, sortBy, x, xs);
        SortedCons(w, sortBy, xs[0], Insert(w, sortBy, x, xs[1..]));
      } else {
        NewFirst(w, sortBy, x, xs);
        SortedCons(w, sortBy, x, xs);
      }
    }
  }

  lemma StillFirst(w: World, sortBy: Mode, x: Ware, xs: seq<Ware>)
    requires KnownGood(w, x) && AllKnown(w, xs) && Sorted(w, sortBy, xs) && |xs| > 0 && CompareWare(w, sortBy, xs[0], x)
    ensures forall j :: 0 <= j < |Insert(w, sortBy, x, xs[1..])| ==>
      !CompareWare(w, sortBy, Insert(w, sortBy, x, xs[1..])[j], xs[0])
  {
    hide CompareWare, Insert;
    var t, rest := Insert(w, sortBy, x, xs[1..]), xs[1..];
    forall j | 0 <= j < |t|
      ensures !CompareWare(w, sortBy, t[j], xs[0])
    {
      StrictWeakOrder(w, sortBy, xs[0], x, x);
      assert t[j] in multiset(t);
      assert t[j] == x || t[j] in multiset(rest);
      assert t[j] == x || t[j] in rest;
    }
  }

  lemma NewFirst(w: World, sortBy: Mode, x: Ware, xs: seq<Ware>)
    requires KnownGood(w, x) && AllKnown(w, xs) && Sorted(w, sortBy, xs) && |xs| > 0
    requires !CompareWare(w, sortBy, xs[0], x)
    ensures forall j :: 0 <= j < |xs| ==> !CompareWare(w, sortBy, xs[j], x)
  {
    hide CompareWare;
    forall j | 0 <= j < |xs|
      ensures !CompareWare(w, sortBy, xs[j], x)
    {
      StrictWeakOrder(w, sortBy, x, xs[0], xs[j]);
      StrictWeakOrder(w, sortBy, xs[j], xs[j], xs[j]);
    }
  }

  lemma {:induction false} SortWaresSorted(w: World, sortBy: Mode, xs: seq<Ware>)
    requires AllKnown(w, xs)
    ensures Sorted(w, sortBy, SortWares(w, sortBy, xs))
  {
    if |xs| > 0 {
      SortWaresSorted(w, sortBy, xs[1..]);
      InsertSorted(w, sortBy, xs[0], SortWares(w, sortBy, xs[1..]));
    }
  }

  // ---------- the lines ----------

  /** A line of the list: a heading that names a good or its category, with a total, or the amount of one packet. */
  datatype Line = Heading(good: nat, sum: nat) | Detail(index: nat, amount: nat, maxed: bool)

  function Headings(ls: seq<Line>): (hs: seq<Line>)
    ensures forall i :: 0 <= i < |hs| ==> hs[i].Heading?
  {
    if |ls| == 0 then [] else Headings(ls[..|ls| - 1]) + if ls[|ls| - 1].Heading? then [ls[|ls| - 1]] else []
  }

  function Details(ls: seq<Line>): seq<Line> {
    if |ls| == 0 then [] else Details(ls[..|ls| - 1]) + if ls[|ls| - 1].Detail? then [ls[|ls| - 1]] else []
  }

  function DetailOf(x: Ware): Line {
    Detail(x.index, x.amount, x.amount == LIMIT)
  }

  lemma LinesSnoc(ls: seq<Line>, l: Line)
    ensures Headings(ls + [l]) == if l.Heading? then Headings(ls) + [l] else Headings(ls)
    ensures Details(ls + [l]) == if l.Detail? then Details(ls) + [l] else Details(ls)
  {
    assert (ls + [l])[..|ls|] == ls;
  }

  lemma {:induction false} HeadingsConcat(a: seq<Line>, b: seq<Line>)
    ensures Headings(a + b) == Headings(a) + Headings(b)
  {
    if |b| == 0 {
      assert a + b == a;
    } else {
      assert (a + b)[..|a + b| - 1] == a + b[..|b| - 1];
      HeadingsConcat(a, b[..|b| - 1]);
    }
  }

  function CatgOf(w: World, x: Ware): nat
    requires KnownGood(w, x)
  {
    w.goods[x.index].catg
  }

  // ---------- what the two loops make of a list ----------

  /** The packets from `i` on up to the next category, as the inner loop sees it. */
  function RunSum(w: World, list: seq<Ware>, i: nat, lastIndex: int, lastCatg: int): nat
    requires AllKnown(w, list) && i <= |list|
    decreases |list| - i
  {
    if i == |list| || (lastIndex != list[i].index && lastCatg != CatgOf(w, list[i])) then 0
    else list[i].amount + RunSum(w, list, i + 1, lastIndex, lastCatg)
  }

  /** `last_ware_catg` after a heading for this packet: special goods are told apart by their index. */
  function CatgMark(w: World, x: Ware): int
    requires KnownGood(w, x)
  {
    if CatgOf(w, x) != 0 then CatgOf(w, x) else -1
  }

  /** The heading for a new category. */
  function NewHeading(w: World, list: seq<Ware>, lost: seq<nat>, j: nat): (l: Line)
    requires AllKnown(w, list) && j < |list|
    ensures l.Heading? && l.good == list[j].index
  {
    var x := list[j];
    Heading(x.index, Lost(lost, CatgIndex(w, x)) + RunSum(w, list, j, x.index, CatgMark(w, x)))
  }

  /** The lines for the packets from `j` on. */
  function Lines(w: World, list: seq<Ware>, lost: seq<nat>, j: nat, lastIndex: int, lastCatg: int): seq<Line>
    requires AllKnown(w, list) && j <= |list|
    decreases |list| - j
  {
    if j == |list| then []
    else
      var x := list[j];
      if lastIndex != x.index && lastCatg != CatgOf(w, x) then
        [NewHeading(w, list, lost, j), DetailOf(x)] + Lines(w, list, lost, j + 1, x.index, CatgMark(w, x))
      else [DetailOf(x)] + Lines(w, list, lost, j + 1, lastIndex, lastCatg)
  }

  lemma LinesNext(w: World, list: seq<Ware>, lost: seq<nat>, j: nat, lastIndex: int, lastCatg: int)
    requires AllKnown(w, list) && j < |list|
    ensures var x := list[j];
      Lines(w, list, lost, j, lastIndex, lastCatg) ==
        if lastIndex != x.index && lastCatg != CatgOf(w, x) then
          [NewHeading(w, list, lost, j), DetailOf(x)] + Lines(w, list, lost, j + 1, x.index, CatgMark(w, x))
        else [DetailOf(x)] + Lines(w, list, lost, j + 1, lastIndex, lastCatg)
  {
  }

  lemma NoMoreLines(w: World, list: seq<Ware>, lost: seq<nat>, lastIndex: int, lastCatg: int)
    requires AllKnown(w, list)
    ensures Lines(w, list, lost, |list|, lastIndex, lastCatg) == []
  {
  }

  lemma Assoc(ls: seq<Line>, l: Line, d: Line, rest: seq<Line>)
    ensures ls + ([l, d] + rest) == ls + [l] + [d] + rest && ls + ([d] + rest) == ls + [d] + rest
  {
  }

  /** The inner loop. */
  method SumFrom(w: World, list: seq<Ware>, lost: seq<nat>, j: nat, lastIndex: int, lastCatg: int) returns (sum: nat)
    requires AllKnown(w, list) && j < |list|
    ensures sum == Lost(lost, CatgIndex(w, list[j])) + RunSum(w, list, j, lastIndex, lastCatg)
  {
    sum := Lost(lost, CatgIndex(w, list[j]));
    ghost var whole := sum + RunSum(w, list, j, lastIndex, lastCatg);
    var i := j;
    while i < |list|
      invariant j <= i <= |list| && sum + RunSum(w, list, i, lastIndex, lastCatg) == whole
    {
      var ware := list[i];
      if lastIndex != ware.index {
        if lastCatg != CatgOf(w, ware) {
          break;
        }
      }
      sum := sum + ware.amount;
      i := i + 1;
    }
  }

  /** The second part of `sort_freight`, without a list of capacities: headings and details. */
  method PrintList(w: World, list: seq<Ware>, lost: seq<nat>) returns (ls: seq<Line>)
    requires AllKnown(w, list)
    ensures ls == Lines(w, list, lost, 0, -1, -1)
  {
    hide KnownGood, RunSum, Lost, Lines, CatgMark;
    ls := [];
    var lastIndex: int, lastCatg: int := -1, -1;
    var j := 0;
    assert ls + Lines(w, list, lost, 0, -1, -1) == Lines(w, list, lost, 0, -1, -1);
    while j < |list|
      invariant j <= |list| && ls + Lines(w, list, lost, j, lastIndex, lastCatg) == Lines(w, list, lost, 0, -1, -1)
    {
      var ware := list[j];
      LinesNext(w, list, lost, j, lastIndex, lastCatg);
      if lastIndex != ware.index && lastCatg != CatgOf(w, ware) {
        Assoc(ls, NewHeading(w, list, lost, j), DetailOf(ware),
          Lines(w, list, lost, j + 1, ware.index, CatgMark(w, ware)));
        lastIndex := ware.index;
        lastCatg := CatgMark(w, ware);
        var sum := SumFrom(w, list, lost, j, lastIndex, lastCatg);
        ls := ls + [Heading(ware.index, sum)];
      } else {
        Assoc(ls, DetailOf(ware), DetailOf(ware), Lines(w, list, lost, j + 1, lastIndex, lastCatg));
      }
      ls := ls + [DetailOf(ware)];
      j := j + 1;
    }
    NoMoreLines(w, list, lost, lastIndex, lastCatg);
    assert ls + [] == ls;
  }

  /** The first `n` packets have their lines, in order. */
  ghost predicate Detailed(list: seq<Ware>, n: nat, ds: seq<Line>) {
    |ds| == n <= |list| && forall k :: 0 <= k < n ==> ds[k] == DetailOf(list[k])
  }

  lemma DetailedNext(list: seq<Ware>, n: nat, ls: seq<Line>)
    requires n < |list| && Detailed(list, n, Details(ls))
    ensures Detailed(list, n + 1, Details(ls + [DetailOf(list[n])]))
  {
    hide Details;
    LinesSnoc(ls, DetailOf(list[n]));
  }

  /** Every packet has its line, in order, whatever the goods are. */
  lemma {:induction false} LinesDetails(w: World, list: seq<Ware>, lost: seq<nat>, j: nat, lastIndex: int,
                                        lastCatg: int, ls: seq<Line>)
    requires AllKnown(w, list) && j <= |list|
    requires Detailed(list, j, Details(ls))
    ensures Detailed(list, |list|, Details(ls + Lines(w, list, lost, j, lastIndex, lastCatg)))
    decreases |list| - j
  {
    hide Details, Detailed, KnownGood, Lines, NewHeading, CatgMark;
    if j == |list| {
      NoMoreLines(w, list, lost, lastIndex, lastCatg);
      assert ls + [] == ls;
    } else {
      var x, d := list[j], DetailOf(list[j]);
      LinesNext(w, list, lost, j, lastIndex, lastCatg);
      if lastIndex != x.index && lastCatg != CatgOf(w, x) {
        var l := NewHeading(w, list, lost, j);
        LinesSnoc(ls, l);
        DetailedNext(list, j, ls + [l]);
        Assoc(ls, l, d, Lines(w, list, lost, j + 1, x.index, CatgMark(w, x)));
        LinesDetails(w, list, lost, j + 1, x.index, CatgMark(w, x), ls + [l] + [d]);
      } else {
        DetailedNext(list, j, ls);
        Assoc(ls, d, d, Lines(w, list, lost, j + 1, lastIndex, lastCatg));
        LinesDetails(w, list, lost, j + 1, lastIndex, lastCatg, ls + [d]);
      }
    }
  }
}
