/** How goods get their category indices (src/simutrans/builder/goods_manager.cc:57-76), on which the freight list
    relies: special goods first, then one index for each category met. */
module GoodsCategories {
  import opened Freight
  import opened FreightList
  import opened FreightHeadings
  import opened FreightExact

  predicate Special(catg: nat) {
    catg == 0
  }

  function GoodsOf(catgs: seq<nat>, indices: seq<nat>): (gs: seq<Good>)
    requires |catgs| == |indices|
    ensures |gs| == |catgs| && forall i :: 0 <= i < |gs| ==> gs[i] == Good(catgs[i], indices[i])
  {
    seq(|catgs|, i requires 0 <= i < |catgs| => Good(catgs[i], indices[i]))
  }

  /** The special goods among the first `k`. */
  function CountSpecial(catgs: seq<nat>, k: nat): (n: nat)
    requires k <= |catgs|
    ensures n <= k
  {
    if k == 0 then 0 else CountSpecial(catgs, k - 1) + if Special(catgs[k - 1]) then 1 else 0
  }

  function Specials(catgs: seq<nat>): nat {
    CountSpecial(catgs, |catgs|)
  }

  predicate Small(catgs: seq<nat>) {
    |catgs| < 255 && forall i :: 0 <= i < |catgs| ==> catgs[i] < 255
  }

  /** The indices of the goods from `k` on, when `table` and `next` are what the second loop has got to. */
  function Indices(catgs: seq<nat>, k: nat, table: seq<nat>, next: nat): (r: seq<nat>)
    requires k <= |catgs| && |table| == 255 && Small(catgs)
    ensures |r| == |catgs| - k
    decreases |catgs| - k
  {
    if k == |catgs| then []
    else
      var c := catgs[k];
      if Special(c) then [CountSpecial(catgs, k)] + Indices(catgs, k + 1, table, next)
      else if table[c] == 0 then [next] + Indices(catgs, k + 1, table[c := next], next + 1)
      else [table[c]] + Indices(catgs, k + 1, table, next)
  }

  function NoIndices(): (table: seq<nat>)
    ensures |table| == 255 && forall c :: 0 <= c < 255 ==> table[c] == 0
  {
    seq(255, _ => 0)
  }

  /** The index of each good. */
  function AllIndices(catgs: seq<nat>): (r: seq<nat>)
    requires Small(catgs)
    ensures |r| == |catgs|
  {
    Indices(catgs, 0, NoIndices(), Specials(catgs))
  }

  // ---------- the two loops ----------

  lemma IndicesNext(catgs: seq<nat>, k: nat, table: seq<nat>, next: nat)
    requires k < |catgs| && |table| == 255 && Small(catgs)
    ensures var c := catgs[k];
      Indices(catgs, k, table, next) ==
        if Special(c) then [CountSpecial(catgs, k)] + Indices(catgs, k + 1, table, next)
        else if table[c] == 0 then [next] + Indices(catgs, k + 1, table[c := next], next + 1)
        else [table[c]] + Indices(catgs, k + 1, table, next)
  {
  }

  /** The index of good `i` has been stored. */
  lemma Moved(was: seq<nat>, now: seq<nat>, i: nat, x: nat, rest: seq<nat>, whole: seq<nat>)
    requires i < |was| && now == was[i := x] && was[..i] + ([x] + rest) == whole
    ensures now[..i + 1] + rest == whole
  {
    assert now[..i + 1] == was[..i] + [x];
  }

  /** `goods_manager_t::successfully_loaded`, the part about categories. */
  method AssignCategories(catgs: seq<nat>) returns (indices: seq<nat>)
    requires Small(catgs)
    ensures |indices| == |catgs| && indices == AllIndices(catgs)
    ensures forall i :: 0 <= i < |indices| ==> indices[i] < |catgs|
    ensures forall none :: Categorised(GoodsOf(catgs, indices), none) <==> OwnIndices(catgs, none)
    ensures forall none :: Contiguous(GoodsOf(catgs, indices), none) <==> !Separated(catgs, none)
  {
    hide CountSpecial, Indices, NoIndices, OwnIndices, Categorised, Contiguous, Separated, GoodsOf;
    var next: nat;
    indices, next := AssignSpecials(catgs);
    var table: seq<nat> := NoIndices();
    ghost var whole := AllIndices(catgs);
    assert indices[..0] + Indices(catgs, 0, table, next) == whole;
    var i := 0;
    while i < |catgs|
      invariant i <= |catgs| == |indices| && |table| == 255
      invariant forall k :: i <= k < |catgs| && Special(catgs[k]) ==> indices[k] == CountSpecial(catgs, k)
      invariant indices[..i] + Indices(catgs, i, table, next) == whole
    {
      ghost var was := indices;
      IndicesNext(catgs, i, table, next);
      var catg := catgs[i];
      if !Special(catg) {
        if table[catg] == 0 {
          indices := indices[i := next];
          table, next := table[catg := next], next + 1;
        } else {
          indices := indices[i := table[catg]];
        }
      }
      Moved(was, indices, i, indices[i], Indices(catgs, i + 1, table, next), whole);
      i := i + 1;
    }
    assert indices[..i] + [] == indices;
    IndicesRight(catgs);
  }

  /** The first loop: special goods are numbered. */
  method AssignSpecials(catgs: seq<nat>) returns (indices: seq<nat>, next: nat)
    ensures |indices| == |catgs| && next == Specials(catgs)
    ensures forall k :: 0 <= k < |catgs| && Special(catgs[k]) ==> indices[k] == CountSpecial(catgs, k)
  {
    next := 0;
    indices := seq(|catgs|, _ => 0);
    var i := 0;
    while i < |catgs|
      invariant i <= |catgs| == |indices| && next == CountSpecial(catgs, i)
      invariant forall a :: 0 <= a < i && Special(catgs[a]) ==> indices[a] == CountSpecial(catgs, a)
    {
      if Special(catgs[i]) {
        indices, next := indices[i := next], next + 1;
      }
      i := i + 1;
    }
  }

  // ---------- what the indices are worth ----------

  ghost predicate AnySpecial(catgs: seq<nat>) {
    exists i :: 0 <= i < |catgs| && Special(catgs[i])
  }

  /** No other good is of the category of the first one, or there are special goods. */
  ghost predicate OwnIndices(catgs: seq<nat>, none: nat) {
    AnySpecial(catgs) || none == 0 || forall i :: 0 < i < |catgs| && i != none ==> catgs[i] != catgs[0]
  }

  /** Another category, that of `m`, is met between the first good and the next one of its category. */
  ghost predicate Separated(catgs: seq<nat>, none: nat) {
    !AnySpecial(catgs) && none != 0 && exists b, m, j :: Separates(catgs, none, b, m, j)
  }

  ghost predicate Separates(catgs: seq<nat>, none: nat, b: nat, m: nat, j: nat) {
    && 0 < b < |catgs| && b != none && catgs[b] == catgs[0]
    && m < |catgs| && m != none && 0 < j < |catgs| && catgs[m] == catgs[j]
    && forall i :: 0 < i <= j ==> catgs[i] != catgs[0]
  }

  lemma {:induction false} SpecialsCount(catgs: seq<nat>, a: nat, b: nat)
    requires a < b <= |catgs|
    ensures CountSpecial(catgs, a) + (if Special(catgs[a]) then 1 else 0) <= CountSpecial(catgs, b)
  {
    if a < b - 1 {
      SpecialsCount(catgs, a, b - 1);
    }
  }

  lemma {:induction false} NoSpecials(catgs: seq<nat>, k: nat)
    requires k <= |catgs|
    ensures CountSpecial(catgs, k) == 0 <==> forall i :: 0 <= i < k ==> !Special(catgs[i])
  {
    if k > 0 {
      NoSpecials(catgs, k - 1);
    }
  }

  /** What the goods `done` have got: special ones are below the indices in `table`.  A category whose first index is 0
      is not remembered, which can only happen to the very first of the goods. */
  ghost predicate Assigned(catgs: seq<nat>, done: seq<nat>, table: seq<nat>, next: nat)
    requires Small(catgs) && |done| <= |catgs| && |table| == 255
  {
    var k, s := |done|, Specials(catgs);
    && s <= next <= s + k - CountSpecial(catgs, k) && (k == 0 ==> next == s)
    && (s == 0 < k ==> next > 0 && done[0] == 0)
    && (forall i :: 0 <= i < k && Special(catgs[i]) ==> done[i] == CountSpecial(catgs, i))
    && (forall i :: 0 <= i < k && !Special(catgs[i]) ==>
          s <= done[i] < next && (table[catgs[i]] == done[i] || i == s == 0))
    && (forall i :: 0 <= i < k && !Special(catgs[i]) && (i > 0 || s > 0) ==> done[i] > 0)
    && (forall c :: 0 <= c < 255 && table[c] != 0 ==> s <= table[c] < next)
    && (forall c, d :: 0 <= c < d < 255 && table[c] != 0 && table[d] != 0 ==> table[c] != table[d])
  }

  /** The first good is left out of account, as it is not remembered. */
  ghost predicate FirstMet(catgs: seq<nat>, y: nat)
    requires y < |catgs|
  {
    forall i :: 0 < i < y ==> catgs[i] != catgs[y]
  }

  /** Without special goods, categories are numbered in the order in which they are met. */
  ghost predicate InOrder(catgs: seq<nat>, done: seq<nat>, table: seq<nat>)
    requires |done| <= |catgs| && |table| == 255
  {
    && (forall c :: 0 <= c < 255 && table[c] != 0 ==> exists i :: 0 < i < |done| && catgs[i] == c)
    && (forall x, y :: 0 <= x < y < |done| && FirstMet(catgs, y) ==> done[x] < done[y])
  }

  lemma AssignSpecial(catgs: seq<nat>, done: seq<nat>, table: seq<nat>, next: nat)
    requires Small(catgs) && |done| < |catgs| && |table| == 255 && Assigned(catgs, done, table, next)
    requires Special(catgs[|done|])
    ensures Assigned(catgs, done + [CountSpecial(catgs, |done|)], table, next)
  {
    hide CountSpecial;
    SpecialsNext(catgs, |done|);
    SpecialsCount(catgs, |done|, |catgs|);
  }

  lemma AssignOld(catgs: seq<nat>, done: seq<nat>, table: seq<nat>, next: nat)
    requires Small(catgs) && |done| < |catgs| && |table| == 255 && Assigned(catgs, done, table, next)
    requires !Special(catgs[|done|]) && table[catgs[|done|]] != 0
    ensures Assigned(catgs, done + [table[catgs[|done|]]], table, next)
  {
    hide CountSpecial;
    SpecialsNext(catgs, |done|);
  }

  lemma SpecialsNext(catgs: seq<nat>, k: nat)
    requires k < |catgs|
    ensures CountSpecial(catgs, k + 1) == CountSpecial(catgs, k) + if Special(catgs[k]) then 1 else 0
  {
  }

  lemma OldInOrder(catgs: seq<nat>, done: seq<nat>, table: seq<nat>)
    requires Small(catgs) && |done| < |catgs| && |table| == 255 && InOrder(catgs, done, table)
    requires table[catgs[|done|]] != 0
    ensures InOrder(catgs, done + [table[catgs[|done|]]], table)
  {
    var more := done + [table[catgs[|done|]]];
    forall c | 0 <= c < 255 && table[c] != 0
      ensures exists i :: 0 < i < |more| && catgs[i] == c
    {
      var i :| 0 < i < |done| && catgs[i] == c;
    }
    assert !FirstMet(catgs, |done|);
  }

  lemma NewInOrder(catgs: seq<nat>, done: seq<nat>, table: seq<nat>, next: nat)
    requires Small(catgs) && |done| < |catgs| && |table| == 255 && InOrder(catgs, done, table)
    requires (forall i :: 0 <= i < |done| ==> done[i] < next) && (|done| == 0 ==> next == 0)
    ensures InOrder(catgs, done + [next], table[catgs[|done|] := next])
  {
    var more, table' := done + [next], table[catgs[|done|] := next];
    forall c | 0 <= c < 255 && table'[c] != 0
      ensures exists i :: 0 < i < |more| && catgs[i] == c
    {
      if c != catgs[|done|] {
        var i :| 0 < i < |done| && catgs[i] == c;
      }
    }
  }

  lemma AssignNew(catgs: seq<nat>, done: seq<nat>, table: seq<nat>, next: nat)
    requires Small(catgs) && |done| < |catgs| && |table| == 255 && Assigned(catgs, done, table, next)
    requires !Special(catgs[|done|]) && table[catgs[|done|]] == 0
    ensures Assigned(catgs, done + [next], table[catgs[|done|] := next], next + 1)
    ensures Specials(catgs) == 0 ==>
      (|done| == 0 ==> next == 0) && forall i :: 0 <= i < |done| ==> done[i] < next
  {
    hide CountSpecial;
    SpecialsNext(catgs, |done|);
    if Specials(catgs) == 0 {
      NoSpecials(catgs, |catgs|);
    }
  }

  lemma {:induction false} AssignRest(catgs: seq<nat>, done: seq<nat>, table: seq<nat>, next: nat)
    returns (table': seq<nat>, next': nat)
    requires Small(catgs) && |done| <= |catgs| && |table| == 255 && Assigned(catgs, done, table, next)
    requires Specials(catgs) == 0 ==> InOrder(catgs, done, table)
    ensures |table'| == 255 && Assigned(catgs, done + Indices(catgs, |done|, table, next), table', next')
    ensures Specials(catgs) == 0 ==> InOrder(catgs, done + Indices(catgs, |done|, table, next), table')
    decreases |catgs| - |done|
  {
    hide Assigned, InOrder, CountSpecial, Indices;
    var k := |done|;
    if k == |catgs| {
      assert done + Indices(catgs, k, table, next) == done;
      return table, next;
    }
    var c := catgs[k];
    IndicesNext(catgs, k, table, next);
    if Special(c) {
      AssignSpecial(catgs, done, table, next);
      NoSpecials(catgs, |catgs|);
      Joined(done, CountSpecial(catgs, k), Indices(catgs, k + 1, table, next));
      table', next' := AssignRest(catgs, done + [CountSpecial(catgs, k)], table, next);
    } else if table[c] == 0 {
      AssignNew(catgs, done, table, next);
      if Specials(catgs) == 0 {
        NewInOrder(catgs, done, table, next);
      }
      Joined(done, next, Indices(catgs, k + 1, table[c := next], next + 1));
      table', next' := AssignRest(catgs, done + [next], table[c := next], next + 1);
    } else {
      AssignOld(catgs, done, table, next);
      if Specials(catgs) == 0 {
        OldInOrder(catgs, done, table);
      }
      Joined(done, table[c], Indices(catgs, k + 1, table, next));
      table', next' := AssignRest(catgs, done + [table[c]], table, next);
    }
  }

  lemma Joined(done: seq<nat>, x: nat, rest: seq<nat>)
    ensures done + ([x] + rest) == done + [x] + rest
  {
  }

  lemma AssignAll(catgs: seq<nat>) returns (table: seq<nat>, next: nat)
    requires Small(catgs)
    ensures |table| == 255 && Assigned(catgs, AllIndices(catgs), table, next)
    ensures Specials(catgs) == 0 ==> InOrder(catgs, AllIndices(catgs), table)
  {
    table, next := AssignRest(catgs, [], NoIndices(), Specials(catgs));
    assert [] + AllIndices(catgs) == AllIndices(catgs);
  }

  /** Goods other than a first one that is not remembered share their index with their category. */
  lemma SameIndex(catgs: seq<nat>, table: seq<nat>, next: nat, a: nat, b: nat)
    requires Small(catgs) && |table| == 255 && Assigned(catgs, AllIndices(catgs), table, next)
    requires a < |catgs| && b < |catgs| && (Specials(catgs) > 0 || (a > 0 && b > 0))
    ensures AllIndices(catgs)[a] == AllIndices(catgs)[b]
       <==> a == b || (!Special(catgs[a]) && catgs[a] == catgs[b])
  {
    hide AllIndices, CountSpecial;
    if a < b {
      SpecialsCount(catgs, a, b);
      SpecialsCount(catgs, b, |catgs|);
    } else if b < a {
      SpecialsCount(catgs, b, a);
      SpecialsCount(catgs, a, |catgs|);
    }
    SpecialsCount(catgs, a, |catgs|);
  }

  lemma FirstIndex(catgs: seq<nat>, table: seq<nat>, next: nat, b: nat)
    requires Small(catgs) && |table| == 255 && Assigned(catgs, AllIndices(catgs), table, next)
    requires Specials(catgs) == 0 && 0 < b < |catgs|
    ensures AllIndices(catgs)[0] == 0 < AllIndices(catgs)[b]
    ensures !Special(catgs[0]) && !Special(catgs[b]) && !AnySpecial(catgs)
  {
    hide AllIndices, CountSpecial;
    NoSpecials(catgs, |catgs|);
  }

  lemma SpecialsThere(catgs: seq<nat>)
    ensures Specials(catgs) > 0 <==> AnySpecial(catgs)
  {
    NoSpecials(catgs, |catgs|);
  }

  lemma OwnIndicesRight(catgs: seq<nat>, none: nat)
    requires Small(catgs)
    ensures Categorised(GoodsOf(catgs, AllIndices(catgs)), none) <==> OwnIndices(catgs, none)
  {
    hide AllIndices, Assigned, AnySpecial, Specials, GoodsOf, Small;
    var indices := AllIndices(catgs);
    var gs := GoodsOf(catgs, indices);
    var table, next := AssignAll(catgs);
    SpecialsThere(catgs);
    forall a: nat, b: nat | a < |gs| && b < |gs| && (AnySpecial(catgs) || (a > 0 && b > 0))
      ensures gs[a].catgIndex == gs[b].catgIndex <==> SameCategory(gs, a, b)
    {
      SameIndex(catgs, table, next, a, b);
    }
    if !AnySpecial(catgs) {
      forall b: nat | 0 < b < |gs|
        ensures gs[0].catgIndex != gs[b].catgIndex
        ensures SameCategory(gs, 0, b) <==> catgs[b] == catgs[0]
        ensures SameCategory(gs, b, 0) <==> catgs[b] == catgs[0]
      {
        FirstIndex(catgs, table, next, b);
      }
    }
  }

  /** The first good from `from` on of a category. */
  lemma {:induction false} FirstOf(catgs: seq<nat>, from: nat, b: nat) returns (k: nat)
    requires from <= b < |catgs|
    ensures from <= k <= b && catgs[k] == catgs[b] && forall i :: from <= i < k ==> catgs[i] != catgs[b]
    decreases b - from
  {
    k := from;
    if catgs[from] != catgs[b] {
      k := FirstOf(catgs, from + 1, b);
    }
  }

  lemma SeparatedApart(catgs: seq<nat>, none: nat, b: nat, m: nat, j: nat)
    requires Small(catgs) && Specials(catgs) == 0 && none != 0 && Separates(catgs, none, b, m, j)
    ensures !Contiguous(GoodsOf(catgs, AllIndices(catgs)), none)
  {
    hide AllIndices, Assigned, AnySpecial, Specials, GoodsOf, Small, Contiguous;
    var indices := AllIndices(catgs);
    var gs := GoodsOf(catgs, indices);
    var table, next := AssignAll(catgs);
    var k := FirstOf(catgs, 1, b);
    assert FirstMet(catgs, k);
    assert j < k && m > 0;
    SameIndex(catgs, table, next, j, m);
    SameIndex(catgs, table, next, k, b);
    FirstIndex(catgs, table, next, m);
    assert indices[j] < indices[k];
    FirstIndex(catgs, table, next, b);
    FirstIndex(catgs, table, next, j);
    NotContiguous(gs, none, 0, m, b);
  }

  lemma NotContiguous(goods: seq<Good>, none: nat, a: nat, m: nat, b: nat)
    requires Listable(goods, none, a) && Listable(goods, none, m) && Listable(goods, none, b)
    requires GoodBefore(goods, a, m) && GoodBefore(goods, m, b)
    requires SameCategory(goods, a, b) && !SameCategory(goods, a, m)
    ensures !Contiguous(goods, none)
  {
  }

  lemma ApartSeparated(catgs: seq<nat>, none: nat, a: nat, m: nat, b: nat)
    requires Small(catgs) && Specials(catgs) == 0 && a < |catgs| && m < |catgs| && b < |catgs|
    requires m != none && b != none
    requires var gs := GoodsOf(catgs, AllIndices(catgs));
      GoodBefore(gs, a, m) && GoodBefore(gs, m, b) && SameCategory(gs, a, b) && !SameCategory(gs, a, m)
    ensures a == 0 && exists j :: Separates(catgs, none, b, m, j)
  {
    hide AllIndices, Assigned, AnySpecial, Specials, GoodsOf, Small;
    var indices := AllIndices(catgs);
    var gs := GoodsOf(catgs, indices);
    var table, next := AssignAll(catgs);
    if b > 0 {
      FirstIndex(catgs, table, next, b);
    }
    if m > 0 {
      FirstIndex(catgs, table, next, m);
    }
    if a > 0 {
      FirstIndex(catgs, table, next, a);
      if b > 0 {
        SameIndex(catgs, table, next, a, b);
        if m > 0 {
          SameIndex(catgs, table, next, a, m);
        }
      }
      assert false;
    }
    assert b > 0 && m > 0;
    SameIndex(catgs, table, next, m, b);
    var j := FirstOf(catgs, 1, m);
    assert FirstMet(catgs, j);
    SameIndex(catgs, table, next, j, m);
    forall i | 0 < i <= j
      ensures catgs[i] != catgs[0]
    {
      if catgs[i] == catgs[0] {
        FirstIndex(catgs, table, next, i);
        SameIndex(catgs, table, next, i, b);
      }
    }
    assert Separates(catgs, none, b, m, j);
  }

  lemma SeparatedRight(catgs: seq<nat>, none: nat)
    requires Small(catgs)
    ensures Contiguous(GoodsOf(catgs, AllIndices(catgs)), none) <==> !Separated(catgs, none)
  {
    hide AllIndices, AnySpecial, Specials, GoodsOf, Small, Separates, OwnIndices, SameCategory, GoodBefore;
    var gs := GoodsOf(catgs, AllIndices(catgs));
    SpecialsThere(catgs);
    if AnySpecial(catgs) || none == 0 {
      OwnIndicesRight(catgs, none);
      assert OwnIndices(catgs, none) by { IndicesOwn(catgs, none); }
      CategorisedContiguous(gs, none);
    } else if !Contiguous(gs, none) {
      var a: nat, m: nat, b: nat :| Listable(gs, none, a) && Listable(gs, none, m) && Listable(gs, none, b)
        && GoodBefore(gs, a, m) && GoodBefore(gs, m, b) && SameCategory(gs, a, b) && !SameCategory(gs, a, m);
      ApartSeparated(catgs, none, a, m, b);
    } else if Separated(catgs, none) {
      var b, m, j :| Separates(catgs, none, b, m, j);
      SeparatedApart(catgs, none, b, m, j);
    }
  }

  lemma IndicesOwn(catgs: seq<nat>, none: nat)
    requires AnySpecial(catgs) || none == 0
    ensures OwnIndices(catgs, none)
  {
  }

  lemma IndicesRight(catgs: seq<nat>)
    requires Small(catgs)
    ensures forall i :: 0 <= i < |catgs| ==> AllIndices(catgs)[i] < |catgs|
    ensures forall none :: Categorised(GoodsOf(catgs, AllIndices(catgs)), none) <==> OwnIndices(catgs, none)
    ensures forall none :: Contiguous(GoodsOf(catgs, AllIndices(catgs)), none) <==> !Separated(catgs, none)
  {
    hide *;
    forall none
      ensures Categorised(GoodsOf(catgs, AllIndices(catgs)), none) <==> OwnIndices(catgs, none)
      ensures Contiguous(GoodsOf(catgs, AllIndices(catgs)), none) <==> !Separated(catgs, none)
    {
      OwnIndicesRight(catgs, none);
      SeparatedRight(catgs, none);
    }
    IndicesSmall(catgs);
  }

  lemma IndicesSmall(catgs: seq<nat>)
    requires Small(catgs)
    ensures forall i :: 0 <= i < |catgs| ==> AllIndices(catgs)[i] < |catgs|
  {
    hide AllIndices, CountSpecial;
    var table, next := AssignAll(catgs);
    forall i | 0 <= i < |catgs|
      ensures AllIndices(catgs)[i] < |catgs|
    {
      SpecialsCount(catgs, i, |catgs|);
    }
  }

  // ---------- the headings ----------

  /** With these indices the headings are right whatever is on the list exactly when there is a special good, or no
      further good of the first one's category; where nothing is merged, also when nothing is met between the two. */
  lemma HeadingsByCategory(w: World, catgs: seq<nat>, mode: Mode, h: Halt)
    requires Small(catgs) && w.goods == GoodsOf(catgs, AllIndices(catgs))
    ensures AlwaysRight(w, mode, h) <==>
      if CanMerge(w, MergeMode(mode, h)) then OwnIndices(catgs, w.none) else !Separated(catgs, w.none)
  {
    hide AlwaysRight, CanMerge, AllIndices, OwnIndices, Separated, Categorised, Contiguous;
    IndicesRight(catgs);
    HeadingsExactly(w, mode, h);
  }

  // ---------- where it goes wrong ----------

  /** Without special goods the first category can come out with two indices. */
  method FirstCategoryTwice() returns (indices: seq<nat>)
    ensures indices == [0, 1, 2, 3] && !Contiguous(GoodsOf([1, 2, 3, 1], indices), 2)
  {
    var catgs := [1, 2, 3, 1];
    indices := AssignCategories(catgs);
    FirstTwice();
    assert Separates(catgs, 2, 3, 1, 1);
  }

  lemma FirstTwice()
    ensures AllIndices([1, 2, 3, 1]) == [0, 1, 2, 3] && !AnySpecial([1, 2, 3, 1])
  {
    var catgs := [1, 2, 3, 1];
    assert Specials(catgs) == 0 by { NoSpecials(catgs, 4); }
    var t1: seq<nat> := NoIndices();
    var t2 := t1[1 := 0];
    assert t2 == t1;
    var t3 := t2[2 := 1];
    var t4 := t3[3 := 2];
    assert Indices(catgs, 3, t4, 3) == [3] + Indices(catgs, 4, t4[1 := 3], 4);
    assert Indices(catgs, 2, t3, 2) == [2, 3];
    assert Indices(catgs, 1, t2, 1) == [1, 2, 3];
  }

  lemma ThreeSorted(w: World, sortBy: Mode)
    requires w.goods == GoodsOf([1, 2, 3, 1], [0, 1, 2, 3])
    ensures var list := [Packet(0, 5, 0), Packet(1, 7, 0), Packet(3, 9, 0)]; AllKnown(w, list) && Sorted(w, sortBy,
      list)
  {
    hide LessByName, LessByVia;
  }

  lemma OneLine(w: World, list: seq<Ware>, j: nat, lastIndex: int, lastCatg: int)
    requires AllKnown(w, list) && j < |list|
    requires lastIndex != list[j].index && lastCatg != CatgOf(w, list[j]) && CatgOf(w, list[j]) != 0
    requires j + 1 < |list| ==> list[j].index != list[j + 1].index && CatgOf(w, list[j]) != CatgOf(w, list[j + 1])
    ensures Headings(Lines(w, list, [], j, lastIndex, lastCatg))
         == [Heading(list[j].index, list[j].amount)] + Headings(Lines(w, list, [], j + 1, list[j].index,
           CatgOf(w, list[j])))
  {
    hide KnownGood, Headings, Lines;
    assert RunSum(w, list, j + 1, list[j].index, CatgOf(w, list[j])) == 0;
    var h, d := Heading(list[j].index, list[j].amount), DetailOf(list[j]);
    LinesNext(w, list, [], j, lastIndex, lastCatg);
    OneHeading(h, d);
    HeadingsConcat([h, d], Lines(w, list, [], j + 1, list[j].index, CatgOf(w, list[j])));
  }

  lemma NoLine(w: World, list: seq<Ware>, lastIndex: int, lastCatg: int)
    requires AllKnown(w, list)
    ensures Headings(Lines(w, list, [], |list|, lastIndex, lastCatg)) == []
  {
  }

  /** Then goods of that category get two headings, neither with their total, when another category is between. */
  lemma TwoHeadings(w: World, sortBy: Mode)
    requires w.goods == GoodsOf([1, 2, 3, 1], [0, 1, 2, 3])
    ensures var list := [Packet(0, 5, 0), Packet(1, 7, 0), Packet(3, 9, 0)];
      && AllKnown(w, list) && Sorted(w, sortBy, list) && CatgOf(w, list[0]) == CatgOf(w, list[2]) == 1
      && Headings(Lines(w, list, [], 0, -1, -1)) == [Heading(0, 5), Heading(1, 7), Heading(3, 9)]
  {
    hide Sorted, Lines, Headings;
    var list := [Packet(0, 5, 0), Packet(1, 7, 0), Packet(3, 9, 0)];
    ThreeSorted(w, sortBy);
    OneLine(w, list, 0, -1, -1);
    OneLine(w, list, 1, 0, 1);
    OneLine(w, list, 2, 1, 2);
    NoLine(w, list, 3, 1);
  }
}
