/** The same sums in symbol order and in sorted order: the symbols of a table of counts, each listed once. */
module SymbolOrder {
  import opened Bits
  import opened Canonical
  import opened MergeQueues
  import opened OptimalCode

  function Select(vals: seq<nat>, idx: seq<nat>): (r: seq<nat>)
    requires forall i :: 0 <= i < |idx| ==> idx[i] < |vals|
    ensures |r| == |idx| && forall i :: 0 <= i < |idx| ==> r[i] == vals[idx[i]]
  {
    seq(|idx|, i requires 0 <= i < |idx| => vals[idx[i]])
  }

  ghost predicate Distinct(idx: seq<nat>) {
    forall i, j :: 0 <= i < j < |idx| ==> idx[i] != idx[j]
  }

  lemma SumUpdate(s: seq<nat>, i: nat, v: nat)
    requires i < |s|
    ensures Sum(s[i := v]) + s[i] == Sum(s) + v
  {
    hide Sum;
    SumSplit(s, i);
    SumSplit(s[i := v], i);
    assert s[i := v][..i] == s[..i];
    SumHead(s, i);
    SumHead(s[i := v], i);
    assert s[i := v][i + 1..] == s[i + 1..];
  }

  lemma {:induction false} SumZero(s: seq<nat>)
    requires forall i :: 0 <= i < |s| ==> s[i] == 0
    ensures Sum(s) == 0
  {
    if |s| > 0 {
      SumZero(s[1..]);
    }
  }

  /** Selected values add up to no more than all, and to all of it when the others are 0. */
  lemma {:induction false} SelectSum(vals: seq<nat>, idx: seq<nat>)
    requires (forall i :: 0 <= i < |idx| ==> idx[i] < |vals|) && Distinct(idx)
    ensures Sum(Select(vals, idx)) <= Sum(vals)
    ensures (forall v :: 0 <= v < |vals| && v !in idx ==> vals[v] == 0) ==> Sum(Select(vals, idx)) == Sum(vals)
    decreases |idx|
  {
    hide Sum;
    if |idx| == 0 {
      assert Select(vals, idx) == [];
      SumNone();
      if forall v :: 0 <= v < |vals| && v !in idx ==> vals[v] == 0 {
        SumZero(vals);
      }
    } else {
      var n := |idx| - 1;
      var front, k := idx[..n], idx[n];
      var rest := vals[k := 0];
      SelectSum(rest, front);
      assert Select(rest, front) == Select(vals, front);
      assert Select(vals, idx) == Select(vals, front) + [vals[k]];
      SumConcat(Select(vals, front), [vals[k]]);
      SumOne(vals[k]);
      SumUpdate(vals, k, 0);
      if forall v :: 0 <= v < |vals| && v !in idx ==> vals[v] == 0 {
        forall v | 0 <= v < |rest| && v !in front
          ensures rest[v] == 0
        {
          if v != k {
            assert v !in idx;
          }
        }
      }
    }
  }

  // ---------- sums over symbols ----------

  function Indicator(s: seq<nat>, l: nat): (r: seq<nat>)
    ensures |r| == |s| && forall i :: 0 <= i < |s| ==> r[i] == if s[i] == l then 1 else 0
  {
    seq(|s|, i requires 0 <= i < |s| => if s[i] == l then 1 else 0)
  }

  lemma {:induction false} CountIsSum(s: seq<nat>, n: nat, l: nat)
    requires n <= |s|
    ensures CountTo(s, n, l) == Sum(Indicator(s, l)[..n])
  {
    hide Sum;
    if n == 0 {
      SumNone();
    } else {
      CountIsSum(s, n - 1, l);
      var r := Indicator(s, l);
      assert r[..n] == r[..n - 1] + [r[n - 1]];
      SumConcat(r[..n - 1], [r[n - 1]]);
      SumOne(r[n - 1]);
    }
  }

  function Units(lens: seq<nat>, m: nat): (r: seq<nat>)
    requires UpTo(lens, m)
    ensures |r| == |lens| && forall i :: 0 <= i < |lens| ==> r[i] == Pow2(m - lens[i])
  {
    seq(|lens|, i requires 0 <= i < |lens| => Pow2(m - lens[i]))
  }

  lemma {:induction false} KraftIsSum(lens: seq<nat>, m: nat)
    requires UpTo(lens, m)
    ensures Kraft(lens, m) == Sum(Units(lens, m))
  {
    hide Pow2;
    if |lens| > 0 {
      KraftIsSum(lens[1..], m);
      assert Units(lens, m)[1..] == Units(lens[1..], m);
    }
  }

  function Products(f: seq<nat>, lens: seq<nat>): (r: seq<nat>)
    requires |f| == |lens|
    ensures |r| == |f| && forall i :: 0 <= i < |f| ==> r[i] == f[i] * lens[i]
  {
    seq(|f|, i requires 0 <= i < |f| => f[i] * lens[i])
  }

  lemma {:induction false} CostIsSum(f: seq<nat>, lens: seq<nat>)
    requires |f| == |lens|
    ensures Cost(f, lens) == Sum(Products(f, lens))
  {
    if |f| > 0 {
      CostIsSum(f[1..], lens[1..]);
      assert Products(f, lens)[1..] == Products(f[1..], lens[1..]);
    }
  }

  /** Leaving out symbols leaves a code. */
  lemma SelectCode(r: seq<nat>, idx: seq<nat>, m: nat)
    requires (forall i :: 0 <= i < |idx| ==> idx[i] < |r|) && Distinct(idx) && IsCode(r, m)
    ensures IsCode(Select(r, idx), m)
  {
    hide Kraft, Sum, Pow2;
    KraftIsSum(r, m);
    KraftIsSum(Select(r, idx), m);
    SelectSum(Units(r, m), idx);
    assert Select(Units(r, m), idx) == Units(Select(r, idx), m);
  }

  /** Symbols that do not occur cost nothing. */
  lemma SelectCost(f: seq<nat>, r: seq<nat>, idx: seq<nat>)
    requires |f| == |r| && (forall i :: 0 <= i < |idx| ==> idx[i] < |r|) && Distinct(idx)
    requires forall v :: 0 <= v < |f| && v !in idx ==> f[v] == 0
    ensures Cost(Select(f, idx), Select(r, idx)) == Cost(f, r)
  {
    hide Cost, Sum;
    CostIsSum(f, r);
    CostIsSum(Select(f, idx), Select(r, idx));
    SelectSum(Products(f, r), idx);
    assert Select(Products(f, r), idx) == Products(Select(f, idx), Select(r, idx));
  }

  lemma SelectCount(s: seq<nat>, idx: seq<nat>, l: nat)
    requires (forall i :: 0 <= i < |idx| ==> idx[i] < |s|) && Distinct(idx) && l > 0
    requires forall v :: 0 <= v < |s| && v !in idx ==> s[v] == 0
    ensures CountTo(Select(s, idx), |idx|, l) == Count(s, l)
  {
    hide CountTo, Sum;
    var t := Select(s, idx);
    CountIsSum(s, |s|, l);
    CountIsSum(t, |t|, l);
    SelectSum(Indicator(s, l), idx);
    assert Select(Indicator(s, l), idx) == Indicator(t, l);
    assert Indicator(s, l)[..|s|] == Indicator(s, l) && Indicator(t, l)[..|t|] == Indicator(t, l);
  }

  /** Codes of one bit. */
  lemma {:induction false} OneBitEach(f: seq<nat>, lens: seq<nat>)
    requires |f| == |lens| && forall i :: 0 <= i < |lens| ==> lens[i] <= 1
    ensures Cost(f, lens) <= Sum(f)
  {
    if |f| > 0 {
      OneBitEach(f[1..], lens[1..]);
      assert f[0] * lens[0] <= f[0];
    }
  }
}
