/** The order of strings that `strcmp` and the name comparisons of the ZIP reader share
    (src/external/miniz.h:5489-5497; src/simutrans/freight_list_sorter.cc:96, 115). */
module Lexicographic {

  /** Lexicographic order; a proper prefix comes first. */
  predicate Before(a: seq<int>, b: seq<int>) {
    if |b| == 0 then false
    else if |a| == 0 then true
    else if a[0] != b[0] then a[0] < b[0]
    else Before(a[1..], b[1..])
  }

  predicate AtMost(a: seq<int>, b: seq<int>) {
    !Before(b, a)
  }

  lemma {:induction false} BeforeTotal(a: seq<int>, b: seq<int>)
    ensures a != b <==> Before(a, b) || Before(b, a)
    ensures !(Before(a, b) && Before(b, a))
  {
    if |a| > 0 && |b| > 0 && a[0] == b[0] {
      BeforeTotal(a[1..], b[1..]);
      assert a == [a[0]] + a[1..] && b == [b[0]] + b[1..];
    }
  }

  lemma {:induction false} AtMostTrans(a: seq<int>, b: seq<int>, c: seq<int>)
    requires AtMost(a, b) && AtMost(b, c)
    ensures AtMost(a, c)
  {
    if |a| > 0 && |b| > 0 && |c| > 0 && a[0] == b[0] == c[0] {
      AtMostTrans(a[1..], b[1..], c[1..]);
    }
  }

  /** A common prefix does not matter. */
  lemma {:induction false} BeforeSkip(a: seq<int>, b: seq<int>, k: nat)
    requires k <= |a| && k <= |b| && a[..k] == b[..k]
    ensures Before(a, b) == Before(a[k..], b[k..])
  {
    if k == 0 {
      assert a[0..] == a && b[0..] == b;
    } else {
      assert a[..k][0] == a[0] && b[..k][0] == b[0];
      assert a[..k][1..] == a[1..][..k - 1] && b[..k][1..] == b[1..][..k - 1];
      BeforeSkip(a[1..], b[1..], k - 1);
      assert a[1..][k - 1..] == a[k..] && b[1..][k - 1..] == b[k..];
    }
  }

  /** The first difference decides, or else the length. */
  lemma FirstDifference(a: seq<int>, b: seq<int>, k: nat)
    requires k <= |a| && k <= |b| && a[..k] == b[..k]
    requires (k < |a| && k < |b|) ==> a[k] != b[k]
    ensures k < |a| && k < |b| ==> Before(a, b) == (a[k] < b[k]) && Before(b, a) == (b[k] < a[k]) && a != b
    ensures k == |a| || k == |b| ==>
      Before(a, b) == (|a| < |b|) && Before(b, a) == (|b| < |a|) && (a == b <==> |a| == |b|)
  {
    BeforeSkip(a, b, k);
    BeforeSkip(b, a, k);
    if |a| == |b| == k {
      assert a == a[..k] && b == b[..k];
    }
  }

  /** Strings ended by something smaller than their characters are compared one after the other. */
  lemma {:induction false} BeforeEnded(a: seq<int>, b: seq<int>, x: seq<int>, y: seq<int>)
    requires (forall i :: 0 <= i < |a| ==> a[i] >= 0) && forall i :: 0 <= i < |b| ==> b[i] >= 0
    ensures Before(a + [-1] + x, b + [-1] + y) == if a == b then Before(x, y) else Before(a, b)
  {
    var s, t := a + [-1] + x, b + [-1] + y;
    if |a| == 0 || |b| == 0 {
      if |a| == |b| {
        assert s[1..] == x && t[1..] == y;
      }
    } else {
      assert s[1..] == a[1..] + [-1] + x && t[1..] == b[1..] + [-1] + y;
      assert a == [a[0]] + a[1..] && b == [b[0]] + b[1..];
      BeforeEnded(a[1..], b[1..], x, y);
    }
  }

  /** Heads are compared before tails. */
  lemma BeforeCons(h: int, k: int, x: seq<int>, y: seq<int>)
    ensures Before([h] + x, [k] + y) == if h == k then Before(x, y) else h < k
  {
    assert ([h] + x)[1..] == x && ([k] + y)[1..] == y;
  }
}
