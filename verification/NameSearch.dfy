/** Finding an entry by name (src/external/miniz.h:6418-6571): binary search over the sorted index, the scan of the
    whole directory, and their agreement. */
module NameSearch {
  import opened Bits
  import opened Lexicographic
  import opened LittleEndian
  import opened ZipFormat
  import opened ZipReader
  import opened NameIndex

  const UINT: nat := 0x1_0000_0000

  datatype Outcome = Found(index: nat) | Absent | Invalid
  datatype Remark = None | Remark(text: seq<byte>)

  // ---------- the binary search ----------

  /** String lengths are kept in 32 bits. */
  function CutLength(name: seq<byte>): (s: seq<byte>)
    ensures |name| < UINT ==> s == name
  {
    name[..|name| % UINT]
  }

  /** A difference of unsigned lengths, converted to a signed integer. */
  function SignedDifference(a: nat, b: nat): (d: int)
    requires a < UINT && b < UINT
    ensures d == 0 <==> a == b
    ensures a <= MAX16 && b <= MAX16 ==> d == a - b
  {
    var u := (a - b) % UINT;
    if u < UINT / 2 then u else u - UINT
  }

  /** `mz_zip_filename_compare` */
  method FilenameCompare(dir: seq<byte>, offsets: seq<nat>, left: nat, name: seq<byte>, len: nat) returns (c: int)
    requires Indexed(dir, offsets) && left < |offsets| && len == |name| % UINT
    ensures c == 0 <==> Keys(dir, offsets)[left] == Fold(CutLength(name))
    ensures len <= MAX16 ==> (c < 0 <==> Before(Keys(dir, offsets)[left], Fold(CutLength(name))))
    ensures len <= MAX16 ==> (c > 0 <==> Before(Fold(CutLength(name)), Keys(dir, offsets)[left]))
  {
    hide Le16, RecordInside, Before;
    var a := NameAt(dir, offsets[left]);
    ghost var fa, fb := Fold(a), Fold(CutLength(name));
    var n := if |a| < len then |a| else len;
    var l, r: byte := 0, 0;
    var k := 0;
    while k < n
      invariant k <= n && fa[..k] == fb[..k]
    {
      l, r := Lower(a[k]), Lower(name[k]);
      if l != r {
        break;
      }
      assert fa[..k + 1] == fa[..k] + [fa[k]] && fb[..k + 1] == fb[..k] + [fb[k]];
      k := k + 1;
    }
    FirstDifference(fa, fb, k);
    c := if k == n then SignedDifference(|a|, len) else l - r;
  }

  /** The index holds every file once, in the order of the names. */
  ghost predicate IsIndex(dir: seq<byte>, offsets: seq<nat>, s: seq<nat>)
    requires Indexed(dir, offsets)
  {
    && InRange(s, |offsets|) && (forall k :: 0 <= k < |offsets| ==> k in s)
    && SortedFrom(Keys(dir, offsets), s, 0)
  }

  /** Nothing outside `l..=h` has this name. */
  ghost predicate Excluded(keys: seq<seq<byte>>, s: seq<nat>, l: int, h: int, key: seq<byte>)
    requires InRange(s, |keys|)
  {
    forall i :: 0 <= i < |s| && (i < l || i > h) ==> keys[s[i]] != key
  }

  lemma ExcludeLeft(keys: seq<seq<byte>>, s: seq<nat>, l: nat, h: int, m: nat, key: seq<byte>)
    requires InRange(s, |keys|) && SortedFrom(keys, s, 0) && l <= m <= h < |s|
    requires Excluded(keys, s, l, h, key) && (Before(keys[s[m]], key) || forall i :: 0 <= i < |s| ==> keys[s[i]] != key)
    ensures Excluded(keys, s, m + 1, h, key)
  {
    hide Before;
    forall i | 0 <= i <= m
      ensures keys[s[i]] != key
    {
      assert AtMost(keys[s[i]], keys[s[m]]);
    }
  }

  lemma ExcludeRight(keys: seq<seq<byte>>, s: seq<nat>, l: nat, h: int, m: nat, key: seq<byte>)
    requires InRange(s, |keys|) && SortedFrom(keys, s, 0) && l <= m <= h < |s|
    requires Excluded(keys, s, l, h, key) && (Before(key, keys[s[m]]) || forall i :: 0 <= i < |s| ==> keys[s[i]] != key)
    ensures Excluded(keys, s, l, m - 1, key)
  {
    hide Before;
    forall i | m <= i < |s|
      ensures keys[s[i]] != key
    {
      assert AtMost(keys[s[m]], keys[s[i]]);
    }
  }

  /** Longer names than a directory can hold are nowhere. */
  lemma TooLong(dir: seq<byte>, offsets: seq<nat>, s: seq<nat>, key: seq<byte>)
    requires Indexed(dir, offsets) && InRange(s, |offsets|) && |key| > MAX16
    ensures forall i :: 0 <= i < |s| ==> Keys(dir, offsets)[s[i]] != key
  {
    hide Le16, RecordInside;
  }

  /** `mz_zip_locate_file_binary_search` */
  method BinarySearch(dir: seq<byte>, offsets: seq<nat>, idx: array<nat>, name: seq<byte>) returns (r: Outcome)
    requires Indexed(dir, offsets) && IsIndex(dir, offsets, idx[..])
    ensures r.Found? || r.Absent?
    ensures r.Found? ==> r.index < |offsets| && Keys(dir, offsets)[r.index] == Fold(CutLength(name))
    ensures r.Absent? ==> forall k :: 0 <= k < |offsets| ==> Keys(dir, offsets)[k] != Fold(CutLength(name))
  {
    hide Before, SortedFrom, Keys, Excluded, CutLength, Fold;
    ghost var keys, key, s := Keys(dir, offsets), Fold(CutLength(name)), idx[..];
    var len := |name| % UINT;
    LengthCut(name);
    if len > MAX16 {
      TooLong(dir, offsets, s, key);
    }
    var l: nat, h: int := 0, idx.Length - 1;
    AllInside(keys, s, key);
    while l <= h
      invariant 0 <= l <= h + 1 <= |s| && Excluded(keys, s, l, h, key)
    {
      var m := l + (h - l) / 2;
      var fileIndex := idx[m];
      assert fileIndex == s[m];
      var comp := FilenameCompare(dir, offsets, fileIndex, name, len);
      if comp == 0 {
        return Found(fileIndex);
      } else if comp < 0 {
        ExcludeLeft(keys, s, l, h, m, key);
        l := m + 1;
      } else {
        ExcludeRight(keys, s, l, h, m, key);
        h := m - 1;
      }
    }
    AllExcluded(keys, s, l, h, key);
    r := Absent;
  }

  lemma LengthCut(name: seq<byte>)
    ensures |Fold(CutLength(name))| == |name| % UINT
  {
  }

  lemma AllInside(keys: seq<seq<byte>>, s: seq<nat>, key: seq<byte>)
    requires InRange(s, |keys|)
    ensures Excluded(keys, s, 0, |s| - 1, key)
  {
  }

  lemma AllExcluded(keys: seq<seq<byte>>, s: seq<nat>, l: int, h: int, key: seq<byte>)
    requires InRange(s, |keys|) && Excluded(keys, s, l, h, key) && l > h && forall k :: 0 <= k < |keys| ==> k in s
    ensures forall k :: 0 <= k < |keys| ==> keys[k] != key
  {
    forall k | 0 <= k < |keys|
      ensures keys[k] != key
    {
      assert k in s;
    }
  }

  // ---------- the scan ----------

  predicate Same(a: seq<byte>, b: seq<byte>, caseSensitive: bool) {
    if caseSensitive then a == b else Fold(a) == Fold(b)
  }

  /** `mz_zip_string_equal` */
  method StringEqual(a: seq<byte>, b: seq<byte>, caseSensitive: bool) returns (same: bool)
    requires |a| == |b|
    ensures same == Same(a, b, caseSensitive)
  {
    if caseSensitive {
      return a == b;
    }
    var i := 0;
    while i < |a|
      invariant i <= |a| && forall k :: 0 <= k < i ==> Lower(a[k]) == Lower(b[k])
    {
      if Lower(a[i]) != Lower(b[i]) {
        assert Fold(a)[i] != Fold(b)[i];
        return false;
      }
      i := i + 1;
    }
    assert Fold(a) == Fold(b);
    same := true;
  }

  /** Slash, backslash and colon. */
  predicate Separator(c: byte) {
    c == SLASH || c == BACKSLASH || c == ':' as int
  }

  /** `b` is what follows the last separator of `s`. */
  ghost predicate BaseOf(s: seq<byte>, b: seq<byte>) {
    && |b| <= |s| && b == s[|s| - |b|..] && (forall i :: 0 <= i < |b| ==> !Separator(b[i]))
    && (|b| < |s| ==> Separator(s[|s| - |b| - 1]))
  }

  lemma BaseUnique(s: seq<byte>, a: seq<byte>, b: seq<byte>)
    requires BaseOf(s, a) && BaseOf(s, b)
    ensures a == b
  {
    NoneAfter(s, a);
    NoneAfter(s, b);
  }

  lemma NoneAfter(s: seq<byte>, b: seq<byte>)
    requires BaseOf(s, b)
    ensures forall k :: |s| - |b| <= k < |s| ==> !Separator(s[k])
  {
    forall k | |s| - |b| <= k < |s|
      ensures !Separator(s[k])
    {
      assert s[k] == b[k - (|s| - |b|)];
    }
  }

  method StripPath(s: seq<byte>) returns (b: seq<byte>)
    ensures BaseOf(s, b)
  {
    var ofs := |s|;
    while ofs > 0 && !Separator(s[ofs - 1])
      invariant 0 <= ofs <= |s| && forall i :: ofs <= i < |s| ==> !Separator(s[i])
    {
      ofs := ofs - 1;
    }
    b := s[ofs..];
  }

  function RemarkAt(dir: seq<byte>, p: nat): (s: seq<byte>)
    requires RecordInside(dir, p)
    ensures |s| == Le16(dir, p + 32)
  {
    var start := p + CENTRAL_SIZE + Le16(dir, p + 28) + Le16(dir, p + 30);
    dir[start..start + Le16(dir, p + 32)]
  }

  /** The record at `p` is the one looked for. */
  ghost predicate Matches(dir: seq<byte>, p: nat, name: seq<byte>, remark: seq<byte>, caseSensitive: bool,
                          ignorePath: bool)
    requires RecordInside(dir, p)
  {
    && (|remark| > 0 ==> Same(remark, RemarkAt(dir, p), caseSensitive))
    && if ignorePath then exists b :: BaseOf(NameAt(dir, p), b) && Same(name, b, caseSensitive)
       else Same(name, NameAt(dir, p), caseSensitive)
  }

  /** The tests of the scan for one record. */
  method CheckEntry(dir: seq<byte>, p: nat, name: seq<byte>, remark: seq<byte>, caseSensitive: bool, ignorePath: bool)
    returns (hit: bool)
    requires RecordInside(dir, p)
    ensures hit == Matches(dir, p, name, remark, caseSensitive, ignorePath)
  {
    hide Le16, RecordInside, Fold;
    var filename := NameAt(dir, p);
    SameLength(name, filename, caseSensitive);
    if |filename| < |name| {
      return false;
    }
    if |remark| > 0 {
      SameLength(remark, RemarkAt(dir, p), caseSensitive);
      RecordFixed(dir, p);
      if Le16(dir, p + 32) != |remark| {
        return false;
      }
      var same := StringEqual(remark, RemarkAt(dir, p), caseSensitive);
      if !same {
        return false;
      }
    }
    var base := filename;
    if ignorePath && |filename| > 0 {
      base := StripPath(filename);
    }
    BaseDecides(filename, base, name, caseSensitive, ignorePath);
    SameLength(name, base, caseSensitive);
    if |base| != |name| {
      return false;
    }
    hit := StringEqual(name, base, caseSensitive);
  }

  lemma RecordFixed(dir: seq<byte>, p: nat)
    requires RecordInside(dir, p)
    ensures p + CENTRAL_SIZE <= |dir|
  {
  }

  lemma SameLength(a: seq<byte>, b: seq<byte>, caseSensitive: bool)
    ensures Same(a, b, caseSensitive) ==> |a| == |b|
  {
    assert |Fold(a)| == |a| && |Fold(b)| == |b|;
  }

  lemma BaseDecides(s: seq<byte>, base: seq<byte>, name: seq<byte>, caseSensitive: bool, ignorePath: bool)
    requires if ignorePath then (|s| > 0 ==> BaseOf(s, base)) && (|s| == 0 ==> base == s) else base == s
    ensures ignorePath ==>
      ((exists b :: BaseOf(s, b) && Same(name, b, caseSensitive)) <==> Same(name, base, caseSensitive))
  {
    hide Same;
    if ignorePath {
      assert BaseOf(s, base);
      forall b | BaseOf(s, b)
        ensures b == base
      {
        BaseUnique(s, b, base);
      }
    }
  }

  /** `mz_zip_reader_locate_file_v2`, the scan. */
  method Scan(dir: seq<byte>, offsets: seq<nat>, name: seq<byte>, remark: seq<byte>, caseSensitive: bool,
              ignorePath: bool)
    returns (r: Outcome)
    requires Indexed(dir, offsets)
    ensures r.Invalid? <==> |name| > MAX16 || |remark| > MAX16
    ensures r.Found? ==> r.index < |offsets| && Matches(dir, offsets[r.index], name, remark, caseSensitive, ignorePath)
    ensures r.Found? ==>
      forall k :: 0 <= k < r.index ==> !Matches(dir, offsets[k], name, remark, caseSensitive, ignorePath)
    ensures r.Absent? ==>
      forall k :: 0 <= k < |offsets| ==> !Matches(dir, offsets[k], name, remark, caseSensitive, ignorePath)
  {
    hide RecordInside, Matches;
    if |name| > MAX16 || |remark| > MAX16 {
      return Invalid;
    }
    var i := 0;
    while i < |offsets|
      invariant i <= |offsets|
      invariant forall k :: 0 <= k < i ==> !Matches(dir, offsets[k], name, remark, caseSensitive, ignorePath)
    {
      var hit := CheckEntry(dir, offsets[i], name, remark, caseSensitive, ignorePath);
      if hit {
        return Found(i);
      }
      i := i + 1;
    }
    r := Absent;
  }

  // ---------- both ----------

  /** The index of a directory: all file indices, sorted. */
  method BuildIndex(dir: seq<byte>, offsets: seq<nat>) returns (idx: array<nat>)
    requires Indexed(dir, offsets)
    ensures fresh(idx) && idx.Length == |offsets| && IsIndex(dir, offsets, idx[..])
  {
    hide RecordInside, SortedFrom, Keys;
    idx := new nat[|offsets|](i => i);
    ghost var s := idx[..];
    SortIndex(dir, offsets, idx);
    forall k | 0 <= k < |offsets|
      ensures k in idx[..]
    {
      assert s[k] == k;
      assert multiset(s)[k] > 0;
      assert multiset(idx[..])[k] > 0;
    }
  }

  /** Not too long for a record. */
  predicate Presentable(name: seq<byte>, remark: Remark) {
    |name| <= MAX16 && |TextOf(remark)| <= MAX16
  }

  /** `mz_zip_reader_locate_file_v2`: the index is used when there is one and it answers the question. */
  method Locate(dir: seq<byte>, offsets: seq<nat>, idx: array<nat>, indexed: bool, name: seq<byte>, remark: Remark,
                caseSensitive: bool, ignorePath: bool) returns (r: Outcome)
    requires Indexed(dir, offsets) && (indexed ==> IsIndex(dir, offsets, idx[..]))
    ensures |name| < UINT ==>
      (r.Found? <==> (Presentable(name, remark)
        && exists k :: 0 <= k < |offsets| && Matches(dir, offsets[k], name, TextOf(remark), caseSensitive, ignorePath)))
    ensures |name| < UINT && r.Found? ==>
      r.index < |offsets| && Matches(dir, offsets[r.index], name, TextOf(remark), caseSensitive, ignorePath)
  {
    hide RecordInside, Matches, IsIndex, Keys;
    if indexed && !caseSensitive && !ignorePath && remark.None? && |offsets| > 0 {
      r := BinarySearch(dir, offsets, idx, name);
      PlainMatches(dir, offsets, name);
      if MAX16 < |name| < UINT && r.Found? {
        TooLongName(dir, offsets, r.index, name);
      }
    } else {
      r := Scan(dir, offsets, name, TextOf(remark), caseSensitive, ignorePath);
    }
  }

  function TextOf(r: Remark): seq<byte> {
    if r.None? then [] else r.text
  }

  /** Without flags a record matches when its folded name is equal. */
  lemma PlainMatches(dir: seq<byte>, offsets: seq<nat>, name: seq<byte>)
    requires Indexed(dir, offsets)
    ensures forall k :: 0 <= k < |offsets| ==>
      (Matches(dir, offsets[k], name, [], false, false) <==> Keys(dir, offsets)[k] == Fold(name))
  {
    hide Le16, RecordInside, Fold;
  }

  lemma TooLongName(dir: seq<byte>, offsets: seq<nat>, k: nat, name: seq<byte>)
    requires Indexed(dir, offsets) && k < |offsets| && Keys(dir, offsets)[k] == Fold(name)
    ensures |name| <= MAX16
  {
    hide Le16, RecordInside;
  }

  ghost predicate Distinct(keys: seq<seq<byte>>) {
    forall i, j :: 0 <= i < j < |keys| ==> keys[i] != keys[j]
  }

  /** Index and scan agree: both find an entry or both do not, and with distinct folded names it is the same one.
      They differ exactly when a name of 2^32 bytes or more is an entry's name once its length is cut to 32 bits. */
  method BothWays(dir: seq<byte>, offsets: seq<nat>, name: seq<byte>) returns (fast: Outcome, slow: Outcome)
    requires Indexed(dir, offsets)
    ensures (fast.Found? <==> slow.Found?) <==>
      !(|name| >= UINT && exists k :: 0 <= k < |offsets| && Keys(dir, offsets)[k] == Fold(CutLength(name)))
    ensures fast.Found? && slow.Found? && Distinct(Keys(dir, offsets)) ==> fast == slow
  {
    hide RecordInside, Matches, IsIndex, Keys, Fold, CutLength;
    var idx := BuildIndex(dir, offsets);
    fast := BinarySearch(dir, offsets, idx, name);
    slow := Scan(dir, offsets, name, [], false, false);
    PlainMatches(dir, offsets, name);
    if |name| > MAX16 && |name| < UINT && fast.Found? {
      TooLongName(dir, offsets, fast.index, name);
    }
  }

  /** Such a name exists for every entry: the entry's own, followed by 2^32 more bytes. */
  lemma OverlongName(dir: seq<byte>, offsets: seq<nat>, k: nat, rest: seq<byte>)
    requires Indexed(dir, offsets) && k < |offsets| && |rest| == UINT
    ensures var name := NameAt(dir, offsets[k]) + rest; |name| >= UINT && Keys(dir, offsets)[k] == Fold(CutLength(name))
  {
    hide Le16, RecordInside, Fold;
    var own := NameAt(dir, offsets[k]);
    assert (own + rest)[..|own|] == own;
  }
}
