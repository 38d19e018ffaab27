/** Reading an archive (src/external/miniz.h:5566-5908, 6220-6413, 6574-6651; src/external/zip.c:1255-1331,
    1618-1639): finding the end records, indexing the central directory, and extracting an entry. */
module ZipReader {
  import opened Bits
  import opened LittleEndian
  import opened ZipFormat
  import ZipDeflate
  import Crc32

  const WINDOW: nat := 4096

  datatype Located = NotFound | FoundAt(pos: nat)

  // ---------- the end records ----------

  /** How far back the end record is looked for at least: it may be followed by a comment of 65535 bytes. */
  const REACH: nat := 0xFFFF + END_SIZE

  /** Is the last position with the signature, and room for the record, at `p`? */
  ghost predicate LastEnd(image: seq<byte>, p: nat) {
    && p + END_SIZE <= |image| && Le32(image, p) == END_SIG
    && forall q :: p < q <= |image| - END_SIZE ==> Le32(image, q) != END_SIG
  }

  /** `mz_zip_reader_locate_header_sig`: windows from the end of the file towards its beginning, which overlap by three
      bytes, so that no signature is cut. */
  method LocateEnd(image: seq<byte>) returns (r: Located)
    ensures r.FoundAt? ==> LastEnd(image, r.pos) && |image| - r.pos < REACH + WINDOW
    ensures r.NotFound? ==>
      forall q :: 0 <= q <= |image| - END_SIZE && |image| - REACH <= q ==> Le32(image, q) != END_SIG
  {
    hide Le32;
    if |image| < END_SIZE {
      return NotFound;
    }
    var start: nat := if |image| > WINDOW then |image| - WINDOW else 0;
    while true
      invariant start <= |image| - 4 && |image| - start < REACH + WINDOW && (start > 0 ==> start + WINDOW <= |image|)
      invariant forall q :: start + Min(WINDOW, |image| - start) - 4 < q <= |image| - END_SIZE ==>
        Le32(image, q) != END_SIG
      decreases start
    {
      var i := Min(WINDOW, |image| - start) - 4;
      while i >= 0
        invariant -1 <= i <= Min(WINDOW, |image| - start) - 4
        invariant forall q :: start + i < q <= |image| - END_SIZE ==> Le32(image, q) != END_SIG
      {
        if Le32(image, start + i) == END_SIG && |image| - (start + i) >= END_SIZE {
          return FoundAt(start + i);
        }
        i := i - 1;
      }
      if start == 0 || |image| - start >= REACH {
        return NotFound;
      }
      start := if start > WINDOW - 3 then start - (WINDOW - 3) else 0;
    }
  }

  /** The end records begin at `q`, the last of them is at `p`. */
  ghost predicate EndsWith(image: seq<byte>, p: nat, q: nat, count: nat, dirOffset: nat, dirSize: nat) {
    p == q + END64_SIZE + LOCATOR_SIZE && EndAt(image, q, count, dirOffset,
      dirSize) && count <= MAX32 && dirSize < MAX32
  }

  datatype EndInfo = EndInfo(total: nat, dirSize: nat, dirOffset: nat, thisDisk: nat, dirDisk: nat, onThisDisk: nat,
    zip64: bool)

  /** The end record at `p`, overridden by the zip64 records before it when there are some. */
  method ParseEnd(image: seq<byte>, p: nat, ghost q: nat, ghost count: nat, ghost dirOffset: nat, ghost dirSize: nat)
    returns (ok: bool, e: EndInfo)
    requires p + END_SIZE <= |image| && Le32(image, p) == END_SIG
    ensures EndsWith(image, p, q, count, dirOffset, dirSize) ==>
      (ok && e == EndInfo(count, dirSize, dirOffset, 0, 0, count, true))
  {
    hide Le16, Le32, Le64;
    if EndsWith(image, p, q, count, dirOffset, dirSize) {
      assert p == q + 76 && |image| == q + 98;
      assert q + END64_SIZE == p - LOCATOR_SIZE;
    }
    e := EndInfo(Le16(image, p + 10), Le32(image, p + 12), Le32(image, p + 16), Le16(image, p + 4), Le16(image, p + 6),
      Le16(image, p + 8), false);
    if p >= LOCATOR_SIZE + END64_SIZE && Le32(image, p - LOCATOR_SIZE) == LOCATOR_SIG {
      var end64 := Le64(image, p - LOCATOR_SIZE + 8);
      if end64 > |image| - END64_SIZE {
        return false, e;
      }
      if Le32(image, end64) == END64_SIG {
        if Le64(image, end64 + 4) < END64_SIZE - 12 || Le32(image, p - LOCATOR_SIZE + 16) != 1
           || Le64(image, end64 + 32) > MAX32 || Le64(image, end64 + 24) > MAX32 || Le64(image, end64 + 40) > MAX32 {
          return false, e;
        }
        e := EndInfo(Le64(image, end64 + 32), Le64(image, end64 + 40), Le64(image, end64 + 48),
                     Le32(image, end64 + 16), Le32(image, end64 + 20), Le64(image, end64 + 24), true);
      }
    }
    ok := true;
  }

  // ---------- extra fields ----------

  datatype FieldSearch = Corrupt | Missing | Field(pos: nat, size: nat)

  /** The first zip64 extended information field among the extra fields in `dir[p..p + n]`. */
  function Zip64Field(dir: seq<byte>, p: nat, n: nat): FieldSearch
    requires p + n <= |dir|
    decreases n
  {
    if n < 4 || Le16(dir, p + 2) + 4 > n then Corrupt
    else if Le16(dir, p) == 1 then Field(p, Le16(dir, p + 2))
    else
      var size := Le16(dir, p + 2) + 4;
      if n == size then Missing else Zip64Field(dir, p + size, n - size)
  }

  /** Walk over the extra fields. */
  method FindZip64(dir: seq<byte>, p: nat, n: nat) returns (r: FieldSearch)
    requires p + n <= |dir| && n > 0
    ensures r == Zip64Field(dir, p, n)
    ensures r.Field? ==>
      p <= r.pos && r.pos + 4 + r.size <= p + n && Le16(dir, r.pos) == 1 && r.size == Le16(dir, r.pos + 2)
    ensures n >= 4 && Le16(dir, p) == 1 && Le16(dir, p + 2) + 4 <= n ==> r == Field(p, Le16(dir, p + 2))
  {
    hide Le16;
    var pos, left := p, n;
    while true
      invariant p <= pos && pos + left == p + n && left > 0
      invariant pos > p ==> n >= 4 && Le16(dir, p) != 1
      invariant Zip64Field(dir, pos, left) == Zip64Field(dir, p, n)
      decreases left
    {
      if left < 4 {
        return Corrupt;
      }
      var id, size := Le16(dir, pos), Le16(dir, pos + 2);
      if size + 4 > left {
        return Corrupt;
      }
      if id == 1 {
        return Field(pos, size);
      }
      pos := pos + 4 + size;
      left := left - 4 - size;
      if left == 0 {
        return Missing;
      }
    }
  }

  // ---------- the central directory ----------

  function Max3(a: nat, b: nat, c: nat): nat {
    if a >= b && a >= c then a else if b >= c then b else c
  }

  /** `total_header_size` */
  function RecordSize(dir: seq<byte>, p: nat): nat
    requires p + CENTRAL_SIZE <= |dir|
  {
    CENTRAL_SIZE + Le16(dir, p + 28) + Le16(dir, p + 30) + Le16(dir, p + 32)
  }

  predicate RecordInside(dir: seq<byte>, p: nat) {
    p + CENTRAL_SIZE <= |dir| && p + RecordSize(dir, p) <= |dir|
  }

  /** A record with sizes that go together, for which the file is long enough. */
  ghost predicate Acceptable(dir: seq<byte>, p: nat, archiveSize: nat, thisDisk: nat, c: Central) {
    && CentralAt(dir, p, c) && thisDisk == 0
    && (if c.compressed == 0 then c.comp == c.uncomp else c.comp > 0)
    && Min(c.offset, MAX32) + LOCAL_SIZE + c.comp <= archiveSize
  }

  /** What every indexed record satisfies: signature, sizes that agree for stored data, a disk that exists, local data
      inside the archive, no masked header. */
  ghost predicate Sane(dir: seq<byte>, p: nat, archiveSize: nat, thisDisk: nat)
    requires p + CENTRAL_SIZE <= |dir|
  {
    var comp, uncomp, disk := Le32(dir, p + 20), Le32(dir, p + 24), Le16(dir, p + 34);
    && Le32(dir, p) == CENTRAL_SIG
    && (comp != MAX32 && uncomp != MAX32 ==> (Le32(dir, p + 10) == 0 ==> uncomp == comp) && (uncomp > 0 ==> comp > 0))
    && disk != MAX16 && (disk == thisDisk || disk == 1)
    && (comp != MAX32 ==> Le32(dir, p + 42) + LOCAL_SIZE + comp <= archiveSize)
    && Le16(dir, p + 8) / 8192 % 2 == 0
  }

  /** Are the extra fields looked at?  They are not any more once a zip64 field has been found. */
  predicate LooksFurther(dir: seq<byte>, p: nat, extended: bool)
    requires p + CENTRAL_SIZE <= |dir|
  {
    !extended && Le16(dir, p + 30) > 0 && Max3(Le32(dir, p + 20), Le32(dir, p + 24), Le32(dir, p + 42)) == MAX32
  }

  function ExtraField(dir: seq<byte>, p: nat): FieldSearch
    requires RecordInside(dir, p)
  {
    Zip64Field(dir, p + CENTRAL_SIZE + Le16(dir, p + 28), Le16(dir, p + 30))
  }

  /** The record at `p` is accepted. */
  ghost predicate Passes(dir: seq<byte>, p: nat, archiveSize: nat, thisDisk: nat, extended: bool) {
    && RecordInside(dir, p) && Sane(dir, p, archiveSize, thisDisk)
    && (LooksFurther(dir, p, extended) ==> !ExtraField(dir, p).Corrupt?)
  }

  ghost predicate ExtendedAfter(dir: seq<byte>, p: nat, extended: bool)
    requires RecordInside(dir, p)
  {
    extended || (LooksFurther(dir, p, extended) && ExtraField(dir, p).Field?)
  }

  /** So are `count` records from `p` on. */
  ghost predicate AllPass(dir: seq<byte>, p: nat, count: nat, archiveSize: nat, thisDisk: nat, extended: bool)
    decreases count
  {
    count == 0
    || (Passes(dir, p, archiveSize, thisDisk, extended)
        && AllPass(dir, p + RecordSize(dir, p), count - 1, archiveSize, thisDisk, ExtendedAfter(dir, p, extended)))
  }

  /** Records one after the other from the start of the directory. */
  ghost predicate Consecutive(dir: seq<byte>, offsets: seq<nat>) {
    && (forall i :: 0 <= i < |offsets| ==> RecordInside(dir, offsets[i]))
    && (|offsets| > 0 ==> offsets[0] == 0)
    && (forall i, j :: 0 <= i && j == i + 1 < |offsets| ==> offsets[j] == offsets[i] + RecordSize(dir, offsets[i]))
  }

  lemma ConsecutiveNext(dir: seq<byte>, offsets: seq<nat>, p: nat)
    requires Consecutive(dir, offsets) && RecordInside(dir, p)
    requires p == if |offsets| == 0 then 0 else offsets[|offsets| - 1] + RecordSize(dir, offsets[|offsets| - 1])
    ensures Consecutive(dir, offsets + [p])
  {
    hide RecordInside, RecordSize;
  }

  /** The checks on one directory record with `n` bytes left; the size of the record when it passes. */
  method CheckRecord(dir: seq<byte>, p: nat, n: nat, archiveSize: nat, thisDisk: nat, extended: bool, ghost c: Central)
    returns (ok: bool, size: nat, extended': bool)
    requires p + n == |dir|
    ensures ok <==> Passes(dir, p, archiveSize, thisDisk, extended)
    ensures ok ==> size == RecordSize(dir, p) <= n && extended' == ExtendedAfter(dir, p, extended)
    ensures Acceptable(dir, p, archiveSize, thisDisk, c) ==> (ok && size == CentralLength(c))
  {
    hide Le16, Le32, CentralExtra, Zip64Field;
    size, extended' := 0, extended;
    if n < CENTRAL_SIZE || Le32(dir, p) != CENTRAL_SIG {
      return false, 0, extended;
    }
    var comp, uncomp, offset := Le32(dir, p + 20), Le32(dir, p + 24), Le32(dir, p + 42);
    var nameSize, extraSize := Le16(dir, p + 28), Le16(dir, p + 30);
    if !extended && extraSize > 0 && Max3(comp, uncomp, offset) == MAX32 {
      if CENTRAL_SIZE + nameSize + extraSize > n {
        return false, 0, extended;
      }
      var f := FindZip64(dir, p + CENTRAL_SIZE + nameSize, extraSize);
      if CentralAt(dir, p, c) {
        ExtraBegins(dir, p, c);
      }
      if f.Corrupt? {
        return false, 0, extended;
      }
      extended' := f.Field?;
    }
    if CentralAt(dir, p, c) {
      MethodSeen(dir, p, c);
    }
    if comp != MAX32 && uncomp != MAX32 {
      if (Le32(dir, p + 10) == 0 && uncomp != comp) || (uncomp > 0 && comp == 0) {
        return false, 0, extended';
      }
    }
    var disk := Le16(dir, p + 34);
    if disk == MAX16 || (disk != thisDisk && disk != 1) {
      return false, 0, extended';
    }
    if comp != MAX32 && offset + LOCAL_SIZE + comp > archiveSize {
      return false, 0, extended';
    }
    if Le16(dir, p + 8) / 8192 % 2 == 1 {
      return false, 0, extended';
    }
    size := CENTRAL_SIZE + nameSize + extraSize + Le16(dir, p + 32);
    if size > n {
      return false, 0, extended';
    }
    ok := true;
  }

  /** The code reads method and time as one word. */
  lemma MethodSeen(dir: seq<byte>, p: nat, c: Central)
    requires CentralAt(dir, p, c)
    ensures c.compressed != 0 ==> Le32(dir, p + 10) != 0
  {
    hide Le16, CentralExtra;
  }

  /** Every record begins its extra data with the zip64 field. */
  lemma ExtraBegins(dir: seq<byte>, p: nat, c: Central)
    requires CentralAt(dir, p, c)
    ensures var q := p + CENTRAL_SIZE + |c.name|;
      && Le16(dir, p + 28) == |c.name| && Le16(dir, p + 30) == |CentralExtra(c)|
      && q + |CentralExtra(c)| <= |dir| && Le16(dir, q) == 1
      && Le16(dir, q + 2) == |Zip64Fields(c)| == |CentralExtra(c)| - 4
  {
    hide Le16, Le32, Zip64Fields, Bytes16;
    var q, x := p + CENTRAL_SIZE + |c.name|, CentralExtra(c);
    assert dir[q..q + |x|] == x[0..0 + |x|];
    Sub16(dir, q, x, 0, |x|, 0);
    Sub16(dir, q, x, 0, |x|, 2);
    Read16(1);
    Read16(|Zip64Fields(c)|);
    assert x[0..0 + 2] == Bytes16(1)[0..0 + 2] && x[2..2 + 2] == Bytes16(|Zip64Fields(c)|)[0..0 + 2];
    Moved16(x, 0, Bytes16(1), 0);
    Moved16(x, 2, Bytes16(|Zip64Fields(c)|), 0);
  }

  /** What a record must satisfy for the reader besides being well formed. */
  ghost predicate Fits(rs: seq<Record>, archiveSize: nat) {
    forall i :: 0 <= i < |rs| ==> Packs(rs[i]) && rs[i].offset + LOCAL_SIZE + |rs[i].packed| <= archiveSize
  }

  /** The index over the directory records. */
  method IndexRecords(dir: seq<byte>, total: nat, archiveSize: nat, thisDisk: nat, ghost rs: seq<Record>)
    returns (ok: bool, offsets: seq<nat>)
    ensures ok <==> AllPass(dir, 0, total, archiveSize, thisDisk, false)
    ensures ok ==> |offsets| == total && Consecutive(dir, offsets)
    ensures ok ==> forall i :: 0 <= i < total ==> Sane(dir, offsets[i], archiveSize, thisDisk)
    ensures Directory(dir, rs) && |rs| == total && thisDisk == 0 && Fits(rs, archiveSize) ==>
      (ok && forall i :: 0 <= i < total ==> offsets[i] == CentralStart(rs, i))
  {
    hide Le16, Le32, CentralExtra, CentralStart, CentralLength, Directory, CentralOf, Acceptable, Fits, Consecutive,
      Sane, RecordSize, ExtendedAfter, ExtraField, LooksFurther;
    ghost var good := Directory(dir, rs) && |rs| == total && thisDisk == 0 && Fits(rs, archiveSize);
    offsets := [];
    var n: nat, p: nat := |dir|, 0;
    var extended := false;
    CentralBegins(rs);
    NoneYet(dir);
    var i := 0;
    while i < total
      invariant i <= total && |offsets| == i && p + n == |dir|
      invariant Consecutive(dir, offsets)
      invariant AllPass(dir, 0, total, archiveSize, thisDisk, false)
           <==> AllPass(dir, p, total - i, archiveSize, thisDisk, extended)
      invariant forall k :: 0 <= k < i ==> RecordInside(dir, offsets[k]) && Sane(dir, offsets[k], archiveSize, thisDisk)
      invariant p == if i == 0 then 0 else offsets[i - 1] + RecordSize(dir, offsets[i - 1])
      invariant good ==> p == CentralStart(rs, i) && forall k :: 0 <= k < i ==> offsets[k] == CentralStart(rs, k)
    {
      if good {
        RecordChecks(dir, rs, i, archiveSize);
      }
      var size;
      ok, size, extended := CheckRecord(dir, p, n, archiveSize, thisDisk, extended, if i < |rs| then CentralOf(rs[i])
        else Central([], 0, 0, 0, 0, 0, 0));
      if !ok {
        return;
      }
      ConsecutiveNext(dir, offsets, p);
      offsets := offsets + [p];
      n := n - size;
      p := p + size;
      i := i + 1;
    }
    ok := true;
  }

  lemma NoneYet(dir: seq<byte>)
    ensures Consecutive(dir, [])
  {
  }

  lemma CentralBegins(rs: seq<Record>)
    ensures CentralStart(rs, 0) == 0
  {
  }

  lemma RecordChecks(dir: seq<byte>, rs: seq<Record>, i: nat, archiveSize: nat)
    requires Directory(dir, rs) && i < |rs| && Fits(rs, archiveSize)
    ensures var c := CentralOf(rs[i]);
      && Acceptable(dir, CentralStart(rs, i), archiveSize, 0, c)
      && CentralStart(rs, i + 1) == CentralStart(rs, i) + CentralLength(c)
  {
    hide CentralAt, CentralLength, CrcOf, ZipDeflate.Stands;
    var r := rs[i];
    if r.compressed == DEFLATED {
      ZipDeflate.StreamNotEmpty(r.packed, r.data);
    }
  }

  // ---------- statistics of one entry ----------

  /** As much of a name as there is room for. */
  const NAME_SIZE: nat := 511

  datatype Stat = Stat(name: seq<byte>, flags: nat, compressed: nat, crc: nat, comp: nat, uncomp: nat, attr: nat,
    offset: nat, isDirectory: bool)

  /** The values of the zip64 field at `dir[p..p + size]` for those of the three that are saturated. */
  method ReadZip64(dir: seq<byte>, p: nat, size: nat, uncomp0: nat, comp0: nat, offset0: nat, ghost c: Central)
    returns (ok: bool, uncomp: nat, comp: nat, offset: nat)
    requires p + size <= |dir|
    ensures FieldsOf(dir, p, size, uncomp0, comp0, offset0, c) ==>
      (ok && uncomp == c.uncomp && comp == c.comp && offset == c.offset)
  {
    hide Le64, Zip64Fields;
    ok, uncomp, comp, offset := true, uncomp0, comp0, offset0;
    if FieldsOf(dir, p, size, uncomp0, comp0, offset0, c) {
      FieldValues(dir, p, c);
    }
    var pos, left := p, size;
    if uncomp == MAX32 {
      if left < 8 {
        return false, uncomp, comp, offset;
      }
      uncomp := Le64(dir, pos);
      pos, left := pos + 8, left - 8;
    }
    if comp == MAX32 {
      if left < 8 {
        return false, uncomp, comp, offset;
      }
      comp := Le64(dir, pos);
      pos, left := pos + 8, left - 8;
    }
    if offset == MAX32 {
      if left < 8 {
        return false, uncomp, comp, offset;
      }
      offset := Le64(dir, pos);
    }
  }

  /** The field holds what does not fit into the header of `c`. */
  ghost predicate FieldsOf(dir: seq<byte>, p: nat, size: nat, uncomp: nat, comp: nat, offset: nat, c: Central) {
    && p + size <= |dir| && Representable(c) && size == |Zip64Fields(c)| && dir[p..p + size] == Zip64Fields(c)
    && uncomp == Min(c.uncomp, MAX32) && comp == Min(c.comp, MAX32) && offset == Min(c.offset, MAX32)
  }

  lemma FieldValues(dir: seq<byte>, p: nat, c: Central)
    requires Representable(c) && p + |Zip64Fields(c)| <= |dir| && dir[p..p + |Zip64Fields(c)|] == Zip64Fields(c)
    ensures |Zip64Fields(c)| == |Big(c.uncomp)| + |Big(c.comp)| + |Big(c.offset)|
    ensures |Big(c.uncomp)| == (if c.uncomp >= MAX32 then 8 else 0)
    ensures |Big(c.comp)| == (if c.comp >= MAX32 then 8 else 0)
    ensures |Big(c.offset)| == (if c.offset >= MAX32 then 8 else 0)
    ensures c.uncomp >= MAX32 ==> Le64(dir, p) == c.uncomp
    ensures c.comp >= MAX32 ==> Le64(dir, p + |Big(c.uncomp)|) == c.comp
    ensures c.offset >= MAX32 ==> Le64(dir, p + |Big(c.uncomp)| + |Big(c.comp)|) == c.offset
  {
    hide Le64, Bytes64;
    var x, a, b := Zip64Fields(c), |Big(c.uncomp)|, |Big(c.comp)|;
    assert dir[p..p + |x|] == x[0..0 + |x|];
    if c.uncomp >= MAX32 {
      ReadBig(dir, p, x, 0, c.uncomp);
    }
    if c.comp >= MAX32 {
      ReadBig(dir, p, x, a, c.comp);
    }
    if c.offset >= MAX32 {
      ReadBig(dir, p, x, a + b, c.offset);
    }
  }

  lemma ReadBig(dir: seq<byte>, p: nat, x: seq<byte>, k: nat, v: nat)
    requires p + |x| <= |dir| && dir[p..p + |x|] == x[0..0 + |x|] && k + 8 <= |x| && x[k..k + 8] == Bytes64(v)
    requires v <= MAX64
    ensures Le64(dir, p + k) == v
  {
    hide Le64, Bytes64;
    Sub64(dir, p, x, 0, |x|, k);
    Read64(v);
    assert Bytes64(v)[0..0 + 8] == Bytes64(v);
    Moved64(x, k, Bytes64(v), 0);
  }

  /** `mz_zip_file_stat_internal`: sizes and offset come back exactly, whatever their magnitude. */
  method FileStat(dir: seq<byte>, p: nat, ghost c: Central) returns (ok: bool, st: Stat)
    requires RecordInside(dir, p)
    ensures CentralAt(dir, p, c) ==> (ok
      && st == Stat(c.name[..Min(|c.name|, NAME_SIZE)], FLAGS, c.compressed, c.crc, c.comp, c.uncomp, c.attr, c.offset,
        IsDirectory(c.name, c.attr)))
  {
    hide Le16, Le32, Le64, Zip64Fields, Bytes16, Representable;
    var comp, uncomp, offset := Le32(dir, p + 20), Le32(dir, p + 24), Le32(dir, p + 42);
    var nameSize, extraSize := Le16(dir, p + 28), Le16(dir, p + 30);
    var name := NameAt(dir, p);
    var attr := Le32(dir, p + 38);
    st := Stat(name[..Min(nameSize, NAME_SIZE)], Le16(dir, p + 8), Le16(dir, p + 10), Le32(dir, p + 16), comp, uncomp,
      attr, offset,
      IsDirectory(name, attr));
    ok := true;
    if CentralAt(dir, p, c) {
      ExtraBegins(dir, p, c);
      ExtraFields(dir, p, c);
    }
    if Max3(comp, uncomp, offset) == MAX32 && extraSize > 0 {
      var f := FindZip64(dir, p + CENTRAL_SIZE + nameSize, extraSize);
      if f.Corrupt? {
        return false, st;
      }
      if f.Field? {
        ok, uncomp, comp, offset := ReadZip64(dir, f.pos + 4, f.size, uncomp, comp, offset, c);
        st := st.(comp := comp, uncomp := uncomp, offset := offset);
      }
    }
  }

  lemma ExtraFields(dir: seq<byte>, p: nat, c: Central)
    requires CentralAt(dir, p, c)
    ensures Representable(c)
    ensures var q := p + CENTRAL_SIZE + |c.name| + 4; FieldsOf(dir, q, |Zip64Fields(c)|, Min(c.uncomp, MAX32),
      Min(c.comp, MAX32), Min(c.offset, MAX32), c)
  {
    hide Zip64Fields, Bytes16, Representable, CentralFields;
    var q := p + CENTRAL_SIZE + |c.name|;
    var x, z := CentralExtra(c), Zip64Fields(c);
    assert dir[q..q + |x|] == x[0..0 + |x|];
    SubSame(dir, q, x, 0, |x|, 4, |z|);
    assert x[4..4 + |z|] == z;
  }

  /** `mz_zip_reader_is_file_a_directory` */
  function IsDirectory(name: seq<byte>, attr: nat): bool {
    (|name| > 0 && name[|name| - 1] == SLASH) || attr / 16 % 2 == 1
  }

  /** The name of a record (`m_pHeader + MZ_ZIP_CENTRAL_DIR_HEADER_SIZE`), whole. */
  function NameAt(dir: seq<byte>, p: nat): (s: seq<byte>)
    requires RecordInside(dir, p)
    ensures |s| == Le16(dir, p + 28) <= MAX16
  {
    Bound16(dir, p + 28);
    dir[p + CENTRAL_SIZE..p + CENTRAL_SIZE + Le16(dir, p + 28)]
  }

  lemma Bound16(b: seq<byte>, p: nat)
    requires p + 2 <= |b|
    ensures Le16(b, p) <= MAX16
  {
  }

  lemma WholeName(dir: seq<byte>, p: nat, c: Central)
    requires RecordInside(dir, p) && CentralAt(dir, p, c)
    ensures NameAt(dir, p) == c.name
  {
    hide Le16, Le32, Le64, CentralFields;
    ExtraBegins(dir, p, c);
  }

  // ---------- extraction ----------

  datatype Extraction = Refused | Extracted(data: seq<byte>)

  /** Where the data of the entry begin. */
  function DataAt(image: seq<byte>, st: Stat): nat
    requires st.offset + LOCAL_SIZE <= |image|
  {
    st.offset + LOCAL_SIZE + Le16(image, st.offset + 26) + Le16(image, st.offset + 28)
  }

  /** What the bytes behind the local header stand for, in the length and with the checksum that the directory
      announces. */
  ghost predicate Checked(image: seq<byte>, st: Stat, data: seq<byte>) {
    && st.offset + LOCAL_SIZE <= |image| && Le32(image, st.offset) == LOCAL_SIG
    && |data| == st.uncomp && CrcOf(data) == st.crc && DataAt(image, st) + st.comp <= |image|
    && (st.compressed == 0 ==> data <= image[DataAt(image, st)..])
    && (st.compressed != 0 ==>
          st.compressed == DEFLATED
          && ZipDeflate.Unpacks(image[DataAt(image, st)..DataAt(image, st) + st.comp], data))
  }

  /** `mz_zip_reader_extract_to_mem_no_alloc1`; compressed data are read `chunk` bytes at a time. */
  method Extract(image: seq<byte>, st: Stat, bufSize: nat, chunk: nat, ghost r: Record) returns (e: Extraction)
    requires chunk > 0
    ensures st == StatOf(r) && LocalAt(image, r) && bufSize >= |r.data| && !st.isDirectory ==> e == Extracted(r.data)
    ensures e.Extracted? && (st.isDirectory || st.comp == 0) ==> e.data == []
    ensures e.Extracted? && !st.isDirectory && st.comp > 0 ==> Checked(image, st, e.data)
  {
    hide Le16, Le32, Le64, CrcOf, DescriptorAt, LocalExtra, Crc32.Crc, ZipDeflate.Stands, ZipDeflate.Unpacks;
    ghost var good := st == StatOf(r) && LocalAt(image, r);
    if good && r.compressed == DEFLATED {
      ZipDeflate.StreamNotEmpty(r.packed, r.data);
    }
    if st.isDirectory || st.comp == 0 {
      return Extracted([]);
    }
    if st.flags % 2 == 1 || st.flags / 64 % 2 == 1 || st.flags / 32 % 2 == 1 {
      return Refused;
    }
    if (st.compressed != 0 && st.compressed != DEFLATED) || bufSize < st.uncomp {
      return Refused;
    }
    if st.offset + LOCAL_SIZE > |image| || Le32(image, st.offset) != LOCAL_SIG {
      return Refused;
    }
    var start := DataAt(image, st);
    if start + st.comp > |image| {
      return Refused;
    }
    var data;
    if st.compressed == 0 {
      if start + st.uncomp > |image| {
        return Refused;
      }
      data := image[start..start + st.uncomp];
    } else {
      var done;
      done, data := ZipDeflate.InflateEntry(image[start..start + st.comp], st.uncomp, chunk, r.data);
      if !done || |data| != st.uncomp {
        return Refused;
      }
    }
    var crc := Crc32.Update(Crc32.Init(), data);
    CrcIs(data);
    if Val(crc) != st.crc {
      return Refused;
    }
    e := Extracted(data);
  }

  function StatOf(r: Record): Stat {
    var c := CentralOf(r);
    Stat(c.name[..Min(|c.name|, NAME_SIZE)], FLAGS, c.compressed, c.crc, c.comp, c.uncomp, c.attr, c.offset,
      IsDirectory(c.name, c.attr))
  }
}
