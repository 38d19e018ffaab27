/** The records of a ZIP archive as miniz writes them (APPNOTE sections 4.3.7, 4.3.9, 4.3.12, 4.3.14-4.3.16 and
    4.5.3; src/external/miniz.h:5142-5229): which bytes of an image stand for which entry. */
module ZipFormat {
  import opened Bits
  import opened LittleEndian
  import ZipDeflate
  import Crc32

  const LOCAL_SIG: nat := 0x04034b50
  const CENTRAL_SIG: nat := 0x02014b50
  const END_SIG: nat := 0x06054b50
  const END64_SIG: nat := 0x06064b50
  const LOCATOR_SIG: nat := 0x07064b50
  const DESCRIPTOR_SIG: nat := 0x08074b50

  const LOCAL_SIZE: nat := 30
  const CENTRAL_SIZE: nat := 46
  const END_SIZE: nat := 22
  const END64_SIZE: nat := 56
  const LOCATOR_SIZE: nat := 20
  const DESCRIPTOR_SIZE: nat := 24

  const SLASH: byte := 47
  const BACKSLASH: byte := 92

  const MAX16: nat := 0xFFFF
  const MAX32: nat := 0xFFFFFFFF
  const MAX64: nat := 0xFFFF_FFFF_FFFF_FFFF

  /** UTF-8 names, and sizes in a data descriptor. */
  const FLAGS: nat := 0x0808
  const DIRECTORY_BIT: nat := 0x10
  const UNIX_FILE: nat := 0x81A4_0000

  /** What the central directory says about an entry. */
  datatype Central = Central(name: seq<byte>, uncomp: nat, comp: nat, crc: nat, compressed: nat, attr: nat, offset: nat)

  /** An entry of an archive: its contents, the bytes that stand for them by the method `compressed`, and where its
      local header is. */
  datatype Record = Record(name: seq<byte>, data: seq<byte>, packed: seq<byte>, compressed: nat, offset: nat)

  const DEFLATED: nat := 8

  /** The bytes are the contents, or a DEFLATE stream of them. */
  ghost predicate Packs(r: Record) {
    || (r.compressed == 0 && r.packed == r.data)
    || (r.compressed == DEFLATED && ZipDeflate.Stands(r.packed, r.data))
  }

  function CrcOf(data: seq<byte>): (c: nat)
    ensures c <= MAX32
  {
    CrcBound(Crc32.Crc(Crc32.Init(), data));
    Val(Crc32.Crc(Crc32.Init(), data))
  }

  lemma CrcIs(data: seq<byte>)
    ensures Val(Crc32.Crc(Crc32.Init(), data)) == CrcOf(data) <= MAX32
  {
  }

  lemma CrcBound(w: Crc32.word)
    ensures Val(w) <= MAX32
  {
    hide Pow2, Val;
    ValBound(w);
    Pow2Add(16, 16);
    Pow2Values();
  }

  function Min(a: nat, b: nat): nat {
    if a < b then a else b
  }

  predicate Representable(c: Central) {
    && |c.name| <= MAX16 && c.uncomp <= MAX64 && c.comp <= MAX64 && c.offset <= MAX64
    && c.crc <= MAX32 && c.attr <= MAX32 && c.compressed <= MAX16
  }

  // ---------- the zip64 extended information field ----------

  /** A size or offset goes into the extra field when it does not fit into 32 bits, in this order. */
  function Big(v: nat): seq<byte> {
    if v >= MAX32 then Bytes64(v) else []
  }

  function Zip64Fields(c: Central): (b: seq<byte>)
    ensures |b| <= 24
  {
    Big(c.uncomp) + Big(c.comp) + Big(c.offset)
  }

  function CentralExtra(c: Central): (b: seq<byte>)
    ensures 4 <= |b| <= 28
  {
    Bytes16(1) + Bytes16(|Zip64Fields(c)|) + Zip64Fields(c)
  }

  /** In the local header the sizes are left to the data descriptor. */
  function LocalExtra(offset: nat): (b: seq<byte>)
    ensures 4 <= |b| <= 12
  {
    Bytes16(1) + Bytes16(|Big(offset)|) + Big(offset)
  }

  // ---------- local entries ----------

  function LocalLength(r: Record): nat {
    LOCAL_SIZE + |r.name| + |LocalExtra(r.offset)| + |r.packed| + DESCRIPTOR_SIZE
  }

  function DataStart(r: Record): nat {
    r.offset + LOCAL_SIZE + |r.name| + |LocalExtra(r.offset)|
  }

  /** Local header, name, extra field, data and descriptor of `r` are at its offset. */
  ghost predicate LocalAt(image: seq<byte>, r: Record) {
    && r.offset + LocalLength(r) <= |image| && |r.name| <= MAX16 && |r.data| <= MAX64 && Packs(r)
    && HeaderAt(image, r)
    && image[DataStart(r)..DataStart(r) + |r.packed|] == r.packed
    && DescriptorAt(image, DataStart(r) + |r.packed|, CrcOf(r.data), |r.packed|, |r.data|)
  }

  ghost predicate HeaderAt(image: seq<byte>, r: Record)
    requires DataStart(r) <= |image|
  {
    && Le32(image, r.offset) == LOCAL_SIG && Le16(image, r.offset + 8) == r.compressed
    && Le16(image, r.offset + 26) == |r.name| && Le16(image, r.offset + 28) == |LocalExtra(r.offset)|
    && image[r.offset + LOCAL_SIZE..r.offset + LOCAL_SIZE + |r.name|] == r.name
    && image[r.offset + LOCAL_SIZE + |r.name|..DataStart(r)] == LocalExtra(r.offset)
  }

  ghost predicate DescriptorAt(image: seq<byte>, p: nat, crc: nat, comp: nat, uncomp: nat)
    requires p + DESCRIPTOR_SIZE <= |image|
  {
    && Le32(image, p) == DESCRIPTOR_SIG && Le32(image, p + 4) == crc
    && Le64(image, p + 8) == comp && Le64(image, p + 16) == uncomp
  }

  // ---------- the central directory ----------

  function CentralLength(c: Central): nat {
    CENTRAL_SIZE + |c.name| + |CentralExtra(c)|
  }

  ghost predicate CentralFields(h: seq<byte>, p: nat, c: Central)
    requires p + CENTRAL_SIZE <= |h|
  {
    && Le32(h, p) == CENTRAL_SIG && Le16(h, p + 8) == FLAGS && Le16(h, p + 10) == c.compressed
    && Le32(h, p + 16) == c.crc
    && Le32(h, p + 20) == Min(c.comp, MAX32) && Le32(h, p + 24) == Min(c.uncomp, MAX32)
    && Le16(h, p + 28) == |c.name| && Le16(h, p + 30) == |CentralExtra(c)|
    && Le16(h, p + 32) == 0 && Le16(h, p + 34) == 0
    && Le32(h, p + 38) == c.attr && Le32(h, p + 42) == Min(c.offset, MAX32)
  }

  ghost predicate CentralAt(dir: seq<byte>, p: nat, c: Central) {
    && p + CentralLength(c) <= |dir| && Representable(c)
    && CentralFields(dir, p, c)
    && dir[p + CENTRAL_SIZE..p + CENTRAL_SIZE + |c.name|] == c.name
    && dir[p + CENTRAL_SIZE + |c.name|..p + CentralLength(c)] == CentralExtra(c)
  }

  function CentralOf(r: Record): Central {
    Central(r.name, |r.data|, |r.packed|, CrcOf(r.data), r.compressed,
            if |r.name| > 0 && r.name[|r.name| - 1] == SLASH && |r.data| == 0 then UNIX_FILE + DIRECTORY_BIT
              else UNIX_FILE, r.offset)
  }

  // ---------- whole archives ----------

  /** The records follow each other from the start of the image, without gap or overlap, up to `end`. */
  ghost predicate Tiled(rs: seq<Record>, end: nat) {
    if |rs| == 0 then end == 0
    else
      var last := rs[|rs| - 1];
      end == last.offset + LocalLength(last) && Tiled(rs[..|rs| - 1], last.offset)
  }

  /** Where the last record ends. */
  function Extent(rs: seq<Record>): nat {
    if |rs| == 0 then 0 else rs[|rs| - 1].offset + LocalLength(rs[|rs| - 1])
  }

  /** Where the directory records begin. */
  function CentralStart(rs: seq<Record>, i: nat): nat
    requires i <= |rs|
  {
    if i == 0 then 0 else CentralStart(rs, i - 1) + CentralLength(CentralOf(rs[i - 1]))
  }

  ghost predicate Locals(image: seq<byte>, rs: seq<Record>) {
    forall i :: 0 <= i < |rs| ==> LocalAt(image, rs[i])
  }

  ghost predicate Directory(dir: seq<byte>, rs: seq<Record>) {
    |dir| == CentralStart(rs, |rs|) && forall i :: 0 <= i < |rs| ==>
      CentralAt(dir, CentralStart(rs, i), CentralOf(rs[i]))
  }

  /** The three records at the end, at position `p` (APPNOTE sections 4.3.14-4.3.16). */
  ghost predicate EndAt(image: seq<byte>, p: nat, count: nat, dirOffset: nat, dirSize: nat) {
    && p + END64_SIZE + LOCATOR_SIZE + END_SIZE == |image|
    && End64At(image, p, count, dirOffset, dirSize)
    && LocatorAt(image, p + END64_SIZE, p)
    && EndRecordAt(image, p + END64_SIZE + LOCATOR_SIZE, count, dirOffset, dirSize)
  }

  ghost predicate End64At(image: seq<byte>, p: nat, count: nat, dirOffset: nat, dirSize: nat)
    requires p + END64_SIZE <= |image|
  {
    && Le32(image, p) == END64_SIG && Le64(image, p + 4) == END64_SIZE - 12
    && Le32(image, p + 16) == 0 && Le32(image, p + 20) == 0
    && Le64(image, p + 24) == count && Le64(image, p + 32) == count
    && Le64(image, p + 40) == dirSize && Le64(image, p + 48) == dirOffset
  }

  ghost predicate LocatorAt(image: seq<byte>, p: nat, end64: nat)
    requires p + LOCATOR_SIZE <= |image|
  {
    Le32(image, p) == LOCATOR_SIG && Le64(image, p + 8) == end64 && Le32(image, p + 16) == 1
  }

  ghost predicate EndRecordAt(image: seq<byte>, p: nat, count: nat, dirOffset: nat, dirSize: nat)
    requires p + END_SIZE <= |image|
  {
    && Le32(image, p) == END_SIG && Le16(image, p + 4) == 0 && Le16(image, p + 6) == 0
    && Le16(image, p + 8) == Min(MAX16, count) && Le16(image, p + 10) == Min(MAX16, count)
    && Le32(image, p + 12) == Min(MAX32, dirSize) && Le32(image, p + 16) == Min(MAX32, dirOffset)
  }

  /** The image of an archive of these records. */
  ghost predicate ArchiveOf(image: seq<byte>, rs: seq<Record>) {
    exists end: nat, dirSize: nat :: ArchiveParts(image, rs, end, dirSize)
  }

  ghost predicate ArchiveParts(image: seq<byte>, rs: seq<Record>, end: nat, dirSize: nat) {
    && Tiled(rs, end) && Locals(image, rs) && end + dirSize <= |image| <= MAX64 && dirSize < MAX32 && |rs| <= MAX32
    && Directory(image[end..end + dirSize], rs)
    && EndAt(image, end + dirSize, |rs|, if |rs| == 0 then 0 else end, dirSize)
  }

  // ---------- framing: what is written elsewhere does not matter ----------

  lemma LocalKept(a: seq<byte>, b: seq<byte>, r: Record)
    requires LocalAt(a, r) && r.offset + LocalLength(r) <= |b|
    requires a[..r.offset + LocalLength(r)] == b[..r.offset + LocalLength(r)]
    ensures LocalAt(b, r)
  {
    hide Le16, Le32, Le64, CrcOf, HeaderAt, DescriptorAt, Packs;
    var n := r.offset + LocalLength(r);
    assert a[0..0 + n] == b[0..0 + n];
    SubSame(a, 0, b, 0, n, DataStart(r), |r.packed|);
    HeaderKept(a, b, n, r);
    DescriptorMoved(a, b, n, DataStart(r) + |r.packed|, CrcOf(r.data), |r.packed|, |r.data|);
  }

  lemma HeaderKept(a: seq<byte>, b: seq<byte>, n: nat, r: Record)
    requires DataStart(r) <= n <= |a| && n <= |b| && a[0..0 + n] == b[0..0 + n] && HeaderAt(a, r)
    ensures HeaderAt(b, r)
  {
    hide Le16, Le32, LocalExtra;
    Sub32(a, 0, b, 0, n, r.offset);
    Sub16(a, 0, b, 0, n, r.offset + 8);
    Sub16(a, 0, b, 0, n, r.offset + 26);
    Sub16(a, 0, b, 0, n, r.offset + 28);
    SubSame(a, 0, b, 0, n, r.offset + LOCAL_SIZE, |r.name|);
    SubSame(a, 0, b, 0, n, r.offset + LOCAL_SIZE + |r.name|, |LocalExtra(r.offset)|);
  }

  lemma DescriptorMoved(a: seq<byte>, b: seq<byte>, n: nat, p: nat, crc: nat, comp: nat, uncomp: nat)
    requires p + DESCRIPTOR_SIZE <= n <= |a| && n <= |b| && a[0..0 + n] == b[0..0 + n]
    requires DescriptorAt(a, p, crc, comp, uncomp)
    ensures DescriptorAt(b, p, crc, comp, uncomp)
  {
    hide Le32, Le64;
    Sub32(a, 0, b, 0, n, p);
    Sub32(a, 0, b, 0, n, p + 4);
    Sub64(a, 0, b, 0, n, p + 8);
    Sub64(a, 0, b, 0, n, p + 16);
  }

  /** Directory records may be moved as a whole. */
  lemma CentralMoved(a: seq<byte>, p: nat, b: seq<byte>, q: nat, c: Central)
    requires CentralAt(a, p, c) && q + CentralLength(c) <= |b|
    requires a[p..p + CentralLength(c)] == b[q..q + CentralLength(c)]
    ensures CentralAt(b, q, c)
  {
    hide CentralExtra, CentralFields, Representable;
    var n := CentralLength(c);
    FieldsMoved(a, p, b, q, n, c);
    SubSame(a, p, b, q, n, CENTRAL_SIZE, |c.name|);
    SubSame(a, p, b, q, n, CENTRAL_SIZE + |c.name|, |CentralExtra(c)|);
  }

  lemma FieldsMoved(a: seq<byte>, p: nat, b: seq<byte>, q: nat, n: nat, c: Central)
    requires CENTRAL_SIZE <= n && p + n <= |a| && q + n <= |b| && a[p..p + n] == b[q..q + n] && CentralFields(a, p, c)
    ensures CentralFields(b, q, c)
  {
    hide Le16, Le32, CentralExtra;
    Sub32(a, p, b, q, n, 0);
    Sub16(a, p, b, q, n, 8);
    Sub16(a, p, b, q, n, 10);
    Sub32(a, p, b, q, n, 16);
    Sub32(a, p, b, q, n, 20);
    Sub32(a, p, b, q, n, 24);
    Sub16(a, p, b, q, n, 28);
    Sub16(a, p, b, q, n, 30);
    Sub16(a, p, b, q, n, 32);
    Sub16(a, p, b, q, n, 34);
    Sub32(a, p, b, q, n, 38);
    Sub32(a, p, b, q, n, 42);
  }

  // ---------- tiling ----------

  /** Every record lies before the end. */
  lemma {:induction false} TiledBefore(rs: seq<Record>, end: nat, i: nat)
    requires Tiled(rs, end) && i < |rs|
    ensures rs[i].offset + LocalLength(rs[i]) <= end
    decreases |rs|
  {
    hide LocalLength;
    if i < |rs| - 1 {
      TiledBefore(rs[..|rs| - 1], rs[|rs| - 1].offset, i);
      assert rs[..|rs| - 1][i] == rs[i];
    }
  }

  /** Each record ends where the next one begins, and the first one begins at 0. */
  lemma {:induction false} TiledNext(rs: seq<Record>, end: nat, i: nat)
    requires Tiled(rs, end) && i < |rs|
    ensures rs[i].offset == if i == 0 then 0 else rs[i - 1].offset + LocalLength(rs[i - 1])
    decreases |rs|
  {
    hide LocalLength;
    var init := rs[..|rs| - 1];
    if i < |rs| - 1 {
      TiledNext(init, rs[|rs| - 1].offset, i);
      assert init[i] == rs[i] && (i > 0 ==> init[i - 1] == rs[i - 1]);
    } else if i > 0 {
      assert init[|init| - 1] == rs[i - 1];
    }
  }

  lemma {:induction false} CentralStartPrefix(rs: seq<Record>, r: Record, i: nat)
    requires i <= |rs|
    ensures CentralStart(rs + [r], i) == CentralStart(rs, i)
  {
    hide CentralLength;
    if i > 0 {
      CentralStartPrefix(rs, r, i - 1);
    }
  }

  lemma {:induction false} CentralStartMono(rs: seq<Record>, i: nat, j: nat)
    requires i <= j <= |rs|
    ensures CentralStart(rs, i) + (j - i) * CENTRAL_SIZE <= CentralStart(rs, j)
  {
    hide CentralExtra;
    if i < j {
      CentralStartMono(rs, i, j - 1);
      assert (j - i) * CENTRAL_SIZE == (j - 1 - i) * CENTRAL_SIZE + CENTRAL_SIZE;
    }
  }
}
