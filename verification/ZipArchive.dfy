/** Whole archives: reading back what was written (src/external/miniz.h:5612-5908; src/external/zip.c:1255-1331,
    1618-1639). */
module ZipArchive {
  import opened Bits
  import opened Chunks
  import opened LittleEndian
  import opened ZipFormat
  import opened ZipWriter
  import opened ZipReader
  import opened Compressing

  // ---------- the index ----------

  /** `mz_zip_reader_read_central_dir` */
  method ReadCentralDir(image: seq<byte>, ghost rs: seq<Record>) returns (ok: bool, dir: seq<byte>, offsets: seq<nat>)
    ensures ok ==> Consecutive(dir, offsets) && forall i :: 0 <= i < |offsets| ==> RecordInside(dir, offsets[i])
    ensures ArchiveOf(image, rs) ==> (ok && Directory(dir, rs) && |offsets| == |rs|
      && forall i :: 0 <= i < |rs| ==> offsets[i] == CentralStart(rs, i))
  {
    hide Le16, Le32, Le64, Tiled, Locals, Directory, EndAt, CentralStart, CentralAt, Fits, RecordInside;
    dir, offsets := [], [];
    ghost var good := ArchiveOf(image, rs);
    ghost var end, dirSize, q := 0, 0, 0;
    if good {
      end, dirSize, q := Parts(image, rs);
    }
    if |image| < END_SIZE {
      return false, dir, offsets;
    }
    var where := LocateEnd(image);
    if where.NotFound? {
      return false, dir, offsets;
    }
    var e;
    ok, e := ParseEnd(image, where.pos, q, |rs|, if |rs| == 0 then 0 else end, dirSize);
    if !ok || e.total != e.onThisDisk {
      return false, dir, offsets;
    }
    if (e.thisDisk != 0 || e.dirDisk != 0) && (e.thisDisk != 1 || e.dirDisk != 1) {
      return false, dir, offsets;
    }
    if e.dirSize < e.total * CENTRAL_SIZE || e.dirOffset + e.dirSize > |image| {
      return false, dir, offsets;
    }
    if e.total > 0 {
      dir := image[e.dirOffset..e.dirOffset + e.dirSize];
      ok, offsets := IndexRecords(dir, e.total, |image|, e.thisDisk, rs);
    }
  }

  /** What the reader will find in an archive. */
  lemma Parts(image: seq<byte>, rs: seq<Record>) returns (end: nat, dirSize: nat, q: nat)
    requires ArchiveOf(image, rs)
    ensures var dirOffset := if |rs| == 0 then 0 else end;
      && |image| >= END_SIZE && Le32(image, |image| - END_SIZE) == END_SIG
      && EndsWith(image, |image| - END_SIZE, q, |rs|, dirOffset, dirSize)
      && dirSize >= |rs| * CENTRAL_SIZE && dirOffset + dirSize <= |image|
      && (|rs| > 0 ==> Directory(image[dirOffset..dirOffset + dirSize], rs))
      && (|rs| == 0 ==> Directory([], rs))
      && Fits(rs, |image|)
  {
    hide Le32, Tiled, Locals, Directory, EndAt, EndsWith, CentralStart, Fits;
    end, dirSize :| ArchiveParts(image, rs, end, dirSize);
    q := end + dirSize;
    EndFound(image, q, |rs|, if |rs| == 0 then 0 else end, dirSize);
    CentralStartMono(rs, 0, |rs|);
    EmptyDirectory(rs);
    DirectorySize(image[end..end + dirSize], rs);
    EntriesFit(image, rs, end);
  }

  lemma EndFound(image: seq<byte>, q: nat, count: nat, dirOffset: nat, dirSize: nat)
    requires EndAt(image, q, count, dirOffset, dirSize) && count <= MAX32 && dirSize < MAX32
    ensures |image| >= END_SIZE && Le32(image, |image| - END_SIZE) == END_SIG
    ensures EndsWith(image, |image| - END_SIZE, q, count, dirOffset, dirSize)
  {
    hide Le16, Le32, Le64, End64At, LocatorAt;
  }

  lemma EntriesFit(image: seq<byte>, rs: seq<Record>, end: nat)
    requires Tiled(rs, end) && Locals(image, rs) && end <= |image|
    ensures Fits(rs, |image|)
  {
    hide Tiled, LocalLength, Packs, HeaderAt, DescriptorAt;
    forall i | 0 <= i < |rs|
      ensures Packs(rs[i]) && rs[i].offset + LOCAL_SIZE + |rs[i].packed| <= |image|
    {
      assert LocalAt(image, rs[i]);
      TiledBefore(rs, end, i);
      LengthCovers(rs[i]);
    }
  }

  lemma EmptyDirectory(rs: seq<Record>)
    ensures |rs| == 0 ==> Directory([], rs)
    ensures CentralStart(rs, 0) == 0
  {
  }

  lemma LengthCovers(r: Record)
    ensures LOCAL_SIZE + |r.packed| <= LocalLength(r)
  {
  }

  lemma EntryFacts(image: seq<byte>, rs: seq<Record>, i: nat)
    requires ArchiveOf(image, rs) && i < |rs|
    ensures LocalAt(image, rs[i])
  {
    hide Tiled, LocalAt, Directory, EndAt;
  }

  /** Entry `i` of an archive: its name (`zip_entry_openbyindex`) and contents (`zip_entry_noallocread`). */
  method ReadEntry(image: seq<byte>, dir: seq<byte>, offsets: seq<nat>, i: nat, chunk: nat, ghost rs: seq<Record>)
    returns (ok: bool, name: seq<byte>, data: seq<byte>)
    requires i < |offsets| && RecordInside(dir, offsets[i]) && chunk > 0
    ensures ArchiveOf(image, rs) && Directory(dir, rs) && i < |rs| && offsets[i] == CentralStart(rs, i)
      && rs[i].name == Renamed(rs[i].name) && |rs[i].name| > 0 && rs[i].name[|rs[i].name| - 1] != SLASH
      ==> (ok && name == rs[i].name && data == rs[i].data)
  {
    hide LocalAt, CentralAt, CentralStart, RecordInside, CrcOf;
    name, data := [], [];
    ghost var good := ArchiveOf(image, rs) && Directory(dir, rs) && i < |rs| && offsets[i] == CentralStart(rs, i);
    ghost var r := if i < |rs| then rs[i] else Record([], [], [], 0, 0);
    if good {
      EntryFacts(image, rs, i);
      assert CentralAt(dir, offsets[i], CentralOf(r));
      WholeName(dir, offsets[i], CentralOf(r));
    }
    var st;
    ok, st := FileStat(dir, offsets[i], CentralOf(r));
    if !ok {
      return;
    }
    name := Renamed(NameAt(dir, offsets[i]));
    NotDirectory(r);
    var e := Extract(image, st, st.uncomp, chunk, r);
    if e.Refused? {
      return false, name, data;
    }
    data := e.data;
  }

  /** Without a trailing slash the attributes do not say directory. */
  lemma NotDirectory(r: Record)
    ensures |r.name| > 0 && r.name[|r.name| - 1] != SLASH ==> !StatOf(r).isDirectory
  {
    hide CrcOf;
  }

  // ---------- the round trip ----------

  /** A name, and the pieces in which the contents are written. */
  datatype Input = Input(name: seq<byte>, chunks: seq<seq<byte>>)
  datatype Output = Output(name: seq<byte>, data: seq<byte>)

  /** Names that an archive entry which is not a directory can have. */
  predicate Storable(x: Input) {
    0 < |x.name| <= MAX16 && x.name[|x.name| - 1] != SLASH && x.name[|x.name| - 1] != BACKSLASH
  }

  /** An upper bound for what the pieces of an entry take in the file, and its last bytes. */
  ghost function ChunksVolume(level: nat, chunks: seq<seq<byte>>): nat {
    if |chunks| == 0 then Cost(level, 0)
    else ChunksVolume(level, chunks[..|chunks| - 1]) + Cost(level, |chunks[|chunks| - 1]|)
  }

  /** The same for entries, in the file and in the directory. */
  ghost function Volume(level: nat, xs: seq<Input>): nat {
    if |xs| == 0 then 0
    else
      var x := xs[|xs| - 1];
      Volume(level, xs[..|xs| - 1]) + 2 * |x.name| + ChunksVolume(level, x.chunks) + 200
  }

  /** The records of an archive with these entries, packed like this. */
  function Planned(xs: seq<Input>, packs: seq<seq<byte>>, compressed: nat): (rs: seq<Record>)
    requires |packs| == |xs|
    ensures |rs| == |xs|
  {
    if |xs| == 0 then []
    else
      var n := |xs| - 1;
      var before := Planned(xs[..n], packs[..n], compressed);
      before + [Record(Renamed(xs[n].name), Flatten(xs[n].chunks), packs[n], compressed, Extent(before))]
  }

  /** The size of its directory. */
  function DirectoryLength(xs: seq<Input>, packs: seq<seq<byte>>, compressed: nat): nat
    requires |packs| == |xs|
  {
    CentralStart(Planned(xs, packs, compressed), |xs|)
  }

  /** At level 0 the contents are stored. */
  function Contents(xs: seq<Input>): (packs: seq<seq<byte>>)
    ensures |packs| == |xs| && forall i :: 0 <= i < |xs| ==> packs[i] == Flatten(xs[i].chunks)
  {
    seq(|xs|, i requires 0 <= i < |xs| => Flatten(xs[i].chunks))
  }

  lemma PlannedNext(xs: seq<Input>, packs: seq<seq<byte>>, m: nat, x: Input, pack: seq<byte>)
    requires |packs| == |xs|
    ensures Planned(xs + [x], packs + [pack], m)
         == Planned(xs, packs, m) + [Record(Renamed(x.name), Flatten(x.chunks), pack, m, Extent(Planned(xs, packs, m)))]
  {
    assert (xs + [x])[..|xs|] == xs && (packs + [pack])[..|xs|] == packs;
  }

  lemma {:induction false} PlannedAt(xs: seq<Input>, packs: seq<seq<byte>>, m: nat, i: nat)
    requires |packs| == |xs| && i < |xs|
    ensures var r := Planned(xs, packs, m)[i]; r.name == Renamed(xs[i].name) && r.data == Flatten(xs[i].chunks)
  {
    if i < |xs| - 1 {
      PlannedAt(xs[..|xs| - 1], packs[..|xs| - 1], m, i);
    }
  }

  lemma DirectoryNext(rs: seq<Record>, r: Record)
    ensures CentralStart(rs + [r], |rs| + 1) == CentralStart(rs, |rs|) + CentralLength(CentralOf(r))
  {
    hide CentralLength, CrcOf;
    CentralStartPrefix(rs, r, |rs|);
  }

  /** Fewer entries have a shorter directory. */
  lemma {:induction false} DirectoryGrows(xs: seq<Input>, packs: seq<seq<byte>>, m: nat, i: nat)
    requires |packs| == |xs| && i <= |xs|
    ensures DirectoryLength(xs[..i], packs[..i], m) <= DirectoryLength(xs, packs, m)
    decreases |xs| - i
  {
    hide Planned, CentralStart, CentralLength, Flatten;
    if i == |xs| {
      assert xs[..i] == xs && packs[..i] == packs;
    } else {
      DirectoryGrows(xs, packs, m, i + 1);
      PlannedNext(xs[..i], packs[..i], m, xs[i], packs[i]);
      assert xs[..i + 1] == xs[..i] + [xs[i]] && packs[..i + 1] == packs[..i] + [packs[i]];
      DirectoryNext(Planned(xs[..i], packs[..i], m), Planned(xs[..i + 1], packs[..i + 1], m)[i]);
    }
  }

  /** A bound that does not look at the contents: 46 bytes, the name, and at most 28 bytes of zip64 data. */
  function DirectoryBound(xs: seq<Input>): nat {
    if |xs| == 0 then 0 else DirectoryBound(xs[..|xs| - 1]) + |xs[|xs| - 1].name| + CENTRAL_SIZE + 28
  }

  lemma {:induction false} DirectoryFits(xs: seq<Input>, packs: seq<seq<byte>>, m: nat)
    requires |packs| == |xs|
    ensures DirectoryLength(xs, packs, m) <= DirectoryBound(xs)
  {
    hide CentralLength, Flatten, CrcOf, Planned, CentralStart, Extent;
    if |xs| == 0 {
      NothingListed(m);
    } else {
      var n := |xs| - 1;
      DirectoryFits(xs[..n], packs[..n], m);
      PlannedNext(xs[..n], packs[..n], m, xs[n], packs[n]);
      assert xs[..n] + [xs[n]] == xs && packs[..n] + [packs[n]] == packs;
      DirectoryNext(Planned(xs[..n], packs[..n], m), Planned(xs, packs, m)[n]);
      CentralLengthBound(CentralOf(Planned(xs, packs, m)[n]));
    }
  }

  lemma NothingListed(m: nat)
    ensures DirectoryLength([], [], m) == 0
  {
  }

  lemma {:induction false} BoundGrows(xs: seq<Input>, i: nat)
    requires i <= |xs|
    ensures DirectoryBound(xs[..i]) <= DirectoryBound(xs)
    decreases |xs| - i
  {
    if i == |xs| {
      assert xs[..i] == xs;
    } else {
      BoundGrows(xs, i + 1);
      assert xs[..i + 1][..i] == xs[..i];
    }
  }

  lemma CentralLengthBound(c: Central)
    ensures CentralLength(c) <= CENTRAL_SIZE + |c.name| + 28
  {
  }

  lemma VolumeNext(level: nat, xs: seq<Input>, i: nat)
    requires i < |xs|
    ensures Volume(level, xs[..i + 1])
         == Volume(level, xs[..i]) + 2 * |xs[i].name| + ChunksVolume(level, xs[i].chunks) + 200
  {
    assert xs[..i + 1][..i] == xs[..i];
  }

  lemma {:induction false} VolumePrefix(level: nat, xs: seq<Input>, i: nat)
    requires i <= |xs|
    ensures Volume(level, xs[..i]) <= Volume(level, xs)
    decreases |xs| - i
  {
    hide ChunksVolume;
    if i == |xs| {
      assert xs[..i] == xs;
    } else {
      VolumePrefix(level, xs, i + 1);
      VolumeNext(level, xs, i);
    }
  }

  lemma ChunksNext(level: nat, chunks: seq<seq<byte>>, i: nat)
    requires i < |chunks|
    ensures ChunksVolume(level, chunks[..i + 1]) == ChunksVolume(level, chunks[..i]) + Cost(level, |chunks[i]|)
    ensures ChunksVolume(level, chunks[..0]) == Cost(level, 0)
  {
    hide Cost;
    assert chunks[..i + 1][..i] == chunks[..i];
  }

  lemma {:induction false} ChunksPrefix(level: nat, chunks: seq<seq<byte>>, i: nat)
    requires i <= |chunks|
    ensures ChunksVolume(level, chunks[..i]) <= ChunksVolume(level, chunks)
    ensures ChunksVolume(level, chunks[..0]) == Cost(level, 0)
    decreases |chunks| - i
  {
    hide Cost;
    if i == |chunks| {
      assert chunks[..i] == chunks;
    } else {
      ChunksPrefix(level, chunks, i + 1);
      ChunksNext(level, chunks, i);
    }
  }

  /** The contents are not longer than that. */
  lemma {:induction false} ChunksCover(level: nat, chunks: seq<seq<byte>>)
    ensures |Flatten(chunks)| <= ChunksVolume(level, chunks)
  {
    hide Cost;
    if |chunks| > 0 {
      ChunksCover(level, chunks[..|chunks| - 1]);
      CostCovers(level, |chunks[|chunks| - 1]|);
    }
  }

  lemma CostCovers(level: nat, n: nat)
    ensures n <= Cost(level, n)
  {
  }

  /** Open, write and close one entry. */
  method AddEntry(a: Archive, x: Input, dosTime: nat, dosDate: nat, m: Memory) returns (ok: bool, ghost pack: seq<byte>)
    requires a.Valid() && !a.finalized && Storable(x) && dosTime <= MAX16 && dosDate <= MAX16
    requires |a.image| + |a.centralDir| + 2 * |x.name| + ChunksVolume(a.level, x.chunks) + 200 <= MAX64
    modifies a, a.Footprint()
    ensures a.Valid() && !a.finalized && fresh(a.Footprint() - old(a.Footprint()))
    ensures |a.image| + |a.centralDir|
         <= |old(a.image)| + |old(a.centralDir)| + 2 * |x.name| + ChunksVolume(a.level, x.chunks) + 200
    ensures var r := Record(Renamed(x.name), Flatten(x.chunks), pack, MethodOf(a.level), Extent(old(a.records)));
      && var rs := old(a.records) + [r];
      && (ok <==> CentralStart(rs, |rs|) < MAX32)
      && a.records == if ok then rs else old(a.records)
    ensures a.level == 0 ==> pack == Flatten(x.chunks)
  {
    hide Archive.Valid, Archive.Footprint, Archive.ToCome, Flatten, CentralStart, CentralLength, CrcOf, Extent, Cost,
      ChunksVolume, MethodOf;
    a.Lengths();
    var err := a.EntryOpen(x.name, dosTime, dosDate, m);
    ghost var size := |a.image|;
    var i := 0;
    FlattenNone(x.chunks);
    ChunksPrefix(a.level, x.chunks, 0);
    ChunksCover(a.level, x.chunks);
    while i < |x.chunks|
      invariant i <= |x.chunks| && a.Valid() && a.open && !a.finalized && a.written == Flatten(x.chunks[..i])
      invariant a.records == old(a.records) && a.name == Renamed(x.name) && a.centralDir == old(a.centralDir)
      invariant a.headerOffset == Extent(old(a.records)) && fresh(a.Footprint() - old(a.Footprint()))
      invariant |a.image| + a.ToCome() + Cost(a.level, 0) <= size + ChunksVolume(a.level, x.chunks[..i])
    {
      FlattenNext(x.chunks, i);
      FlattenPrefix(x.chunks, i + 1);
      ChunksNext(a.level, x.chunks, i);
      ChunksPrefix(a.level, x.chunks, i + 1);
      a.EntryWrite(x.chunks[i]);
      i := i + 1;
    }
    assert x.chunks[..i] == x.chunks;
    err := a.EntryClose(dosTime, dosDate);
    pack := a.packed;
    ghost var r := Record(Renamed(x.name), Flatten(x.chunks), pack, MethodOf(a.level), Extent(old(a.records)));
    DirectoryNext(old(a.records), r);
    ok := err == Success;
  }

  /** Write all entries and finish the archive.  It fails exactly when the central directory would reach 4 GiB;
      `packs` is what stands for the contents of the entries written until then. */
  method WriteArchive(xs: seq<Input>, level: nat, dosTime: nat, dosDate: nat, m: Memory)
    returns (ok: bool, image: seq<byte>, ghost packs: seq<seq<byte>>)
    requires dosTime <= MAX16 && dosDate <= MAX16 && Volume(level, xs) + 200 <= MAX64
    requires forall i :: 0 <= i < |xs| ==> Storable(xs[i])
    ensures |packs| <= |xs| && (ok <==> DirectoryLength(xs[..|packs|], packs, MethodOf(level)) < MAX32)
    ensures ok ==> |packs| == |xs| && ArchiveOf(image, Planned(xs, packs, MethodOf(level)))
    ensures level == 0 ==> (ok <==> DirectoryLength(xs, Contents(xs), 0) < MAX32)
    ensures DirectoryBound(xs) < MAX32 ==> ok
  {
    hide Archive.Valid, Archive.Footprint, Flatten, Volume, ArchiveOf, Storable, Planned, CentralStart, Extent,
      MethodOf, ChunksVolume, DirectoryBound;
    ghost var how := MethodOf(level);
    var a := new Archive(level);
    a.StartsEmpty();
    a.NothingOwned();
    VolumeNone(level, xs);
    NothingPlanned(how);
    image, packs := [], [];
    var i := 0;
    while i < |xs|
      invariant i <= |xs| && a.Valid() && fresh(a) && fresh(a.Footprint()) && a.level == level && !a.finalized
      invariant |packs| == i && a.records == Planned(xs[..i], packs, how)
      invariant level == 0 ==> packs == Contents(xs)[..i]
      invariant |a.image| + |a.centralDir| <= Volume(level, xs[..i])
    {
      VolumeNext(level, xs, i);
      VolumePrefix(level, xs, i + 1);
      ghost var pack;
      ghost var mine := a.Footprint();
      label Before:
      ok, pack := AddEntry(a, xs[i], dosTime, dosDate, m);
      forall o | o in a.Footprint()
        ensures fresh(o)
      {
        assert o !in mine ==> o in a.Footprint() - mine && fresh@Before(o);
      }
      PlannedNext(xs[..i], packs, how, xs[i], pack);
      assert xs[..i + 1] == xs[..i] + [xs[i]];
      packs := packs + [pack];
      i := i + 1;
      if !ok {
        TooLong(xs, packs, how, level);
        return;
      }
    }
    assert xs[..i] == xs;
    a.Lengths();
    Fitting(xs, packs, how, level);
    ok := a.Finalize();
    image := a.image;
  }

  lemma TooLong(xs: seq<Input>, packs: seq<seq<byte>>, how: nat, level: nat)
    requires |packs| <= |xs| && DirectoryLength(xs[..|packs|], packs, how) >= MAX32 && how == MethodOf(level)
    ensures DirectoryBound(xs) >= MAX32
    ensures level == 0 && packs == Contents(xs)[..|packs|] ==> DirectoryLength(xs, Contents(xs), 0) >= MAX32
  {
    hide DirectoryLength, DirectoryBound;
    var n := |packs|;
    DirectoryFits(xs[..n], packs, how);
    BoundGrows(xs, n);
    DirectoryGrows(xs, Contents(xs), 0, n);
  }

  lemma Fitting(xs: seq<Input>, packs: seq<seq<byte>>, how: nat, level: nat)
    requires |packs| == |xs| && how == MethodOf(level)
    ensures level == 0 && packs == Contents(xs)[..|xs|] ==>
      DirectoryLength(xs, Contents(xs), 0) == DirectoryLength(xs, packs, how)
  {
    hide DirectoryLength;
    assert Contents(xs)[..|xs|] == Contents(xs);
  }

  lemma NothingPlanned(m: nat)
    ensures Planned([], [], m) == []
  {
  }

  lemma VolumeNone(level: nat, xs: seq<Input>)
    ensures Volume(level, xs[..0]) == 0
  {
  }

  /** For any entries, written in any pieces at any level, reading the finished archive gives the same names and
      contents back, in order. */
  method RoundTrip(xs: seq<Input>, level: nat, dosTime: nat, dosDate: nat, m: Memory, chunk: nat)
    returns (written: bool, ok: bool, ys: seq<Output>)
    requires dosTime <= MAX16 && dosDate <= MAX16 && Volume(level, xs) + 200 <= MAX64 && chunk > 0
    requires forall i :: 0 <= i < |xs| ==> Storable(xs[i])
    ensures level == 0 ==> (written <==> DirectoryLength(xs, Contents(xs), 0) < MAX32)
    ensures DirectoryBound(xs) < MAX32 ==> written
    ensures written ==> ok && |ys| == |xs|
    ensures written ==> forall i :: 0 <= i < |xs| ==> ys[i] == Output(Renamed(xs[i].name), Flatten(xs[i].chunks))
  {
    hide Flatten, Volume, ArchiveOf, Directory, CentralStart, RecordInside, Planned, DirectoryBound;
    var image;
    ghost var packs;
    written, image, packs := WriteArchive(xs, level, dosTime, dosDate, m);
    ok, ys := false, [];
    if !written {
      return;
    }
    ghost var rs := Planned(xs, packs, MethodOf(level));
    var dir, offsets;
    ok, dir, offsets := ReadCentralDir(image, rs);
    var i := 0;
    while i < |offsets|
      invariant i <= |offsets| == |xs| && |ys| == i && ok
      invariant forall k :: 0 <= k < i ==> ys[k] == Output(Renamed(xs[k].name), Flatten(xs[k].chunks))
    {
      RenamedEnd(xs[i].name);
      PlannedAt(xs, packs, MethodOf(level), i);
      var name, data;
      ok, name, data := ReadEntry(image, dir, offsets, i, chunk, rs);
      ys := ys + [Output(name, data)];
      i := i + 1;
    }
  }

  /** Names are renamed once. */
  lemma RenamedEnd(name: seq<byte>)
    requires |name| > 0 && name[|name| - 1] != SLASH && name[|name| - 1] != BACKSLASH
    ensures Renamed(Renamed(name)) == Renamed(name) && Renamed(name)[|name| - 1] != SLASH
  {
  }
}
