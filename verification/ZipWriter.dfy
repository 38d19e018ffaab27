/** Writing an archive (src/external/zip.c:961-968, 1045-1238, 1333-1426, 1485-1521;
    src/external/miniz.h:8391-8449, 9739-9842): open, write and close steps that append to the image. */
module ZipWriter {
  import opened Bits
  import opened LittleEndian
  import opened ZipFormat
  import opened ZipHeaders
  import opened Compressing
  import opened ZipDeflate
  import Crc32

  datatype ZipError = Success | InvalidEntryName | InvalidMode | WriteDirFailed

  /** What `zip_strrpl` makes of a name. */
  function Renamed(name: seq<byte>): (r: seq<byte>)
    ensures |r| == |name| && forall i :: 0 <= i < |name| ==> r[i] == if name[i] == BACKSLASH then SLASH else name[i]
  {
    seq(|name|, i requires 0 <= i < |name| => if name[i] == BACKSLASH then SLASH else name[i])
  }

  /** How the contents of entries are packed at a level. */
  function MethodOf(level: nat): nat {
    if level == 0 then 0 else DEFLATED
  }

  /** The room that `n` bytes written at once may take in the file. */
  ghost function Cost(level: nat, n: nat): (c: nat)
    ensures level == 0 ==> c == n
  {
    if level == 0 then n else BlocksSize(n + 1)
  }

  lemma RawStream(level: nat)
    ensures !SettingsOf(level).zlib
  {
  }

  class Archive {
    /** `zip->level & 0xF` */
    const level: nat

    /** The file, and the fields of `mz_zip_archive`. */
    var image: seq<byte>
    var archiveSize: nat
    var totalFiles: nat
    var centralDir: seq<byte>
    var centralDirOffsets: seq<nat>
    var finalized: bool

    /** `zip->entry`; `open` says whether there is a name. */
    var open: bool
    var name: seq<byte>
    var uncompSize: nat
    var compSize: nat
    var crc: Crc32.word
    var dirOffset: nat
    var headerOffset: nat
    var attr: nat

    /** `zip->entry.comp` and `zip->entry.state`, at levels above 0. */
    var comp: Compressor?
    var streamOfs: nat
    var streamSize: nat

    /** The closed entries, what has been written to the open one, and what of that is in the file. */
    ghost var records: seq<Record>
    ghost var written: seq<byte>
    ghost var packed: seq<byte>

    /** The objects that belong to the compressor. */
    ghost function Footprint(): (s: set<object>)
      reads this`comp
      ensures this !in s
    {
      if comp == null then {} else {comp, comp.dict, comp.next, comp.hash, comp.lz, comp.lz.buf, comp.w}
    }

    /** A bound for what the compressor still has to send. */
    ghost function ToCome(): nat
      reads this`comp, this`open, Footprint()
    {
      if comp == null || !open then 0 else comp.ToCome()
    }

    /** The entry as far as it is in the file. */
    ghost function Shell(): Record
      reads this`name, this`packed, this`headerOffset
    {
      Record(name, [], packed, MethodOf(level), headerOffset)
    }

    ghost function Start(): nat
      reads this`name, this`headerOffset
    {
      headerOffset + LOCAL_SIZE + |name| + |LocalExtra(headerOffset)|
    }

    ghost function Current(): Record
      reads this`name, this`written, this`packed, this`headerOffset
    {
      Record(name, written, packed, MethodOf(level), headerOffset)
    }

    /** The closed entries tile the file up to `archiveSize`, and the directory lists them in order. */
    ghost predicate Closed()
      reads this`image, this`archiveSize, this`totalFiles, this`centralDir, this`centralDirOffsets, this`records
    {
      && archiveSize <= |image| <= MAX64 && totalFiles == |records| <= MAX32 && |centralDir| < MAX32
      && Tiled(records, archiveSize) && Locals(image, records) && Directory(centralDir, records)
      && |centralDirOffsets| == |records| && forall i :: 0 <= i < |records| ==>
        centralDirOffsets[i] == CentralStart(records, i)
    }

    /** The open entry has its header, and what was sent for it, behind the closed ones. */
    ghost predicate Opened()
      reads this, Footprint()
    {
      open ==>
        && headerOffset == archiveSize && 0 < |name| <= MAX16 && attr == UNIX_FILE
        && uncompSize == |written| <= MAX64 && crc == Crc32.Crc(Crc32.Init(), written)
        && Sent(image, Shell())
        && (if level == 0 then packed == written && compSize == |written| && dirOffset == Start() + |packed|
            else comp != null && Feeding(comp, written))
    }

    /** The compressor has been given `data`, and has sent what is in the file. */
    ghost predicate Feeding(c: Compressor, data: seq<byte>)
      reads this`name, this`packed, this`headerOffset, this`streamOfs, this`streamSize, c, c.dict, c.lz, c.lz.buf, c.w
    {
      && Streaming(c) && !c.s.zlib && c.src == data && c.sink == packed
      && streamOfs == Start() + |packed| && streamSize == |packed|
    }

    ghost predicate Valid()
      reads this, Footprint()
    {
      Closed() && (!finalized ==> Opened()) && (level == 0 ==> comp == null)
    }

    /** `zip_open(name, level, 'w')` */
    constructor (level: nat)
      ensures Valid() && records == [] && !open && !finalized && image == [] && comp == null && this.level == level
    {
      this.level := level;
      comp, streamOfs, streamSize, packed := null, 0, 0, [];
      image, archiveSize, totalFiles, centralDir, centralDirOffsets, finalized := [], 0, 0, [], [], false;
      open, name, uncompSize, compSize, crc, dirOffset, headerOffset, attr := false, [], 0, 0, Crc32.Init(), 0, 0, 0;
      records, written := [], [];
    }

    lemma StartsEmpty()
      requires image == [] && records == [] && Valid()
      ensures centralDir == []
    {
      NoDirectory(centralDir, records);
    }

    /** Entries and directory are as long as their records say. */
    lemma Lengths()
      requires Valid()
      ensures archiveSize == Extent(records) && |centralDir| == CentralStart(records, |records|) < MAX32
    {
      hide Locals, Opened, CentralStart, CentralAt, LocalLength;
    }

    lemma ImageFits()
      requires Closed()
      ensures |image| <= MAX64
    {
      hide Tiled, Locals, Directory, CentralStart;
    }

    lemma NothingOwned()
      ensures comp == null ==> Footprint() == {}
    {
    }

    /** `m_pWrite` */
    method WriteAt(ofs: nat, data: seq<byte>)
      requires ofs <= |image|
      modifies this`image
      ensures |image| >= ofs + |data| && image[..ofs] == old(image[..ofs]) && image[ofs..ofs + |data|] == data
      ensures |image| <= |old(image)| + |data|
    {
      var end := ofs + |data|;
      image := image[..ofs] + data + (if end < |image| then image[end..] else []);
    }

    /** `_zip_entry_open` in write mode; `m` is what the memory of the compressor holds. */
    method EntryOpen(entryName: seq<byte>, dosTime: nat, dosDate: nat, m: Memory) returns (err: ZipError)
      requires Valid() && |entryName| <= MAX16 && dosTime <= MAX16 && dosDate <= MAX16
      requires |image| + LOCAL_SIZE + |entryName| + 12 <= MAX64
      modifies this
      ensures Valid() && records == old(records) && archiveSize == old(archiveSize)
      ensures err == InvalidEntryName <==> |entryName| == 0
      ensures err == InvalidMode <==> |entryName| > 0 && finalized
      ensures err == Success || err == InvalidMode || err == InvalidEntryName
      ensures err == Success ==> open && name == Renamed(entryName) && written == [] && headerOffset == archiveSize
      ensures err == Success ==> ToCome() == 0
      ensures err != Success ==> image == old(image)
      ensures finalized == old(finalized) && centralDir == old(centralDir)
      ensures |image| <= |old(image)| + LOCAL_SIZE + |entryName| + 12
      ensures fresh(Footprint() - old(Footprint()))
    {
      hide Closed, Sent, Crc32.Crc, Crc32.Init, Start, Shell, Renamed, Feeding, Compressor.ToCome, Footprint;
      if |entryName| == 0 {
        return InvalidEntryName;
      }
      if finalized {
        open := false;
        return InvalidMode;
      }
      BeginEntry(entryName, dosTime, dosDate);
      BeginStream(m);
      err := Success;
    }

    method BeginStream(m: Memory)
      requires (level == 0 ==> comp == null) && written == packed == [] && dirOffset == Start() && compSize == 0
      modifies this`comp, this`streamOfs, this`streamSize
      ensures if level == 0 then comp == null else fresh(Footprint()) && comp != null && Feeding(comp, written)
      ensures comp != null ==> comp.ToCome() == 0
    {
      hide Start, Streaming, Compressor.ToCome, SettingsOf;
      if level > 0 {
        var c := StartStream(level, m);
        assert !c.s.zlib by { RawStream(level); }
        comp, streamOfs, streamSize := c, dirOffset, 0;
      }
    }

    method BeginEntry(entryName: seq<byte>, dosTime: nat, dosDate: nat)
      requires Closed() && 0 < |entryName| <= MAX16 && dosTime <= MAX16 && dosDate <= MAX16
      requires |image| + LOCAL_SIZE + |entryName| + 12 <= MAX64
      modifies this`image, this`dirOffset, this`open, this`name, this`compSize, this`uncompSize, this`crc, this`attr,
               this`headerOffset, this`written, this`packed
      ensures Closed() && Sent(image, Shell()) && dirOffset == Start() && headerOffset == archiveSize
      ensures open && name == Renamed(entryName) && written == packed == [] && compSize == uncompSize == 0
      ensures crc == Crc32.Crc(Crc32.Init(), written) && attr == UNIX_FILE
      ensures |image| <= |old(image)| + LOCAL_SIZE + |entryName| + 12
    {
      hide Tiled, Locals, Directory, HeaderAt, CentralStart, LocalExtra, Crc32.Crc, Crc32.Init, DataStart;
      open, name := true, Renamed(entryName);
      compSize, uncompSize, crc := 0, 0, Crc32.Init();
      dirOffset, headerOffset := archiveSize, archiveSize;
      attr := UNIX_FILE;
      written, packed := [], [];
      ghost var before := image;
      PutHeader(dosTime, dosDate);
      LocalsKept(before, image, records, archiveSize);
      CrcNone();
      StartIs();
    }

    /** Local header, name and extra field of the entry being opened. */
    method PutHeader(dosTime: nat, dosDate: nat)
      requires archiveSize == dirOffset == headerOffset <= |image| <= MAX64 && |name| <= MAX16 && dosTime <= MAX16
      requires dosDate <= MAX16
      requires |image| + LOCAL_SIZE + |name| + 12 <= MAX64
      modifies this`image, this`dirOffset
      ensures headerOffset <= dirOffset <= |image| <= MAX64 && image[..headerOffset] == old(image[..headerOffset])
      ensures var r := Record(name, [], [], MethodOf(level), headerOffset);
        dirOffset == DataStart(r) && HeaderAt(image, r)
      ensures image[dirOffset..dirOffset] == [] && |image| <= |old(image)| + LOCAL_SIZE + |name| + 12
    {
      hide HeaderAt, LocalExtra, Le16, Le32, DataStart, Min;
      var extra := Zip64Extra(Absent, Absent, IfBig(archiveSize));
      LocalExtraIs(archiveSize, extra);
      var h := LocalHeader(|name|, |extra|, 0, 0, 0, MethodOf(level), FLAGS, dosTime, dosDate);
      ghost var before := image;
      WriteAt(dirOffset, h);
      dirOffset := dirOffset + LOCAL_SIZE;
      ghost var i1 := image;
      WriteAt(dirOffset, name);
      dirOffset := dirOffset + |name|;
      ghost var i2 := image;
      WriteAt(dirOffset, extra);
      dirOffset := dirOffset + |extra|;
      Written3(before, i1, i2, image, headerOffset, h, name, extra, MethodOf(level));
    }

    /** `m_pWrite` behind what has been sent for the open entry. */
    method PutSent(ofs: nat, bytes: seq<byte>)
      requires Closed() && Sent(image, Shell()) && headerOffset == archiveSize && ofs == Start() + |packed|
      requires |image| + |bytes| <= MAX64
      modifies this`image, this`packed
      ensures Closed() && Sent(image, Shell()) && packed == old(packed) + bytes && |image| <= |old(image)| + |bytes|
    {
      hide Tiled, Locals, Directory, HeaderAt, CentralStart, LocalExtra;
      ghost var before := image;
      ghost var r := Shell();
      WriteAt(ofs, bytes);
      LocalsKept(before, image, records, archiveSize);
      HeaderStays(before, image, r, ofs, bytes);
      packed := packed + bytes;
      HeaderData(image, r, Shell());
    }

    /** `zip_entry_write` */
    method EntryWrite(buf: seq<byte>)
      requires Valid() && open && !finalized && |image| + ToCome() + Cost(level, |buf|) <= MAX64
      requires |written| + |buf| <= MAX64
      modifies this`image, this`packed, this`compSize, this`uncompSize, this`crc, this`dirOffset, this`streamOfs,
               this`streamSize, this`written, Footprint()
      ensures Valid() && open && !finalized && records == old(records) && name == old(name)
      ensures headerOffset == old(headerOffset) && comp == old(comp)
      ensures written == old(written) + buf && centralDir == old(centralDir)
      ensures |image| + ToCome() <= |old(image)| + old(ToCome()) + Cost(level, |buf|)
    {
      hide Closed, Sent, Start, Crc32.Crc, Crc32.Init, Feeding, BlocksSize, Compressor.ToCome, Shell, Footprint;
      if |buf| > 0 {
        CountIn(buf);
        if level == 0 {
          PutSent(dirOffset, buf);
          dirOffset := dirOffset + |buf|;
          compSize := compSize + |buf|;
        } else {
          Feed(comp, buf);
        }
        written := written + buf;
      } else {
        assert written + buf == written;
      }
    }

    method CountIn(buf: seq<byte>)
      requires crc == Crc32.Crc(Crc32.Init(), written)
      modifies this`uncompSize, this`crc
      ensures crc == Crc32.Crc(Crc32.Init(), written + buf) && uncompSize == old(uncompSize) + |buf|
    {
      hide Crc32.Crc, Crc32.Init;
      uncompSize := uncompSize + |buf|;
      Crc32.CrcConcat(Crc32.Init(), written, buf);
      crc := Crc32.Update(crc, buf);
    }

    /** `tdefl_compress_buffer` with the archive's callback: what the compressor sends goes into the file. */
    method Feed(c: Compressor, buf: seq<byte>)
      requires Closed() && Sent(image, Shell()) && headerOffset == archiveSize && open
      requires comp == c && Feeding(c, written)
      requires |image| + ToCome() + BlocksSize(|buf| + 1) <= MAX64
      modifies this`image, this`packed, this`streamOfs, this`streamSize, Footprint()
      ensures comp == c && Closed() && Sent(image, Shell()) && Feeding(c, written + buf)
      ensures |image| + ToCome() <= |old(image)| + old(ToCome()) + BlocksSize(|buf| + 1)
    {
      hide Closed, Sent, Start, Streaming, BlocksSize, Compressor.ToCome, Shell;
      var out := PutMore(c, buf);
      PutSent(streamOfs, out);
      streamOfs := streamOfs + |out|;
      streamSize := streamSize + |out|;
    }

    /** `zip_entry_close` */
    method EntryClose(dosTime: nat, dosDate: nat) returns (err: ZipError)
      requires Valid() && open && !finalized && dosTime <= MAX16 && dosDate <= MAX16
      requires |image| + ToCome() + Cost(level, 0) + DESCRIPTOR_SIZE <= MAX64
      modifies this, Footprint()
      ensures Valid() && !open && !finalized && comp == old(comp) && (level == 0 ==> packed == old(written))
      ensures var r := Record(old(name), old(written), packed, MethodOf(level), old(headerOffset));
        && (err == WriteDirFailed <==> |old(centralDir)| + CentralLength(CentralOf(r)) >= MAX32)
        && records == if err == Success then old(records) + [r] else old(records)
      ensures err == Success || err == WriteDirFailed
      ensures |image| <= |old(image)| + old(ToCome()) + Cost(level, 0) + DESCRIPTOR_SIZE
      ensures |centralDir| <= |old(centralDir)| + CENTRAL_SIZE + |old(name)| + 28
    {
      hide Closed, Sent, Feeding, Start, DataStart, Crc32.Crc, CentralLength, CentralOf, Packs, BlocksSize,
        Compressor.ToCome, Footprint;
      FinishStream();
      err := ListEntry(dosTime, dosDate);
    }

    /** Descriptor and directory record of the entry that has been sent. */
    method ListEntry(dosTime: nat, dosDate: nat) returns (err: ZipError)
      requires Closed() && Sent(image, Current()) && Packs(Current()) && headerOffset == archiveSize
      requires 0 < |name| <= MAX16 && |written| <= MAX64 && crc == Crc32.Crc(Crc32.Init(), written) && attr == UNIX_FILE
      requires dirOffset == DataStart(Current()) + |packed| && compSize == |packed| && uncompSize == |written|
      requires |packed| <= MAX64 && |image| + DESCRIPTOR_SIZE <= MAX64 && dosTime <= MAX16 && dosDate <= MAX16
      modifies this`image, this`dirOffset, this`attr, this`open, this`totalFiles, this`archiveSize, this`centralDir,
               this`centralDirOffsets, this`records
      ensures Closed() && !open
      ensures err == WriteDirFailed <==> |old(centralDir)| + CentralLength(CentralOf(Current())) >= MAX32
      ensures err == Success || err == WriteDirFailed
      ensures records == if err == Success then old(records) + [Current()] else old(records)
      ensures |image| <= |old(image)| + DESCRIPTOR_SIZE
      ensures |centralDir| <= |old(centralDir)| + CENTRAL_SIZE + |name| + 28
    {
      hide Tiled, Locals, Directory, Sent, CentralStart, Crc32.Crc, CentralExtra, CentralAt, LocalAt, CrcOf,
        CentralLength, LocalLength, DataStart, Packs;
      ghost var r := Current();
      CrcIs(written);
      PutFooter(r);
      if name[|name| - 1] == SLASH && uncompSize == 0 {
        attr := attr + DIRECTORY_BIT;
      }
      var c := Central(name, uncompSize, compSize, Val(crc), MethodOf(level), attr, headerOffset);
      assert c == CentralOf(r);
      open := false;
      err := CountEntry(c, dosTime, dosDate, r);
    }

    /** The entry that ends at `dirOffset` is one of the archive, if its directory record fits. */
    method CountEntry(c: Central, dosTime: nat, dosDate: nat, ghost r: Record) returns (err: ZipError)
      requires Closed() && Representable(c) && dosTime <= MAX16 && dosDate <= MAX16 && c == CentralOf(r)
      requires LocalAt(image, r) && r.offset == archiveSize && dirOffset == r.offset + LocalLength(r) <= |image|
      modifies this`totalFiles, this`archiveSize, this`centralDir, this`centralDirOffsets, this`records
      ensures Closed() && (err == Success || err == WriteDirFailed)
      ensures err == WriteDirFailed <==> |old(centralDir)| + CentralLength(c) >= MAX32
      ensures records == if err == Success then old(records) + [r] else old(records)
      ensures |centralDir| <= |old(centralDir)| + CENTRAL_SIZE + |c.name| + 28
    {
      hide Tiled, Locals, Directory, CentralStart, CentralLength, LocalLength, LocalAt, CentralOf, Representable;
      err := AddToCentralDir(c, dosTime, dosDate, r);
      if err == Success {
        totalFiles := totalFiles + 1;
        archiveSize := dirOffset;
        EntryAdded(image, old(records), r, archiveSize, old(centralDir), centralDir, old(centralDirOffsets));
        records := records + [r];
      }
    }

    /** The rest of the compressed data. */
    method FinishStream()
      requires Valid() && open && !finalized && |image| + ToCome() + Cost(level, 0) <= MAX64
      modifies this`image, this`packed, this`compSize, this`dirOffset, this`streamOfs, this`streamSize, Footprint()
      ensures Closed() && Sent(image, Current()) && Packs(Current()) && (level == 0 ==> packed == written)
      ensures dirOffset == DataStart(Current()) + |packed| && compSize == |packed| <= |image| <= MAX64
      ensures |image| <= |old(image)| + old(ToCome()) + Cost(level, 0)
    {
      hide Closed, Sent, Start, Crc32.Crc, Streaming, BlocksSize, Compressor.ToCome, Stands, DataStart;
      ImageFits();
      if level > 0 {
        var out := PutLast(comp);
        PutSent(streamOfs, out);
        streamOfs := streamOfs + |out|;
        streamSize := streamSize + |out|;
        compSize := streamSize;
        dirOffset := streamOfs;
      }
      SentWhatever(image, Shell(), Current());
      SentBounds(image, Current());
      StartIs();
    }

    lemma StartIs()
      ensures Start() == DataStart(Current()) == DataStart(Shell())
    {
      hide LocalExtra;
    }

    /** The data descriptor behind the data. */
    method PutFooter(ghost r: Record)
      requires Closed() && r == Current() && headerOffset == archiveSize && Packs(r) && Sent(image, r)
      requires 0 < |name| <= MAX16 && |written| <= MAX64 && Val(crc) == CrcOf(written) && uncompSize == |written|
      requires dirOffset == DataStart(r) + |packed| && compSize == |packed| && |image| + DESCRIPTOR_SIZE <= MAX64
      modifies this`image, this`dirOffset
      ensures dirOffset <= |image| <= MAX64 && archiveSize <= dirOffset && Locals(image, records)
      ensures |image| <= |old(image)| + DESCRIPTOR_SIZE
      ensures LocalAt(image, r) && dirOffset == r.offset + LocalLength(r)
    {
      hide Tiled, Locals, Directory, HeaderAt, DescriptorAt, CentralStart, LocalExtra, Crc32.Crc, LocalAt, CrcOf,
        Le32, Le64, Packs;
      CrcIs(written);
      var footer := Descriptor(Val(crc), compSize, uncompSize);
      ghost var before := image;
      WriteAt(dirOffset, footer);
      LocalsKept(before, image, records, archiveSize);
      HeaderStays(before, image, r, dirOffset, footer);
      DescriptorWritten(image, dirOffset, footer, Val(crc), compSize, uncompSize);
      dirOffset := dirOffset + DESCRIPTOR_SIZE;
      EntryComplete(image, r, dirOffset);
    }

    /** `mz_zip_writer_add_to_central_dir` */
    method AddToCentralDir(c: Central, dosTime: nat, dosDate: nat, ghost r: Record) returns (err: ZipError)
      requires Representable(c) && dosTime <= MAX16 && dosDate <= MAX16 && c == CentralOf(r)
      requires Directory(centralDir, records) && |centralDir| < MAX32
      modifies this`centralDir, this`centralDirOffsets
      ensures err == WriteDirFailed <==> |old(centralDir)| + CentralLength(c) >= MAX32
      ensures err == Success || err == WriteDirFailed
      ensures err == WriteDirFailed ==> centralDir == old(centralDir) && centralDirOffsets == old(centralDirOffsets)
      ensures err == Success ==>
        && Directory(centralDir, records + [r]) && centralDirOffsets == old(centralDirOffsets) + [|old(centralDir)|]
        && |centralDir| < MAX32 && |centralDir| <= |old(centralDir)| + CENTRAL_SIZE + |c.name| + 28
    {
      hide Directory, CentralExtra, CentralFields, CentralAt;
      var extra := Zip64Extra(IfBig(c.uncomp), IfBig(c.comp), IfBig(c.offset));
      CentralExtraIs(c, extra);
      if |centralDir| + CENTRAL_SIZE + |c.name| + |extra| >= MAX32 {
        return WriteDirFailed;
      }
      var h := CentralHeader(c, dosTime, dosDate);
      centralDirOffsets := centralDirOffsets + [|centralDir|];
      ghost var before := centralDir;
      centralDir := centralDir + h + c.name + extra;
      RecordListed(before, centralDir, h, c, extra, records, r);
      err := Success;
    }

    /** `mz_zip_writer_finalize_archive`, and the truncation in `zip_close`. */
    method Finalize() returns (ok: bool)
      requires Valid() && !finalized
      requires |image| + |centralDir| + END64_SIZE + LOCATOR_SIZE + END_SIZE <= MAX64
      modifies this
      ensures ok && ArchiveOf(image, records) && records == old(records) && finalized
    {
      hide Tiled, Locals, Directory, CentralStart, LocalAt, CentralAt, EndAt;
      var dirOffset, dirSize := 0, 0;
      ghost var before, end := image, archiveSize;
      if totalFiles > 0 {
        dirOffset := archiveSize;
        dirSize := |centralDir|;
        WriteAt(archiveSize, centralDir);
        archiveSize := archiveSize + dirSize;
      } else {
        NoDirectory(centralDir, records);
      }
      ghost var i1 := image;
      PutEnd(dirOffset, dirSize);
      finalized := true;
      ok := true;
      Finished(before, i1, image, records, centralDir, end, dirOffset, dirSize);
    }

    /** The three end records, and the truncation. */
    method PutEnd(dirOffset: nat, dirSize: nat)
      requires archiveSize <= |image| && totalFiles <= MAX32 && dirOffset <= MAX64 && dirSize <= MAX64
      requires archiveSize + END64_SIZE + LOCATOR_SIZE + END_SIZE <= MAX64
      modifies this`image, this`archiveSize
      ensures EndAt(image, old(archiveSize), totalFiles, dirOffset, dirSize)
      ensures archiveSize == |image| == old(archiveSize) + END64_SIZE + LOCATOR_SIZE + END_SIZE
      ensures image[..old(archiveSize)] == old(image[..archiveSize])
    {
      hide End64At, LocatorAt, EndRecordAt;
      var end64 := archiveSize;
      ghost var i1 := image;
      var h := End64(totalFiles, dirOffset, dirSize);
      WriteAt(archiveSize, h);
      archiveSize := archiveSize + END64_SIZE;
      ghost var i2 := image;
      var l := Locator(end64);
      WriteAt(archiveSize, l);
      archiveSize := archiveSize + LOCATOR_SIZE;
      ghost var i3 := image;
      var e := EndRecord(totalFiles, dirOffset, dirSize);
      WriteAt(archiveSize, e);
      archiveSize := archiveSize + END_SIZE;
      ghost var i4 := image;
      image := image[..archiveSize];
      EndWritten(i1, i2, i3, i4, image, end64, totalFiles, dirOffset, dirSize, h, l, e);
    }
  }

  // ---------- what the steps leave in the image ----------

  lemma LocalExtraIs(offset: nat, extra: seq<byte>)
    requires var f := Given64(Absent) + Given64(Absent) + Given64(IfBig(offset)); extra == Bytes16(1) + Bytes16(|f|) + f
    ensures extra == LocalExtra(offset)
  {
    hide Bytes16, Big;
    assert Given64(Absent) + Given64(Absent) + Given64(IfBig(offset)) == Big(offset);
  }

  lemma CentralExtraIs(c: Central, extra: seq<byte>)
    requires var f := Given64(IfBig(c.uncomp)) + Given64(IfBig(c.comp)) + Given64(IfBig(c.offset));
      extra == Bytes16(1) + Bytes16(|f|) + f
    ensures extra == CentralExtra(c)
  {
    hide Bytes16, Big;
  }

  lemma CrcNone()
    ensures Crc32.Crc(Crc32.Init(), []) == Crc32.Init()
  {
    assert Crc32.Not(Crc32.Not(Crc32.Init())) == Crc32.Init();
  }

  /** The closed entries do not notice what is written behind them. */
  lemma LocalsKept(a: seq<byte>, b: seq<byte>, rs: seq<Record>, end: nat)
    requires Tiled(rs, end) && Locals(a, rs) && end <= |a| && end <= |b| && a[..end] == b[..end]
    ensures Locals(b, rs)
  {
    hide LocalAt, LocalLength, Tiled;
    forall i | 0 <= i < |rs|
      ensures LocalAt(b, rs[i])
    {
      TiledBefore(rs, end, i);
      var n := rs[i].offset + LocalLength(rs[i]);
      assert a[..n] == a[..end][..n] && b[..n] == b[..end][..n];
      LocalKept(a, b, rs[i]);
    }
  }

  /** Header, name and extra field, written one behind the other. */
  lemma Written3(before: seq<byte>, i1: seq<byte>, i2: seq<byte>, i3: seq<byte>, at: nat, h: seq<byte>,
                 name: seq<byte>, extra: seq<byte>, compressed: nat)
    requires at <= |before| && |h| == LOCAL_SIZE && |name| <= MAX16 && extra == LocalExtra(at)
    requires Le32(h, 0) == LOCAL_SIG && Le16(h, 8) == compressed && Le16(h, 26) == |name| && Le16(h, 28) == |extra|
    requires |i1| >= at + LOCAL_SIZE && i1[..at] == before[..at] && i1[at..at + LOCAL_SIZE] == h
    requires |i2| >= at + LOCAL_SIZE + |name| && i2[..at + LOCAL_SIZE] == i1[..at + LOCAL_SIZE]
    requires i2[at + LOCAL_SIZE..at + LOCAL_SIZE + |name|] == name
    requires |i3| >= at + LOCAL_SIZE + |name| + |extra|
    requires i3[..at + LOCAL_SIZE + |name|] == i2[..at + LOCAL_SIZE + |name|]
    requires i3[at + LOCAL_SIZE + |name|..at + LOCAL_SIZE + |name| + |extra|] == extra
    ensures i3[..at] == before[..at]
    ensures var r := Record(name, [], [], compressed, at);
      DataStart(r) == at + LOCAL_SIZE + |name| + |extra| && HeaderAt(i3, r)
  {
    hide Le16, Le32, LocalExtra;
    var n := at + LOCAL_SIZE;
    assert i3[..n] == i3[..n + |name|][..n] == i2[..n + |name|][..n] == i2[..n];
    assert i3[..at] == i3[..n][..at] && i1[..at] == i1[..n][..at];
    assert i3[at..n] == i3[..n][at..] && i1[at..n] == i1[..n][at..];
    assert i3[at..at + LOCAL_SIZE] == h[0..0 + LOCAL_SIZE];
    Sub32(i3, at, h, 0, LOCAL_SIZE, 0);
    Sub16(i3, at, h, 0, LOCAL_SIZE, 8);
    Sub16(i3, at, h, 0, LOCAL_SIZE, 26);
    Sub16(i3, at, h, 0, LOCAL_SIZE, 28);
    assert i3[n..n + |name|] == i3[..n + |name|][n..] && i2[n..n + |name|] == i2[..n + |name|][n..];
  }

  /** Data written behind the header of the open entry. */
  lemma HeaderStays(a: seq<byte>, b: seq<byte>, r: Record, at: nat, data: seq<byte>)
    requires DataStart(r) <= at <= |a| && HeaderAt(a, r)
    requires at + |data| <= |b| && b[..at] == a[..at] && b[at..at + |data|] == data
    ensures HeaderAt(b, r) && b[DataStart(r)..at + |data|] == a[DataStart(r)..at] + data
    ensures b[DataStart(r)..at] == a[DataStart(r)..at]
  {
    hide HeaderAt, LocalExtra;
    assert a[0..0 + at] == b[0..0 + at];
    HeaderKept(a, b, at, r);
    var d := DataStart(r);
    assert b[d..at] == b[..at][d..] && a[d..at] == a[..at][d..];
    assert b[d..at + |data|] == b[d..at] + b[at..at + |data|];
  }

  lemma DescriptorWritten(image: seq<byte>, p: nat, h: seq<byte>, crc: nat, comp: nat, uncomp: nat)
    requires p + DESCRIPTOR_SIZE <= |image| && |h| == DESCRIPTOR_SIZE && image[p..p + DESCRIPTOR_SIZE] == h
    requires Le32(h, 0) == DESCRIPTOR_SIG && Le32(h, 4) == crc && Le64(h, 8) == comp && Le64(h, 16) == uncomp
    ensures DescriptorAt(image, p, crc, comp, uncomp)
  {
    hide Le32, Le64;
    assert image[p..p + DESCRIPTOR_SIZE] == h[0..0 + DESCRIPTOR_SIZE];
    Sub32(image, p, h, 0, DESCRIPTOR_SIZE, 0);
    Sub32(image, p, h, 0, DESCRIPTOR_SIZE, 4);
    Sub64(image, p, h, 0, DESCRIPTOR_SIZE, 8);
    Sub64(image, p, h, 0, DESCRIPTOR_SIZE, 16);
  }

  lemma EntryComplete(image: seq<byte>, r: Record, end: nat)
    requires end == r.offset + LocalLength(r) <= |image| <= MAX64 && |r.name| <= MAX16 && |r.data| <= MAX64 && Packs(r)
    requires HeaderAt(image, r) && image[DataStart(r)..DataStart(r) + |r.packed|] == r.packed
    requires DescriptorAt(image, DataStart(r) + |r.packed|, CrcOf(r.data), |r.packed|, |r.data|)
    ensures LocalAt(image, r)
  {
    hide HeaderAt, DescriptorAt, LocalExtra, CrcOf, Packs;
  }

  lemma RecordAdded(image: seq<byte>, rs: seq<Record>, r: Record, end: nat)
    requires Tiled(rs, r.offset) && Locals(image, rs) && LocalAt(image, r) && end == r.offset + LocalLength(r)
    ensures Tiled(rs + [r], end) && Locals(image, rs + [r])
  {
    hide LocalAt, LocalLength;
    assert (rs + [r])[..|rs|] == rs;
  }

  /** The same, with its place in the directory. */
  lemma EntryAdded(image: seq<byte>, rs: seq<Record>, r: Record, end: nat, before: seq<byte>, dir: seq<byte>,
                   offsets: seq<nat>)
    requires Tiled(rs, r.offset) && Locals(image, rs) && LocalAt(image, r) && end == r.offset + LocalLength(r)
    requires Directory(before, rs) && Directory(dir, rs + [r]) && |dir| < MAX32
    requires |offsets| == |rs| && forall i :: 0 <= i < |rs| ==> offsets[i] == CentralStart(rs, i)
    ensures Tiled(rs + [r], end) && Locals(image, rs + [r]) && |rs| < MAX32
    ensures forall i :: 0 <= i <= |rs| ==> (offsets + [|before|])[i] == CentralStart(rs + [r], i)
  {
    hide Tiled, Locals, Directory, LocalAt, LocalLength, CentralStart;
    RecordAdded(image, rs, r, end);
    DirectorySize(before, rs);
    OffsetsAdded(rs, r, offsets, before);
    CountFits(dir, rs + [r]);
  }

  /** One more record in the directory. */
  lemma RecordListed(before: seq<byte>, after: seq<byte>, h: seq<byte>, c: Central, extra: seq<byte>, rs: seq<Record>,
                     r: Record)
    requires Directory(before, rs) && |h| == CENTRAL_SIZE && CentralFields(h, 0, c) && Representable(c)
    requires extra == CentralExtra(c)
    requires after == before + h + c.name + extra && c == CentralOf(r)
    ensures Directory(after, rs + [r])
    ensures |after| == |before| + CentralLength(c)
  {
    hide CentralFields, CentralExtra, Representable, CentralAt, CentralLength, CentralOf, CentralStart;
    CentralLengthIs(c);
    var rs' := rs + [r];
    CentralStartPrefix(rs, r, |rs|);
    CentralStartLast(rs');
    NewRecordAt(before, after, h, c, extra);
    forall i | 0 <= i < |rs'|
      ensures CentralAt(after, CentralStart(rs', i), CentralOf(rs'[i]))
    {
      if i < |rs| {
        CentralStartPrefix(rs, r, i);
        CentralStays(before, after, CentralStart(rs, i), CentralOf(rs[i]));
      }
    }
  }

  lemma CentralStartLast(rs: seq<Record>)
    requires |rs| > 0
    ensures CentralStart(rs, |rs|) == CentralStart(rs, |rs| - 1) + CentralLength(CentralOf(rs[|rs| - 1]))
  {
    hide CentralLength, CentralOf;
  }

  lemma CentralLengthIs(c: Central)
    ensures CentralLength(c) == CENTRAL_SIZE + |c.name| + |CentralExtra(c)|
  {
  }

  lemma CentralStays(a: seq<byte>, b: seq<byte>, p: nat, c: Central)
    requires CentralAt(a, p, c) && a <= b
    ensures CentralAt(b, p, c)
  {
    hide CentralFields, CentralExtra, Representable;
    var n := CentralLength(c);
    assert a[p..p + n] == b[p..p + n];
    CentralMoved(a, p, b, p, c);
  }

  lemma NewRecordAt(before: seq<byte>, after: seq<byte>, h: seq<byte>, c: Central, extra: seq<byte>)
    requires |h| == CENTRAL_SIZE && CentralFields(h, 0, c) && Representable(c) && extra == CentralExtra(c)
    requires after == before + h + c.name + extra
    ensures CentralAt(after, |before|, c)
  {
    hide CentralFields, CentralExtra, Representable;
    var p := |before|;
    assert after[p..p + CENTRAL_SIZE] == h[0..0 + CENTRAL_SIZE];
    FieldsMoved(h, 0, after, p, CENTRAL_SIZE, c);
    assert after[p + CENTRAL_SIZE..p + CENTRAL_SIZE + |c.name|] == c.name;
    assert after[p + CENTRAL_SIZE + |c.name|..p + CentralLength(c)] == extra;
  }

  lemma OffsetsAdded(rs: seq<Record>, r: Record, offsets: seq<nat>, dir: seq<byte>)
    requires |offsets| == |rs| && (forall i :: 0 <= i < |rs| ==> offsets[i] == CentralStart(rs, i))
    requires |dir| == CentralStart(rs, |rs|)
    ensures forall i :: 0 <= i <= |rs| ==> (offsets + [|dir|])[i] == CentralStart(rs + [r], i)
  {
    hide CentralStart;
    forall i | 0 <= i <= |rs|
      ensures (offsets + [|dir|])[i] == CentralStart(rs + [r], i)
    {
      CentralStartPrefix(rs, r, i);
    }
  }

  lemma CountFits(dir: seq<byte>, rs: seq<Record>)
    requires Directory(dir, rs) && |dir| < MAX32
    ensures |rs| <= MAX32
  {
    hide CentralAt, CentralStart;
    CentralStartMono(rs, 0, |rs|);
  }

  lemma DirectorySize(dir: seq<byte>, rs: seq<Record>)
    requires Directory(dir, rs)
    ensures |dir| == CentralStart(rs, |rs|)
  {
    hide CentralAt, CentralStart;
  }

  lemma NoDirectory(dir: seq<byte>, rs: seq<Record>)
    requires Directory(dir, rs) && |rs| == 0
    ensures dir == []
  {
  }

  /** The header does not depend on the data. */
  lemma HeaderData(image: seq<byte>, r: Record, r': Record)
    requires DataStart(r) <= |image| && HeaderAt(image, r)
    requires r'.name == r.name && r'.offset == r.offset && r'.compressed == r.compressed
    ensures DataStart(r') == DataStart(r) && HeaderAt(image, r')
  {
    hide Le16, Le32, LocalExtra;
  }

  /** Header and data of `r` are in the file, as far as they have been sent. */
  ghost predicate Sent(image: seq<byte>, r: Record) {
    && DataStart(r) + |r.packed| <= |image|
    && HeaderAt(image, r) && image[DataStart(r)..DataStart(r) + |r.packed|] == r.packed
  }

  lemma SentBounds(image: seq<byte>, r: Record)
    requires Sent(image, r)
    ensures DataStart(r) + |r.packed| <= |image|
  {
    hide HeaderAt, LocalExtra;
  }

  /** What the data mean does not matter for that. */
  lemma SentWhatever(image: seq<byte>, r: Record, r': Record)
    requires Sent(image, r) && r'.name == r.name && r'.offset == r.offset && r'.compressed == r.compressed
    requires r'.packed == r.packed
    ensures Sent(image, r') && DataStart(r') == DataStart(r)
  {
    hide HeaderAt, LocalExtra;
    HeaderData(image, r, r');
  }

  /** The finished image. */
  lemma Finished(before: seq<byte>, i1: seq<byte>, image: seq<byte>, rs: seq<Record>, dir: seq<byte>,
                 end: nat, dirOffset: nat, dirSize: nat)
    requires end <= |before| && Tiled(rs, end) && Locals(before, rs) && Directory(dir, rs) && |dir| < MAX32
    requires |rs| <= MAX32
    requires dirSize == |dir| && dirOffset == (if |rs| == 0 then 0 else end)
    requires |i1| >= end + dirSize && i1[..end] == before[..end] && i1[end..end + dirSize] == dir
    requires |image| >= end + dirSize && image[..end + dirSize] == i1[..end + dirSize] && |image| <= MAX64
    requires EndAt(image, end + dirSize, |rs|, dirOffset, dirSize)
    ensures ArchiveOf(image, rs)
  {
    hide Tiled, Locals, Directory, EndAt;
    var p := end + dirSize;
    assert image[..end] == image[..p][..end] == i1[..p][..end] == i1[..end] == before[..end];
    assert image[end..p] == image[..p][end..] == i1[..p][end..] == i1[end..p] == dir;
    LocalsKept(before, image, rs, end);
    assert ArchiveParts(image, rs, end, dirSize);
  }

  lemma EndWritten(i1: seq<byte>, i2: seq<byte>, i3: seq<byte>, i4: seq<byte>, image: seq<byte>, p: nat, count: nat,
                   dirOffset: nat, dirSize: nat,
                   h: seq<byte>, l: seq<byte>, e: seq<byte>)
    requires p <= |i1|
    requires |i2| >= p + END64_SIZE && i2[..p] == i1[..p] && i2[p..p + END64_SIZE] == h
    requires var p1 := p + END64_SIZE;
      |i3| >= p1 + LOCATOR_SIZE && i3[..p1] == i2[..p1] && i3[p1..p1 + LOCATOR_SIZE] == l
    requires var p2 := p + END64_SIZE + LOCATOR_SIZE;
      |i4| >= p2 + END_SIZE && i4[..p2] == i3[..p2] && i4[p2..p2 + END_SIZE] == e
    requires image == i4[..p + END64_SIZE + LOCATOR_SIZE + END_SIZE]
    requires |h| == END64_SIZE && End64At(h, 0, count, dirOffset, dirSize)
    requires |l| == LOCATOR_SIZE && LocatorAt(l, 0, p)
    requires |e| == END_SIZE && EndRecordAt(e, 0, count, dirOffset, dirSize)
    ensures EndAt(image, p, count, dirOffset, dirSize) && image[..p] == i1[..p]
  {
    hide End64At, LocatorAt, EndRecordAt;
    var p1 := p + END64_SIZE;
    var p2 := p1 + LOCATOR_SIZE;
    assert image[..p2] == i3[..p2];
    assert image[..p1] == image[..p2][..p1] == i3[..p2][..p1] == i3[..p1] == i2[..p1];
    assert image[..p] == image[..p1][..p] == i2[..p1][..p] == i2[..p];
    assert image[p..p1] == image[..p1][p..] == i2[..p1][p..] == i2[p..p1] == h;
    assert image[p1..p2] == image[..p2][p1..] == i3[..p2][p1..] == i3[p1..p2] == l;
    assert image[p2..p2 + END_SIZE] == i4[p2..p2 + END_SIZE] == e;
    End64Moved(h, image, p, count, dirOffset, dirSize);
    LocatorMoved(l, image, p1, p);
    EndMoved(e, image, p2, count, dirOffset, dirSize);
  }

  lemma End64Moved(h: seq<byte>, image: seq<byte>, p: nat, count: nat, dirOffset: nat, dirSize: nat)
    requires |h| == END64_SIZE && p + END64_SIZE <= |image| && image[p..p + END64_SIZE] == h
    requires End64At(h, 0, count, dirOffset, dirSize)
    ensures End64At(image, p, count, dirOffset, dirSize)
  {
    hide Le32, Le64;
    assert image[p..p + END64_SIZE] == h[0..0 + END64_SIZE];
    Sub32(image, p, h, 0, END64_SIZE, 0);
    Sub64(image, p, h, 0, END64_SIZE, 4);
    Sub32(image, p, h, 0, END64_SIZE, 16);
    Sub32(image, p, h, 0, END64_SIZE, 20);
    Sub64(image, p, h, 0, END64_SIZE, 24);
    Sub64(image, p, h, 0, END64_SIZE, 32);
    Sub64(image, p, h, 0, END64_SIZE, 40);
    Sub64(image, p, h, 0, END64_SIZE, 48);
  }

  lemma LocatorMoved(h: seq<byte>, image: seq<byte>, p: nat, end64: nat)
    requires |h| == LOCATOR_SIZE && p + LOCATOR_SIZE <= |image| && image[p..p + LOCATOR_SIZE] == h
    requires LocatorAt(h, 0, end64)
    ensures LocatorAt(image, p, end64)
  {
    hide Le32, Le64;
    assert image[p..p + LOCATOR_SIZE] == h[0..0 + LOCATOR_SIZE];
    Sub32(image, p, h, 0, LOCATOR_SIZE, 0);
    Sub64(image, p, h, 0, LOCATOR_SIZE, 8);
    Sub32(image, p, h, 0, LOCATOR_SIZE, 16);
  }

  lemma EndMoved(h: seq<byte>, image: seq<byte>, p: nat, count: nat, dirOffset: nat, dirSize: nat)
    requires |h| == END_SIZE && p + END_SIZE <= |image| && image[p..p + END_SIZE] == h
    requires EndRecordAt(h, 0, count, dirOffset, dirSize)
    ensures EndRecordAt(image, p, count, dirOffset, dirSize)
  {
    hide Le16, Le32;
    assert image[p..p + END_SIZE] == h[0..0 + END_SIZE];
    Sub32(image, p, h, 0, END_SIZE, 0);
    Sub16(image, p, h, 0, END_SIZE, 4);
    Sub16(image, p, h, 0, END_SIZE, 6);
    Sub16(image, p, h, 0, END_SIZE, 8);
    Sub16(image, p, h, 0, END_SIZE, 10);
    Sub32(image, p, h, 0, END_SIZE, 12);
    Sub32(image, p, h, 0, END_SIZE, 16);
  }
}
