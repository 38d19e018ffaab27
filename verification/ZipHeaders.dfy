/** Creating the records of an archive (src/external/miniz.h:8304-8387, 9757-9827). */
module ZipHeaders {
  import opened Bits
  import opened LittleEndian
  import opened ZipFormat

  datatype Maybe = Absent | Given(v: nat)

  function Given64(m: Maybe): seq<byte> {
    if m.Given? then Bytes64(m.v) else []
  }

  /** `mz_zip_writer_create_zip64_extra_data`: the values that are given, one behind the other. */
  method Zip64Extra(uncomp: Maybe, comp: Maybe, offset: Maybe) returns (b: seq<byte>)
    ensures var f := Given64(uncomp) + Given64(comp) + Given64(offset); b == Bytes16(1) + Bytes16(|f|) + f
  {
    var fields: seq<byte> := [];
    var fieldSize := 0;
    if uncomp.Given? {
      fields := fields + Bytes64(uncomp.v);
      fieldSize := fieldSize + 8;
    }
    if comp.Given? {
      fields := fields + Bytes64(comp.v);
      fieldSize := fieldSize + 8;
    }
    if offset.Given? {
      fields := fields + Bytes64(offset.v);
      fieldSize := fieldSize + 8;
    }
    b := Bytes16(1) + Bytes16(fieldSize) + fields;
  }

  /** `(v >= MZ_UINT32_MAX) ? &v : NULL` */
  function IfBig(v: nat): (m: Maybe)
    ensures Given64(m) == Big(v)
  {
    if v >= MAX32 then Given(v) else Absent
  }

  /** `mz_zip_writer_create_local_dir_header` */
  method LocalHeader(nameSize: nat, extraSize: nat, uncomp: nat, comp: nat, crc: nat, compressed: nat, flags: nat,
                     dosTime: nat, dosDate: nat)
    returns (h: seq<byte>)
    requires nameSize <= MAX16 && extraSize <= MAX16 && crc <= MAX32 && compressed <= MAX16 && flags <= MAX16
    requires dosTime <= MAX16 && dosDate <= MAX16
    ensures |h| == LOCAL_SIZE && Le32(h, 0) == LOCAL_SIG && Le16(h, 8) == compressed
    ensures Le16(h, 26) == nameSize && Le16(h, 28) == extraSize
    ensures Le16(h, 6) == flags && Le32(h, 14) == crc && Le32(h, 18) == Min(comp, MAX32)
    ensures Le32(h, 22) == Min(uncomp, MAX32)
  {
    var a := new byte[LOCAL_SIZE](_ => 0);
    Write32(a, 0, LOCAL_SIG);
    Write16(a, 4, if compressed != 0 then 20 else 0);
    Write16(a, 6, flags);
    Write16(a, 8, compressed);
    Write16(a, 10, dosTime);
    Write16(a, 12, dosDate);
    Write32(a, 14, crc);
    Write32(a, 18, Min(comp, MAX32));
    Write32(a, 22, Min(uncomp, MAX32));
    Write16(a, 26, nameSize);
    Write16(a, 28, extraSize);
    h := a[..];
  }

  /** The data descriptor behind the data of an entry. */
  method Descriptor(crc: nat, comp: nat, uncomp: nat) returns (h: seq<byte>)
    requires crc <= MAX32 && comp <= MAX64 && uncomp <= MAX64
    ensures |h| == DESCRIPTOR_SIZE && Le32(h, 0) == DESCRIPTOR_SIG && Le32(h, 4) == crc && Le64(h, 8) == comp
    ensures Le64(h, 16) == uncomp
  {
    var a := new byte[DESCRIPTOR_SIZE](_ => 0);
    Write32(a, 0, DESCRIPTOR_SIG);
    Write32(a, 4, crc);
    Write64(a, 8, comp);
    Write64(a, 16, uncomp);
    h := a[..];
  }

  /** The first half of a central directory header: signature, versions, flags, method, time and checksum. */
  method CentralFront(a: array<byte>, c: Central, dosTime: nat, dosDate: nat)
    requires a.Length == CENTRAL_SIZE && Representable(c) && dosTime <= MAX16 && dosDate <= MAX16
    modifies a
    ensures Elsewhere(a, 0, 20)
    ensures Le32(a[..], 0) == CENTRAL_SIG && Le16(a[..], 8) == FLAGS && Le16(a[..], 10) == c.compressed
    ensures Le32(a[..], 16) == c.crc
  {
    Write32(a, 0, CENTRAL_SIG);
    Write16(a, 6, if c.compressed != 0 then 20 else 0);
    Write16(a, 8, FLAGS);
    Write16(a, 10, c.compressed);
    Write16(a, 12, dosTime);
    Write16(a, 14, dosDate);
    Write32(a, 16, c.crc);
  }

  /** The second half: sizes, lengths, attributes and offset. */
  method CentralBack(a: array<byte>, c: Central)
    requires a.Length == CENTRAL_SIZE && Representable(c) && a[34] == a[35] == 0
    modifies a
    ensures Elsewhere(a, 20, 26)
    ensures Le32(a[..], 20) == Min(c.comp, MAX32) && Le32(a[..], 24) == Min(c.uncomp, MAX32)
    ensures Le16(a[..], 28) == |c.name| && Le16(a[..], 30) == |CentralExtra(c)| && Le16(a[..], 32) == 0
    ensures Le16(a[..], 34) == 0
    ensures Le32(a[..], 38) == c.attr && Le32(a[..], 42) == Min(c.offset, MAX32)
  {
    hide CentralExtra, Representable;
    RepresentableBounds(c);
    Write32(a, 20, Min(c.comp, MAX32));
    Write32(a, 24, Min(c.uncomp, MAX32));
    Write16(a, 28, |c.name|);
    Write16(a, 30, |CentralExtra(c)|);
    Write16(a, 32, 0);
    Write32(a, 38, c.attr);
    Write32(a, 42, Min(c.offset, MAX32));
  }

  lemma RepresentableBounds(c: Central)
    requires Representable(c)
    ensures |c.name| <= MAX16 && c.attr <= MAX32
  {
  }

  /** `mz_zip_writer_create_central_dir_header` */
  method CentralHeader(c: Central, dosTime: nat, dosDate: nat) returns (h: seq<byte>)
    requires Representable(c) && dosTime <= MAX16 && dosDate <= MAX16
    ensures |h| == CENTRAL_SIZE && CentralFields(h, 0, c)
  {
    hide CentralExtra, Representable;
    var a := new byte[CENTRAL_SIZE](_ => 0);
    CentralFront(a, c, dosTime, dosDate);
    CentralBack(a, c);
    h := a[..];
  }

  /** The zip64 end of central directory record. */
  method End64(count: nat, dirOffset: nat, dirSize: nat) returns (h: seq<byte>)
    requires count <= MAX64 && dirOffset <= MAX64 && dirSize <= MAX64
    ensures |h| == END64_SIZE && End64At(h, 0, count, dirOffset, dirSize)
  {
    var a := new byte[END64_SIZE](_ => 0);
    Write32(a, 0, END64_SIG);
    Write64(a, 4, END64_SIZE - 12);
    Write16(a, 12, 0x031E);
    Write16(a, 14, 0x002D);
    Write64(a, 24, count);
    Write64(a, 32, count);
    Write64(a, 40, dirSize);
    Write64(a, 48, dirOffset);
    h := a[..];
  }

  method Locator(end64: nat) returns (h: seq<byte>)
    requires end64 <= MAX64
    ensures |h| == LOCATOR_SIZE && LocatorAt(h, 0, end64)
  {
    var a := new byte[LOCATOR_SIZE](_ => 0);
    Write32(a, 0, LOCATOR_SIG);
    Write64(a, 8, end64);
    Write32(a, 16, 1);
    h := a[..];
  }

  /** The end of central directory record. */
  method EndRecord(count: nat, dirOffset: nat, dirSize: nat) returns (h: seq<byte>)
    ensures |h| == END_SIZE && EndRecordAt(h, 0, count, dirOffset, dirSize)
  {
    var a := new byte[END_SIZE](_ => 0);
    Write32(a, 0, END_SIG);
    Write16(a, 8, Min(MAX16, count));
    Write16(a, 10, Min(MAX16, count));
    Write32(a, 12, Min(MAX32, dirSize));
    Write32(a, 16, Min(MAX32, dirOffset));
    h := a[..];
  }
}
