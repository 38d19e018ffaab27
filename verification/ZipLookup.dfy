/** Reading an entry by its name (src/external/zip.c:1082-1123, 1618-1639): the directory of an archive, the scan for
    the name, and the contents found there. */
module ZipLookup {
  import opened Bits
  import opened Chunks
  import opened LittleEndian
  import opened ZipFormat
  import opened ZipWriter
  import opened ZipReader
  import opened ZipArchive
  import opened Compressing
  import opened NameIndex
  import NameSearch

  /** Entry `r` is meant by `name`. */
  ghost predicate Named(r: Record, name: seq<byte>, caseSensitive: bool) {
    NameSearch.Same(Renamed(name), r.name, caseSensitive)
  }

  lemma NameIs(dir: seq<byte>, rs: seq<Record>, i: nat)
    requires Directory(dir, rs) && i < |rs| && RecordInside(dir, CentralStart(rs, i))
    ensures NameAt(dir, CentralStart(rs, i)) == rs[i].name
  {
    hide Le16, Le32, CentralStart, CentralExtra, CentralLength;
    assert CentralAt(dir, CentralStart(rs, i), CentralOf(rs[i]));
  }

  lemma MatchIs(dir: seq<byte>, rs: seq<Record>, i: nat, name: seq<byte>, caseSensitive: bool)
    requires Directory(dir, rs) && i < |rs| && RecordInside(dir, CentralStart(rs, i))
    ensures NameSearch.Matches(dir, CentralStart(rs, i), Renamed(name), [], caseSensitive, false)
         == Named(rs[i], name, caseSensitive)
  {
    hide Directory, CentralStart, RecordInside, Renamed, NameSearch.Same;
    NameIs(dir, rs, i);
  }

  /** Records a reader can return: renamed, and not directories. */
  ghost predicate Readable(rs: seq<Record>) {
    forall i :: 0 <= i < |rs| ==>
      rs[i].name == Renamed(rs[i].name) && |rs[i].name| > 0 && rs[i].name[|rs[i].name| - 1] != SLASH
  }

  /** The first of the entries with this name is read, and there is an error exactly when there is none. */
  method ReadByName(image: seq<byte>, name: seq<byte>, caseSensitive: bool, chunk: nat, ghost rs: seq<Record>)
    returns (ok: bool, data: seq<byte>)
    requires chunk > 0
    ensures ArchiveOf(image, rs) && Readable(rs) ==>
      (ok <==> (0 < |name| <= MAX16 && exists i :: 0 <= i < |rs| && Named(rs[i], name, caseSensitive)))
    ensures ArchiveOf(image, rs) && Readable(rs) && ok ==>
      exists i :: (0 <= i < |rs| && Named(rs[i], name,
        caseSensitive) && data == rs[i].data && forall k :: 0 <= k < i ==> !Named(rs[k], name, caseSensitive))
  {
    hide ArchiveOf, Directory, CentralStart, RecordInside, Renamed, NameSearch.Same, NameSearch.Matches, Named;
    data := [];
    if |name| == 0 {
      return false, data;
    }
    var dir, offsets;
    ok, dir, offsets := ReadCentralDir(image, rs);
    if !ok {
      return;
    }
    ghost var good := ArchiveOf(image, rs) && Readable(rs);
    RenamedLength(name);
    if good {
      forall i | 0 <= i < |rs|
        ensures RecordInside(dir, offsets[i])
        ensures NameSearch.Matches(dir, offsets[i], Renamed(name), [], caseSensitive, false)
             == Named(rs[i], name, caseSensitive)
      {
        MatchIs(dir, rs, i, name, caseSensitive);
      }
    }
    var found := NameSearch.Scan(dir, offsets, Renamed(name), [], caseSensitive, false);
    if !found.Found? {
      return false, data;
    }
    var entryName;
    ok, entryName, data := ReadEntry(image, dir, offsets, found.index, chunk, rs);
    assert good ==> Named(rs[found.index], name, caseSensitive);
  }

  lemma PlannedReadable(xs: seq<Input>, packs: seq<seq<byte>>, how: nat)
    requires |packs| == |xs| && forall i :: 0 <= i < |xs| ==> Storable(xs[i])
    ensures Readable(Planned(xs, packs, how))
  {
    hide Planned;
    var rs := Planned(xs, packs, how);
    forall i | 0 <= i < |xs|
      ensures rs[i].name == Renamed(xs[i].name) == Renamed(Renamed(xs[i].name))
      ensures |xs[i].name| > 0 && rs[i].name[|xs[i].name| - 1] != SLASH
    {
      PlannedAt(xs, packs, how, i);
      RenamedEnd(xs[i].name);
    }
  }

  /** The name of an entry means the same as `name`. */
  ghost predicate Means(x: Input, name: seq<byte>, caseSensitive: bool) {
    NameSearch.Same(Renamed(name), Renamed(x.name), caseSensitive)
  }

  /** Writing an archive and reading from it by name gives what was written first under that name. */
  method WriteThenRead(xs: seq<Input>, level: nat, dosTime: nat, dosDate: nat, m: Memory, name: seq<byte>,
                       caseSensitive: bool, chunk: nat)
    returns (written: bool, ok: bool, data: seq<byte>)
    requires dosTime <= MAX16 && dosDate <= MAX16 && Volume(level, xs) + 200 <= MAX64 && chunk > 0
    requires forall i :: 0 <= i < |xs| ==> Storable(xs[i])
    ensures DirectoryBound(xs) < MAX32 ==> written
    ensures written ==> (ok <==> 0 < |name| <= MAX16 && exists i :: 0 <= i < |xs| && Means(xs[i], name, caseSensitive))
    ensures written && ok ==> exists i ::
      0 <= i < |xs| && Means(xs[i], name, caseSensitive) && data == Flatten(xs[i].chunks)
      && forall k :: 0 <= k < i ==> !Means(xs[k], name, caseSensitive)
  {
    hide Flatten, Volume, ArchiveOf, Planned, Renamed, NameSearch.Same, Readable, DirectoryLength, DirectoryBound,
      Storable;
    var image;
    ghost var packs;
    written, image, packs := WriteArchive(xs, level, dosTime, dosDate, m);
    ok, data := false, [];
    if written {
      ghost var how := MethodOf(level);
      ghost var rs := Planned(xs, packs, how);
      PlannedReadable(xs, packs, how);
      forall i | 0 <= i < |xs|
        ensures Named(rs[i], name, caseSensitive) == Means(xs[i], name, caseSensitive)
        ensures rs[i].data == Flatten(xs[i].chunks)
      {
        PlannedAt(xs, packs, how, i);
      }
      ok, data := ReadByName(image, name, caseSensitive, chunk, rs);
    }
  }

  lemma RenamedLength(name: seq<byte>)
    ensures |Renamed(name)| == |name|
  {
  }
}
