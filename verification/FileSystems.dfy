/** The file system: the allocation invariant over the on-disk state, what each operation does
    to that state, and the operations themselves. */
module FileSystems {
  import opened Options
  import opened Layout
  import opened Bytes
  import opened Bitmaps
  import opened PersistentBitmaps
  import opened Volume
  import opened Files
  import opened Directories

  // -------------------------------------------------------------- allocation

  /** A file as the disk records it: where its header is, and the header. */
  datatype File = File(sector: int, hdr: Header)

  ghost predicate GoodFile(f: File) {
    0 <= f.sector < NumSectors && Good(f.hdr) && f.sector !in Data(f.hdr)
  }

  /** The sectors a file occupies: its header's and its data's. */
  ghost function Blocks(f: File): set<int>
    requires Good(f.hdr)
  {
    {f.sector} + Data(f.hdr)
  }

  ghost predicate Owns(t: seq<Option<File>>, o: nat, s: int) {
    o < |t| && t[o].Some? && Good(t[o].value.hdr) && s in Blocks(t[o].value)
  }

  ghost predicate Owned(t: seq<Option<File>>, s: int) {
    exists o: nat :: Owns(t, o, s)
  }

  ghost predicate GoodFiles(t: seq<Option<File>>) {
    forall o | 0 <= o < |t| && t[o].Some? :: GoodFile(t[o].value)
  }

  ghost predicate OneOwner(t: seq<Option<File>>) {
    forall o: nat, p: nat, s: int | Owns(t, o, s) && Owns(t, p, s) :: o == p
  }

  ghost predicate MapExact(t: seq<Option<File>>, bits: seq<bool>)
    requires |bits| == NumSectors
  {
    forall s | 0 <= s < NumSectors :: bits[s] <==> Owned(t, s)
  }

  /** Every file is well-formed, no sector has two owners, and the free map has exactly the
      owned sectors set. */
  ghost predicate TableInv(t: seq<Option<File>>, bits: seq<bool>) {
    |bits| == NumSectors && GoodFiles(t) && OneOwner(t) && MapExact(t, bits)
  }

  lemma AddFile(t: seq<Option<File>>, bits: seq<bool>, o: nat, f: File, bits': seq<bool>)
    requires TableInv(t, bits) && o < |t| && t[o].None? && GoodFile(f) && |bits'| == NumSectors
    requires forall s | s in Blocks(f) :: 0 <= s < NumSectors && !bits[s]
    requires forall s | 0 <= s < NumSectors :: bits'[s] <==> bits[s] || s in Blocks(f)
    ensures TableInv(t[o := Some(f)], bits')
  {
    hide Good, Blocks;
    var t' := t[o := Some(f)];
    forall p: nat, s: int ensures Owns(t', p, s) <==> if p == o then s in Blocks(f) else Owns(t, p, s) {}
    forall s | 0 <= s < NumSectors ensures bits'[s] <==> Owned(t', s) {
      if s in Blocks(f) {
        assert Owns(t', o, s);
      } else if bits[s] {
        var p: nat :| Owns(t, p, s);
        assert Owns(t', p, s);
      }
    }
    forall p: nat, s: int | Owns(t, p, s) ensures s !in Blocks(f) {
      assert Owned(t, s);
    }
  }

  lemma DropFile(t: seq<Option<File>>, bits: seq<bool>, o: nat, bits': seq<bool>)
    requires TableInv(t, bits) && o < |t| && t[o].Some? && |bits'| == NumSectors
    requires forall s | 0 <= s < NumSectors :: bits'[s] <==> bits[s] && s !in Blocks(t[o].value)
    ensures TableInv(t[o := None], bits')
  {
    hide Good, Blocks;
    var t' := t[o := None];
    forall p: nat, s: int ensures Owns(t', p, s) <==> p != o && Owns(t, p, s) {}
    forall s | 0 <= s < NumSectors ensures bits'[s] <==> Owned(t', s) {
      assert Owns(t, o, s) <==> s in Blocks(t[o].value);
      if bits[s] {
        var p: nat :| Owns(t, p, s);
        assert Owns(t', p, s) <==> p != o;
      }
    }
  }

  /** No header lies in a data sector, and files share no data sector. */
  lemma Apart(t: seq<Option<File>>, bits: seq<bool>, o: nat, p: nat)
    requires TableInv(t, bits) && o < |t| && p < |t| && t[o].Some? && t[p].Some?
    ensures GoodFile(t[o].value) && GoodFile(t[p].value)
    ensures t[o].value.sector !in Data(t[p].value.hdr)
    ensures o != p ==> t[o].value.sector != t[p].value.sector
    ensures o != p ==> Data(t[o].value.hdr) !! Data(t[p].value.hdr)
  {
    hide Good, Data, MapExact;
    var f, g := t[o].value, t[p].value;
    assert GoodFile(f) && GoodFile(g);
    if o != p {
      forall s: int | s in Blocks(f) ensures s !in Blocks(g) {
        assert Owns(t, o, s) && !Owns(t, p, s);
      }
      assert f.sector in Blocks(f) && g.sector in Blocks(g) && Data(g.hdr) <= Blocks(g) && Data(f.hdr) <= Blocks(f);
    }
  }

  /** A sector whose bit is clear belongs to no file. */
  lemma ClearIsFree(t: seq<Option<File>>, bits: seq<bool>, o: nat, s: int)
    requires TableInv(t, bits) && o < |t| && t[o].Some? && 0 <= s < NumSectors && !bits[s]
    ensures s != t[o].value.sector && s !in Data(t[o].value.hdr)
  {
    hide Good, Data;
    assert !Owns(t, o, s);
  }

  // -------------------------------------------------------------- the disk's own record

  const FreeMapSector := 0
  const DirectorySector := 1

  ghost function HeaderAt(d: Image, s: int): Header {
    if 0 <= s < NumSectors then DecodeHeader(d[s]) else Header(-1, 0, [])
  }

  /** The headers of the free map and of the directory are in place. */
  ghost predicate Formatted(d: Image) {
    var m, r := HeaderAt(d, FreeMapSector), HeaderAt(d, DirectorySector);
    && Good(m) && m.numBytes == DivRoundUp(NumSectors, 32) * WordSize
    && Good(r) && r.numBytes == NumDirEntries * EntrySize
  }

  ghost function MapBits(d: Image): (bits: seq<bool>)
    requires Formatted(d)
    ensures |bits| == NumSectors
  {
    FileBits(FileBytes(d, HeaderAt(d, FreeMapSector)), NumSectors)
  }

  ghost function Dir(d: Image): (t: seq<DirectoryEntry>)
    requires Formatted(d)
    ensures |t| == NumDirEntries
  {
    DecodeTable(FileBytes(d, HeaderAt(d, DirectorySector)), NumDirEntries)
  }

  ghost function Listed(d: Image, e: DirectoryEntry): Option<File> {
    if e.inUse then Some(File(e.sector, HeaderAt(d, e.sector))) else None
  }

  /** All files on the disk: the free map, the directory, then one per directory entry. */
  ghost function Table(d: Image): (t: seq<Option<File>>)
    requires Formatted(d)
    ensures |t| == NumDirEntries + 2
  {
    [Some(File(FreeMapSector, HeaderAt(d, FreeMapSector))), Some(File(DirectorySector, HeaderAt(d, DirectorySector)))]
      + seq(NumDirEntries, i requires 0 <= i < NumDirEntries => Listed(d, Dir(d)[i]))
  }

  /** The invariant of the on-disk state. */
  ghost predicate Inv(d: Image) {
    Formatted(d) && TableInv(Table(d), MapBits(d)) && DistinctNames(Dir(d))
  }

  lemma SpecialFiles(d: Image)
    requires Formatted(d)
    ensures Table(d)[0] == Some(File(FreeMapSector, HeaderAt(d, FreeMapSector)))
    ensures Table(d)[1] == Some(File(DirectorySector, HeaderAt(d, DirectorySector)))
  {
  }

  lemma ListedFile(d: Image, o: nat)
    requires Formatted(d) && 2 <= o < |Table(d)|
    ensures Table(d)[o] == Listed(d, Dir(d)[o - 2])
  {
  }

  /** A disk with the same special headers, directory and listed headers has the same table. */
  lemma SameTable(d: Image, d': Image)
    requires Formatted(d) && Formatted(d') && Dir(d') == Dir(d)
    requires forall o | 0 <= o < |Table(d)| && Table(d)[o].Some? ::
               HeaderAt(d', Table(d)[o].value.sector) == HeaderAt(d, Table(d)[o].value.sector)
    ensures Table(d') == Table(d)
  {
    hide Formatted, Dir, HeaderAt;
    var t, t' := Table(d), Table(d');
    forall o | 0 <= o < |t| ensures t'[o] == t[o] {
      if o >= 2 {
        assert t[o] == Listed(d, Dir(d)[o - 2]) && t'[o] == Listed(d', Dir(d)[o - 2]);
      } else {
        assert t[o].Some?;
      }
    }
  }

  /** The data sectors of the free map and the directory. */
  ghost function Meta(d: Image): set<int>
    requires Formatted(d)
  {
    Data(HeaderAt(d, FreeMapSector)) + Data(HeaderAt(d, DirectorySector))
  }

  ghost predicate Clear(d: Image, s: int)
    requires Formatted(d)
  {
    0 <= s < NumSectors && !MapBits(d)[s]
  }

  /** A file's header survives changes to the free map, the directory and unowned sectors. */
  lemma HeaderKept(d: Image, d': Image, free: set<int>, o: nat)
    requires Inv(d) && (forall s | s in free :: Clear(d, s)) && SameOutside(d, d', Meta(d) + free)
    requires o < |Table(d)| && Table(d)[o].Some?
    ensures HeaderAt(d', Table(d)[o].value.sector) == HeaderAt(d, Table(d)[o].value.sector)
  {
    var t, bits := Table(d), MapBits(d);
    SpecialFiles(d);
    Apart(t, bits, o, 0);
    Apart(t, bits, o, 1);
    hide Formatted, Table, MapBits, TableInv, Good, Data, DecodeHeader;
    var s := t[o].value.sector;
    if s in free {
      ClearIsFree(t, bits, o, s);
    }
    assert s !in Meta(d) + free;
  }

  lemma FormattedKept(d: Image, d': Image, free: set<int>)
    requires Inv(d) && (forall s | s in free :: Clear(d, s)) && SameOutside(d, d', Meta(d) + free)
    ensures Formatted(d')
    ensures HeaderAt(d', FreeMapSector) == HeaderAt(d, FreeMapSector)
    ensures HeaderAt(d', DirectorySector) == HeaderAt(d, DirectorySector)
  {
    HeaderKept(d, d', free, 0);
    HeaderKept(d, d', free, 1);
  }

  // -------------------------------------------------------------- what the operations do

  /** The directory with the new file's entry filled in. */
  ghost function WithEntry(t: seq<DirectoryEntry>, name: seq<byte>, sector: int32): (r: seq<DirectoryEntry>)
    requires FreeSlot(t) != -1
    ensures |r| == |t|
  {
    t[FreeSlot(t) := Filled(t[FreeSlot(t)], name, sector)]
  }

  /** The free map with the new file's sectors, all of them clear before, set. */
  ghost predicate Marked(d: Image, f: File, bits: seq<bool>)
    requires Formatted(d) && Good(f.hdr)
  {
    && (forall s | s in Blocks(f) :: Clear(d, s))
    && |bits| == NumSectors && forall s | 0 <= s < NumSectors :: bits[s] <==> MapBits(d)[s] || s in Blocks(f)
  }

  /** A file f has been created under a name. */
  ghost predicate Created(d: Image, d': Image, name: seq<byte>, size: nat, f: File) {
    && Formatted(d) && Formatted(d')
    && Index(Dir(d), Key(name)) == -1 && FreeSlot(Dir(d)) != -1
    && GoodFile(f) && f.hdr.numBytes == size && f.sector < 0x8000_0000
    && Marked(d, f, MapBits(d'))
    && HeaderAt(d', f.sector) == f.hdr
    && SameOutside(d, d', Meta(d) + {f.sector})
    && Dir(d') == WithEntry(Dir(d), name, f.sector)
  }

  /** The file of the i-th directory entry has been removed. */
  ghost predicate Removed(d: Image, d': Image, i: nat) {
    && Formatted(d) && Formatted(d')
    && i < NumDirEntries && Dir(d)[i].inUse && Table(d)[i + 2].Some? && Good(Table(d)[i + 2].value.hdr)
    && Dir(d') == Dir(d)[i := Dir(d)[i].(inUse := false)]
    && (forall s | 0 <= s < NumSectors :: MapBits(d')[s] <==> MapBits(d)[s] && s !in Blocks(Table(d)[i + 2].value))
    && SameOutside(d, d', Meta(d))
  }

  /** The table after a change to one directory entry. */
  lemma TableAfter(d: Image, d': Image, free: set<int>, i: nat, e: DirectoryEntry)
    requires Inv(d) && (forall s | s in free :: Clear(d, s)) && SameOutside(d, d', Meta(d) + free)
    requires Formatted(d') && i < NumDirEntries && Dir(d') == Dir(d)[i := e]
    ensures Table(d') == Table(d)[i + 2 := Listed(d', e)]
  {
    FormattedKept(d, d', free);
    SpecialFiles(d);
    SpecialFiles(d');
    hide Formatted, Dir, Table, HeaderAt, Inv, MapBits, SameOutside, Meta;
    var t, t' := Table(d), Table(d');
    forall o | 0 <= o < |t| ensures t'[o] == if o == i + 2 then Listed(d', e) else t[o] {
      if o >= 2 {
        ListedFile(d, o);
        ListedFile(d', o);
        if t[o].Some? {
          HeaderKept(d, d', free, o);
        }
      }
    }
  }

  lemma CreatedKeepsInv(d: Image, d': Image, name: seq<byte>, size: nat, f: File)
    requires Inv(d) && Created(d, d', name, size, f)
    ensures Inv(d') && Table(d') == Table(d)[FreeSlot(Dir(d)) + 2 := Some(f)]
  {
    hide Created, Formatted, Dir, Table, MapBits, TableInv, DistinctNames, Good;
    CreatedTable(d, d', name, size, f);
    CreatedAllocation(d, d', name, size, f);
    CreatedNames(d, d', name, size, f);
  }

  lemma CreatedAllocation(d: Image, d': Image, name: seq<byte>, size: nat, f: File)
    requires Inv(d) && Created(d, d', name, size, f)
    requires Table(d)[FreeSlot(Dir(d)) + 2] == None
    ensures TableInv(Table(d)[FreeSlot(Dir(d)) + 2 := Some(f)], MapBits(d'))
  {
    hide Formatted, Dir, Table, MapBits, HeaderAt, Good, Meta, SameOutside, Key, Filled, TableInv, Blocks, DistinctNames, FreeSlot;
    AddFile(Table(d), MapBits(d), FreeSlot(Dir(d)) + 2, f, MapBits(d'));
  }

  lemma CreatedNames(d: Image, d': Image, name: seq<byte>, size: nat, f: File)
    requires Inv(d) && Created(d, d', name, size, f)
    ensures Formatted(d') && DistinctNames(Dir(d'))
  {
    hide Formatted, Dir, Table, MapBits, HeaderAt, Good, Meta, SameOutside, Key, Filled, TableInv, Blocks, DistinctNames, Index;
    NewNameIsDistinct(Dir(d), FreeSlot(Dir(d)), name, f.sector);
  }

  lemma CreatedTable(d: Image, d': Image, name: seq<byte>, size: nat, f: File)
    requires Inv(d) && Created(d, d', name, size, f)
    ensures var slot := FreeSlot(Dir(d));
            Formatted(d') && 0 <= slot < NumDirEntries
            && Table(d)[slot + 2] == None && Table(d') == Table(d)[slot + 2 := Some(f)]
  {
    assert f.sector in Blocks(f);
    hide Formatted, Dir, Table, MapBits, Good, Meta, SameOutside, Key, TableInv, Blocks, DistinctNames;
    var slot := FreeSlot(Dir(d));
    TableAfter(d, d', {f.sector}, slot, Filled(Dir(d)[slot], name, f.sector));
    ListedFile(d, slot + 2);
  }

  lemma CreatedKeepsHeaders(d: Image, d': Image, name: seq<byte>, size: nat, f: File)
    requires Inv(d) && Created(d, d', name, size, f)
    ensures HeaderAt(d', FreeMapSector) == HeaderAt(d, FreeMapSector)
    ensures HeaderAt(d', DirectorySector) == HeaderAt(d, DirectorySector)
  {
    assert f.sector in Blocks(f);
    FormattedKept(d, d', {f.sector});
  }

  lemma RemovedKeepsHeaders(d: Image, d': Image, i: nat)
    requires Inv(d) && Removed(d, d', i)
    ensures HeaderAt(d', FreeMapSector) == HeaderAt(d, FreeMapSector)
    ensures HeaderAt(d', DirectorySector) == HeaderAt(d, DirectorySector)
  {
    assert Meta(d) + {} == Meta(d);
    FormattedKept(d, d', {});
  }

  lemma NewNameIsDistinct(t: seq<DirectoryEntry>, slot: nat, name: seq<byte>, sector: int32)
    requires DistinctNames(t) && slot < |t| && Index(t, Key(name)) == -1
    ensures DistinctNames(t[slot := Filled(t[slot], name, sector)])
  {
    hide Index, Filled, Key;
  }

  lemma RemovedKeepsInv(d: Image, d': Image, i: nat)
    requires Inv(d) && Removed(d, d', i)
    ensures Inv(d') && Table(d') == Table(d)[i + 2 := None]
  {
    hide Formatted, Dir, Table, MapBits, HeaderAt, Good, Meta, SameOutside, Key, TableInv, Blocks;
    assert SameOutside(d, d', Meta(d) + {}) by { assert Meta(d) + {} == Meta(d); }
    TableAfter(d, d', {}, i, Dir(d)[i].(inUse := false));
    DropFile(Table(d), MapBits(d), i + 2, MapBits(d'));
  }

  /** A write through a handle to the file of owner o, which is neither the free map nor the directory. */
  ghost predicate LiveWrite(d: Image, d': Image, o: nat, at: nat, data: seq<byte>) {
    && Formatted(d) && 2 <= o < |Table(d)| && Table(d)[o].Some?
    && Good(Table(d)[o].value.hdr) && Wrote(d, d', Table(d)[o].value.hdr, at, data)
  }

  lemma LiveWriteKeepsAll(d: Image, d': Image, o: nat, at: nat, data: seq<byte>)
    requires Inv(d) && LiveWrite(d, d', o, at, data)
    ensures Inv(d') && Table(d') == Table(d) && MapBits(d') == MapBits(d) && Dir(d') == Dir(d)
  {
    var t, changed := Table(d), Data(Table(d)[o].value.hdr);
    SpecialFiles(d);
    hide Table, MapBits, TableInv, Good, Data, DecodeHeader, FileBytes, SectorsFor;
    forall p: nat | p < |t| && t[p].Some?
      ensures HeaderAt(d', t[p].value.sector) == HeaderAt(d, t[p].value.sector)
      ensures p != o ==> Data(t[p].value.hdr) !! changed
    {
      Apart(t, MapBits(d), p, o);
    }
    assert Formatted(d');
    hide Formatted, HeaderAt;
    FileFrame(d, d', HeaderAt(d, FreeMapSector), changed);
    FileFrame(d, d', HeaderAt(d, DirectorySector), changed);
    MapFrame(d, d');
    SameTable(d, d');
  }

  lemma MapFrame(d: Image, d': Image)
    requires Formatted(d) && Formatted(d') && HeaderAt(d', FreeMapSector) == HeaderAt(d, FreeMapSector)
    requires FileBytes(d', HeaderAt(d, FreeMapSector)) == FileBytes(d, HeaderAt(d, FreeMapSector))
    ensures MapBits(d') == MapBits(d)
  {
  }

  // -------------------------------------------------------------- runs

  datatype Op =
    | CreateOp(name: seq<byte>, size: nat)
    | RemoveOp(name: seq<byte>)
    | WriteOp(owner: nat, at: nat, data: seq<byte>)

  /** Exactly when Create succeeds. */
  ghost predicate CanCreate(d: Image, name: seq<byte>, size: nat)
    requires Formatted(d)
  {
    && Index(Dir(d), Key(name)) == -1
    && FreeSlot(Dir(d)) != -1
    && 1 + SectorsFor(size) <= CountClear(MapBits(d))
  }

  /** So many clear sectors are enough for a header and for the bytes. */
  predicate RoomFor(size: nat, clear: nat) {
    clear > 0 && size <= (clear - 1) * SectorSize
  }

  /** n sectors hold the bytes, and n - 1 would not. */
  predicate JustHolds(n: int, size: nat) {
    (n - 1) * SectorSize < size <= n * SectorSize
  }

  /** That is: when the name is absent, an entry is free, and besides the sector for the header
      there are clear sectors enough to hold the bytes. */
  lemma CanCreateIff(d: Image, name: seq<byte>, size: nat)
    requires Formatted(d)
    ensures CanCreate(d, name, size) <==>
            && Index(Dir(d), Key(name)) == -1 && FreeSlot(Dir(d)) != -1
            && RoomFor(size, CountClear(MapBits(d)))
  {
    hide Formatted, Dir, MapBits, CountClear, SectorsFor, Index, FreeSlot, Key;
    if CountClear(MapBits(d)) > 0 {
      SectorsAreLeast(size, CountClear(MapBits(d)) - 1);
    }
  }

  /** The sectors of a file in a list. */
  ghost function BlockList(f: File): (q: seq<int>)
    requires Good(f.hdr)
    ensures |q| == 1 + f.hdr.numSectors
  {
    seq(1 + f.hdr.numSectors, i requires 0 <= i < 1 + f.hdr.numSectors => if i == 0 then f.sector else f.hdr.dataSectors[i - 1])
  }

  lemma BlockListIs(f: File)
    requires GoodFile(f)
    ensures var q := BlockList(f);
            && (forall i, j | 0 <= i < j < |q| :: q[i] != q[j])
            && forall s: int :: s in q <==> s in Blocks(f)
  {
    hide SectorsFor;
    var q := BlockList(f);
    forall j | 0 < j < |q| ensures q[j] in Data(f.hdr) {
      assert q[j] == f.hdr.dataSectors[j - 1];
    }
    forall s: int | s in Blocks(f) ensures s in q {
      if s in Data(f.hdr) {
        var i :| 0 <= i < f.hdr.numSectors && f.hdr.dataSectors[i] == s;
        assert q[i + 1] == s;
      } else {
        assert q[0] == s;
      }
    }
  }

  lemma BlocksCost(bits: seq<bool>, bits': seq<bool>, f: File)
    requires GoodFile(f) && |bits| == |bits'| == NumSectors
    requires forall s | s in Blocks(f) :: 0 <= s < NumSectors && !bits[s]
    requires forall s | 0 <= s < NumSectors :: bits'[s] <==> bits[s] || s in Blocks(f)
    ensures CountClear(bits') + 1 + f.hdr.numSectors == CountClear(bits)
  {
    hide CountClear, Blocks, BlockList, SectorsFor, Good;
    BlockListIs(f);
    var q := BlockList(f);
    forall i | 0 <= i < |q| ensures 0 <= q[i] < NumSectors && !bits[q[i]] {
      assert q[i] in q;
    }
    forall s | 0 <= s < NumSectors ensures bits'[s] <==> bits[s] || s in q {
    }
    CountMarked(bits, bits', q);
  }

  /** A new file costs its header's sector and the least number of sectors that hold its
      bytes: none for an empty file. */
  lemma CreatedTakes(d: Image, d': Image, name: seq<byte>, size: nat, f: File)
    requires Created(d, d', name, size, f)
    ensures CountClear(MapBits(d')) + 1 + f.hdr.numSectors == CountClear(MapBits(d))
    ensures JustHolds(f.hdr.numSectors, size)
    ensures size == 0 ==> f.hdr.numSectors == 0
  {
    hide Formatted, MapBits, Dir, SectorsFor, CountClear, WithEntry, HeaderAt, Meta, Blocks, SameOutside;
    BlocksCost(MapBits(d), MapBits(d'), f);
    SectorsAreLeast(size, 0);
  }

  /** And a removal gives all of it back. */
  lemma RemovedFrees(d: Image, d': Image, i: nat)
    requires Inv(d) && Removed(d, d', i)
    ensures CountClear(MapBits(d')) == CountClear(MapBits(d)) + 1 + Table(d)[i + 2].value.hdr.numSectors
  {
    var t, f := Table(d), Table(d)[i + 2].value;
    hide Formatted, MapBits, Dir, Table, SectorsFor, CountClear, HeaderAt, Meta, SameOutside;
    assert GoodFile(f);
    forall s | s in Blocks(f) ensures 0 <= s < NumSectors && !MapBits(d')[s] && MapBits(d)[s] {
      assert Owns(t, i + 2, s);
    }
    hide TableInv;
    BlocksCost(MapBits(d'), MapBits(d), f);
  }

  ghost predicate Next(d: Image, d': Image, op: Op) {
    Formatted(d) &&
    match op
    case CreateOp(name, size) =>
      if CanCreate(d, name, size) then exists f :: Created(d, d', name, size, f) else d' == d
    case RemoveOp(name) =>
      var i := Index(Dir(d), Key(name));
      if i != -1 then Removed(d, d', i) else d' == d
    case WriteOp(owner, at, data) =>
      LiveWrite(d, d', owner, at, data)
  }

  lemma NextKeepsInv(d: Image, d': Image, op: Op)
    requires Inv(d) && Next(d, d', op)
    ensures Inv(d')
  {
    hide Inv, Created, Removed, LiveWrite, CanCreate;
    match op
    case CreateOp(name, size) =>
      if CanCreate(d, name, size) {
        var f :| Created(d, d', name, size, f);
        CreatedKeepsInv(d, d', name, size, f);
      }
    case RemoveOp(name) =>
      var i := Index(Dir(d), Key(name));
      if i != -1 {
        RemovedKeepsInv(d, d', i);
      }
    case WriteOp(owner, at, data) =>
      LiveWriteKeepsAll(d, d', owner, at, data);
  }

  ghost predicate Run(ds: seq<Image>, ops: seq<Op>) {
    |ds| == |ops| + 1 && forall i | 0 <= i < |ops| :: Next(ds[i], ds[i + 1], ops[i])
  }

  lemma {:induction false} RunKeepsInv(ds: seq<Image>, ops: seq<Op>)
    requires Run(ds, ops) && Inv(ds[0])
    ensures Inv(ds[|ops|])
    decreases |ops|
  {
    hide Inv, Next;
    if ops != [] {
      var n := |ops| - 1;
      RunKeepsInv(ds[..n + 1], ops[..n]);
      NextKeepsInv(ds[n], ds[n + 1], ops[n]);
    }
  }

  /** The free map is exact: a bit is set precisely for the two header sectors, the data of
      the free map and of the directory, and the header and data sectors of the listed files;
      and a sector of a listed file belongs to no other file. */
  lemma FreeMapIsExact(d: Image, s: int)
    requires Inv(d) && 0 <= s < NumSectors
    ensures MapBits(d)[s] <==>
      || s == FreeMapSector || s == DirectorySector
      || s in Meta(d)
      || exists o: nat :: 2 <= o && Owns(Table(d), o, s)
    ensures forall o: nat, p: nat | Owns(Table(d), o, s) && Owns(Table(d), p, s) :: o == p
  {
    var t := Table(d);
    SpecialFiles(d);
    hide Table, MapBits, Good, Data, HeaderAt, Formatted, MapExact;
    assert GoodFile(t[0].value) && GoodFile(t[1].value);
    assert Owns(t, 0, s) <==> s == FreeMapSector || s in Data(t[0].value.hdr);
    assert Owns(t, 1, s) <==> s == DirectorySector || s in Data(t[1].value.hdr);
    hide Owns;
    BitMeansOwned(t, MapBits(d), s);
  }

  lemma BitMeansOwned(t: seq<Option<File>>, bits: seq<bool>, s: int)
    requires TableInv(t, bits) && 0 <= s < NumSectors
    ensures bits[s] <==> Owns(t, 0, s) || Owns(t, 1, s) || exists o: nat :: 2 <= o && Owns(t, o, s)
  {
    hide Owns, Good, GoodFiles, OneOwner;
    assert bits[s] <==> Owned(t, s);
  }

  /** An operation leaves every other listed file alone: its header stays where it was, so a
      handle to it stays good, and its bytes are unchanged. */
  lemma OthersUntouched(d: Image, d': Image, op: Op, o: nat)
    requires Inv(d) && Next(d, d', op) && 2 <= o < |Table(d)| && Table(d)[o].Some?
    requires op.WriteOp? ==> op.owner != o
    requires op.RemoveOp? ==> Index(Dir(d), Key(op.name)) != o - 2
    ensures Inv(d') && Table(d')[o] == Table(d)[o] && Good(Table(d)[o].value.hdr)
    ensures FileBytes(d', Table(d)[o].value.hdr) == FileBytes(d, Table(d)[o].value.hdr)
  {
    hide Created, Removed, LiveWrite, Inv, CanCreate;
    match op
    case CreateOp(name, size) =>
      if CanCreate(d, name, size) {
        var f :| Created(d, d', name, size, f);
        CreateTouchesNoFile(d, d', name, size, f, o);
      } else {
        DataApart(d, o);
      }
    case RemoveOp(name) =>
      var i := Index(Dir(d), Key(name));
      if i != -1 {
        RemoveTouchesNoOther(d, d', i, o);
      } else {
        DataApart(d, o);
      }
    case WriteOp(owner, at, data) =>
      WriteTouchesNoOther(d, d', owner, at, data, o);
  }

  /** A listed file's data sectors are not those of the free map or the directory. */
  lemma DataApart(d: Image, o: nat)
    requires Inv(d) && 2 <= o < |Table(d)| && Table(d)[o].Some?
    ensures Good(Table(d)[o].value.hdr) && Data(Table(d)[o].value.hdr) !! Meta(d)
  {
    SpecialFiles(d);
    hide Table, MapBits, Good, Data, HeaderAt, Formatted, TableInv;
    Apart(Table(d), MapBits(d), o, 0);
    Apart(Table(d), MapBits(d), o, 1);
  }

  lemma CreatedChanges(d: Image, d': Image, name: seq<byte>, size: nat, f: File)
    requires Created(d, d', name, size, f)
    ensures Formatted(d) && SameOutside(d, d', Meta(d) + {f.sector}) && FreeSlot(Dir(d)) != -1
    ensures 0 <= f.sector < NumSectors && !MapBits(d)[f.sector]
  {
    hide Formatted, Dir, MapBits, HeaderAt, SameOutside, Meta, FreeSlot, WithEntry;
    assert f.sector in Blocks(f);
  }

  lemma CreateTouchesNoFile(d: Image, d': Image, name: seq<byte>, size: nat, f: File, o: nat)
    requires Inv(d) && Created(d, d', name, size, f) && 2 <= o < |Table(d)| && Table(d)[o].Some?
    ensures Inv(d') && Table(d')[o] == Table(d)[o] && Good(Table(d)[o].value.hdr)
    ensures FileBytes(d', Table(d)[o].value.hdr) == FileBytes(d, Table(d)[o].value.hdr)
  {
    hide Blocks, Filled, Dir, DistinctNames, Table, MapBits, Good, Data, HeaderAt, Formatted, TableInv, FileBytes, SameOutside, Meta, FreeSlot, Created;
    CreatedChanges(d, d', name, size, f);
    DataApart(d, o);
    FreeSlotIsNone(d);
    CreatedKeepsInv(d, d', name, size, f);
    ClearIsFree(Table(d), MapBits(d), o, f.sector);
    FileFrame(d, d', Table(d)[o].value.hdr, Meta(d) + {f.sector});
  }

  lemma RemoveTouchesNoOther(d: Image, d': Image, i: nat, o: nat)
    requires Inv(d) && Removed(d, d', i) && 2 <= o < |Table(d)| && Table(d)[o].Some? && o != i + 2
    ensures Inv(d') && Table(d')[o] == Table(d)[o] && Good(Table(d)[o].value.hdr)
    ensures FileBytes(d', Table(d)[o].value.hdr) == FileBytes(d, Table(d)[o].value.hdr)
  {
    DataApart(d, o);
    RemovedKeepsInv(d, d', i);
    hide Table, MapBits, Good, Data, HeaderAt, Formatted, TableInv, FileBytes, SameOutside, Meta;
    FileFrame(d, d', Table(d)[o].value.hdr, Meta(d));
  }

  lemma WriteTouchesNoOther(d: Image, d': Image, owner: nat, at: nat, data: seq<byte>, o: nat)
    requires Inv(d) && LiveWrite(d, d', owner, at, data) && 2 <= o < |Table(d)| && Table(d)[o].Some? && o != owner
    ensures Inv(d') && Table(d')[o] == Table(d)[o] && Good(Table(d)[o].value.hdr)
    ensures FileBytes(d', Table(d)[o].value.hdr) == FileBytes(d, Table(d)[o].value.hdr)
  {
    LiveWriteKeepsAll(d, d', owner, at, data);
    hide Table, MapBits, Good, Data, HeaderAt, Formatted, TableInv, FileBytes, SameOutside;
    Apart(Table(d), MapBits(d), o, owner);
    FileFrame(d, d', Table(d)[o].value.hdr, Data(Table(d)[owner].value.hdr));
  }

  // -------------------------------------------------------------- handles

  /** A header in memory that is the header of owner o's file on the disk. */
  ghost predicate IsHandle(h: Header, d: Image, o: int) {
    Formatted(d) && 2 <= o < |Table(d)| && Table(d)[o].Some? && Table(d)[o].value.hdr == h
  }

  /** A write through a good handle is an operation of the file system. */
  lemma HandleWrites(h: Header, d: Image, o: nat, d': Image, at: nat, data: seq<byte>)
    requires Inv(d) && IsHandle(h, d, o) && Good(h) && Wrote(d, d', h, at, data)
    ensures Next(d, d', WriteOp(o, at, data))
  {
  }

  /** The operation removes the file of owner o. */
  ghost predicate RemovesFile(d: Image, op: Op, o: int)
    requires Formatted(d)
  {
    op.RemoveOp? && Index(Dir(d), Key(op.name)) == o - 2
  }

  lemma HandleSurvives(h: Header, d: Image, d': Image, op: Op, o: nat)
    requires Inv(d) && Next(d, d', op) && IsHandle(h, d, o) && !RemovesFile(d, op, o)
    ensures Inv(d') && IsHandle(h, d', o) && Good(h)
    ensures !(op.WriteOp? && op.owner == o) ==> FileBytes(d', h) == FileBytes(d, h)
  {
    hide Created, Removed, LiveWrite, CanCreate, TableInv, DistinctNames, Formatted, Table, MapBits, Dir, FileBytes;
    DataApart(d, o);
    if op.WriteOp? && op.owner == o {
      LiveWriteKeepsAll(d, d', o, op.at, op.data);
    } else {
      OthersUntouched(d, d', op, o);
    }
  }

  /** A handle stays good over any run that does not remove its file, and without writes to
      that file its bytes stay what they were. */
  lemma {:induction false} HandleStaysGood(h: Header, ds: seq<Image>, ops: seq<Op>, o: nat)
    requires Run(ds, ops) && Inv(ds[0]) && IsHandle(h, ds[0], o)
    requires forall i | 0 <= i < |ops| :: Next(ds[i], ds[i + 1], ops[i]) && !RemovesFile(ds[i], ops[i], o)
    ensures Inv(ds[|ops|]) && IsHandle(h, ds[|ops|], o) && Good(h)
    ensures (forall i | 0 <= i < |ops| :: !(ops[i].WriteOp? && ops[i].owner == o)) ==> FileBytes(ds[|ops|], h) == FileBytes(ds[0], h)
    decreases |ops|
  {
    hide TableInv, DistinctNames, Formatted, Table, MapBits, Dir, FileBytes, Next, RemovesFile;
    DataApart(ds[0], o);
    if ops != [] {
      var n := |ops| - 1;
      HandleStaysGood(h, ds[..n + 1], ops[..n], o);
      HandleSurvives(h, ds[n], ds[n + 1], ops[n], o);
    }
  }

  // -------------------------------------------------------------- create, then remove

  /** The directory as a map from names to header sectors. */
  ghost function NameMap(t: seq<DirectoryEntry>): map<seq<byte>, int>
    requires DistinctNames(t)
  {
    map i | 0 <= i < |t| && t[i].inUse :: Key(t[i].name) := t[i].sector
  }

  lemma {:induction false} WritesKeepRecord(ds: seq<Image>, ops: seq<Op>)
    requires Run(ds, ops) && Inv(ds[0]) && forall i | 0 <= i < |ops| :: ops[i].WriteOp?
    ensures Inv(ds[|ops|]) && Table(ds[|ops|]) == Table(ds[0])
    ensures MapBits(ds[|ops|]) == MapBits(ds[0]) && Dir(ds[|ops|]) == Dir(ds[0])
    decreases |ops|
  {
    hide TableInv, DistinctNames, Formatted, MapBits, Table, Dir, LiveWrite;
    if ops != [] {
      var n := |ops| - 1;
      WritesKeepRecord(ds[..n + 1], ops[..n]);
      assert LiveWrite(ds[n], ds[n + 1], ops[n].owner, ops[n].at, ops[n].data);
      LiveWriteKeepsAll(ds[n], ds[n + 1], ops[n].owner, ops[n].at, ops[n].data);
    }
  }

  /** Creating a file, writing to any files, and removing the new file leaves the free map as
      it was bit for bit, the same files, and the same directory as a map of names. */
  lemma CreateThenRemove(d: Image, ds: seq<Image>, ops: seq<Op>, d': Image, name: seq<byte>, size: nat)
    requires Inv(d) && CanCreate(d, name, size)
    requires Run(ds, ops) && forall i | 0 <= i < |ops| :: ops[i].WriteOp?
    requires Next(d, ds[0], CreateOp(name, size)) && Next(ds[|ops|], d', RemoveOp(name))
    ensures Inv(d') && MapBits(d') == MapBits(d) && Table(d') == Table(d)
    ensures NameMap(Dir(d')) == NameMap(Dir(d))
  {
    hide TableInv, DistinctNames, Created, Removed, CanCreate, Formatted, MapBits, Table, Dir, LiveWrite;
    var f :| Created(d, ds[0], name, size, f);
    CreatedKeepsInv(d, ds[0], name, size, f);
    WritesKeepRecord(ds, ops);
    CreatedFilesIndex(d, ds[0], name, size, f);
    Undone(d, ds[0], ds[|ops|], d', name, size, f);
  }

  lemma Undone(d: Image, c: Image, e: Image, d': Image, name: seq<byte>, size: nat, f: File)
    requires Inv(d) && Created(d, c, name, size, f) && Inv(e)
    requires Table(e) == Table(d)[FreeSlot(Dir(d)) + 2 := Some(f)] && MapBits(e) == MapBits(c) && Dir(e) == Dir(c)
    requires Removed(e, d', FreeSlot(Dir(d)))
    ensures Inv(d') && MapBits(d') == MapBits(d) && Table(d') == Table(d)
    ensures NameMap(Dir(d')) == NameMap(Dir(d))
  {
    hide TableInv, DistinctNames, Created, Removed, Formatted, MapBits, Table, Dir, Good;
    FreeSlotIsNone(d);
    CreatedFilesIndex(d, c, name, size, f);
    RemovedKeepsInv(e, d', FreeSlot(Dir(d)));
    UndoneBits(d, c, e, d', name, size, f);
    UndoneNames(d, c, e, d', name, size, f);
  }

  lemma FreeSlotIsNone(d: Image)
    requires Formatted(d)
    ensures var slot := FreeSlot(Dir(d)); slot != -1 ==> Table(d)[slot + 2] == None
  {
    hide Formatted, Dir, HeaderAt;
    var slot := FreeSlot(Dir(d));
    if slot != -1 {
      assert Table(d)[slot + 2] == Listed(d, Dir(d)[slot]);
    }
  }

  lemma UndoneBits(d: Image, c: Image, e: Image, d': Image, name: seq<byte>, size: nat, f: File)
    requires Created(d, c, name, size, f) && Formatted(e) && MapBits(e) == MapBits(c)
    requires Table(e) == Table(d)[FreeSlot(Dir(d)) + 2 := Some(f)]
    requires Removed(e, d', FreeSlot(Dir(d)))
    ensures MapBits(d') == MapBits(d)
  {
    hide Formatted, MapBits, Table, Dir, Good, SameOutside, Meta, Blocks, HeaderAt, Key, Clear;
    RestoredBits(d, e, d', f);
  }

  lemma UndoneNames(d: Image, c: Image, e: Image, d': Image, name: seq<byte>, size: nat, f: File)
    requires Created(d, c, name, size, f) && Inv(d) && Inv(d') && Formatted(e) && Dir(e) == Dir(c)
    requires Removed(e, d', FreeSlot(Dir(d)))
    ensures NameMap(Dir(d')) == NameMap(Dir(d))
  {
    hide Formatted, MapBits, Table, Dir, Good, SameOutside, Meta, Blocks, HeaderAt, Key, Clear, TableInv, DistinctNames;
    RestoredNames(Dir(d), Dir(d'), FreeSlot(Dir(d)));
  }

  lemma CreatedFilesIndex(d: Image, d': Image, name: seq<byte>, size: nat, f: File)
    requires Inv(d) && Created(d, d', name, size, f)
    ensures Index(Dir(d'), Key(name)) == FreeSlot(Dir(d)) != -1
  {
    hide Formatted, MapBits, Dir, Good, Key;
    var t, slot := Dir(d), FreeSlot(Dir(d));
    assert Match(Dir(d')[slot], Key(name));
    assert forall i | 0 <= i < |t| && i != slot :: Dir(d')[i] == t[i] && !Match(t[i], Key(name));
  }

  lemma RestoredBits(d: Image, e: Image, d': Image, f: File)
    requires Formatted(d) && Formatted(e) && Formatted(d') && Good(f.hdr)
    requires forall s | s in Blocks(f) :: Clear(d, s)
    requires forall s | 0 <= s < NumSectors :: MapBits(e)[s] <==> MapBits(d)[s] || s in Blocks(f)
    requires forall s | 0 <= s < NumSectors :: MapBits(d')[s] <==> MapBits(e)[s] && s !in Blocks(f)
    ensures MapBits(d') == MapBits(d)
  {
    hide Formatted, MapBits, Blocks, Good;
    forall s | 0 <= s < NumSectors ensures MapBits(d')[s] == MapBits(d)[s] {}
  }

  lemma RestoredNames(t: seq<DirectoryEntry>, t': seq<DirectoryEntry>, slot: nat)
    requires DistinctNames(t) && DistinctNames(t') && slot < |t| == |t'| && !t[slot].inUse && !t'[slot].inUse
    requires forall i | 0 <= i < |t| && i != slot :: t'[i] == t[i]
    ensures NameMap(t') == NameMap(t)
  {
    hide Key;
  }

  // -------------------------------------------------------------- the operations

  /** The sectors Create picks: the first clear one for the header, then the first clear ones
      in turn for the data. */
  ghost predicate FirstFit(bits: seq<bool>, f: File)
    requires Good(f.hdr)
  {
    && f.sector == FirstClear(bits) != -1
    && f.hdr.dataSectors[..f.hdr.numSectors] == Take(bits[f.sector := true], f.hdr.numSectors).0
  }

  lemma FitsFirst(bits: seq<bool>, f: File)
    requires Good(f.hdr) && f.sector == FirstClear(bits) != -1
    requires f.hdr.dataSectors[..f.hdr.numSectors] == Take(bits[f.sector := true], f.hdr.numSectors).0
    ensures FirstFit(bits, f)
  {
  }

  lemma FirstFitIsClear(bits: seq<bool>, f: File)
    requires |bits| == NumSectors && Good(f.hdr) && FirstFit(bits, f)
    requires 1 + f.hdr.numSectors <= CountClear(bits)
    ensures GoodFile(f)
    ensures forall s | s in Blocks(f) :: 0 <= s < NumSectors && !bits[s]
    ensures var left := Take(bits[f.sector := true], f.hdr.numSectors).1;
            |left| == NumSectors && forall s | 0 <= s < NumSectors :: left[s] <==> bits[s] || s in Blocks(f)
  {
    hide SectorsFor, Take, FirstClear, CountClear;
    var bits', n := bits[f.sector := true], f.hdr.numSectors;
    CountSet(bits, f.sector);
    TakeFinds(bits', n);
    var taken := Take(bits', n).0;
    assert forall i | 0 <= i < n :: f.hdr.dataSectors[i] == taken[i];
    forall s: int ensures s in Data(f.hdr) <==> s in taken {
      if s in taken {
        var i :| 0 <= i < n && taken[i] == s;
        assert f.hdr.dataSectors[i] == s;
      }
    }
  }

  /** Writing a new header to a clear sector, then the directory, then the free map. */
  lemma CreateWrites(d: Image, d1: Image, d2: Image, d3: Image, name: seq<byte>, f: File, bits: seq<bool>)
    requires Inv(d) && GoodFile(f) && f.sector < 0x8000_0000
    requires Index(Dir(d), Key(name)) == -1 && FreeSlot(Dir(d)) != -1 && Marked(d, f, bits)
    requires d1 == d[f.sector := EncodeHeader(f.hdr)]
    requires Replaced(d1, d2, HeaderAt(d, DirectorySector), EncodeTable(WithEntry(Dir(d), name, f.sector)))
    requires SameOutside(d2, d3, Data(HeaderAt(d, FreeMapSector)))
    requires FileBits(FileBytes(d3, HeaderAt(d, FreeMapSector)), NumSectors) == bits
    ensures Created(d, d3, name, f.hdr.numBytes, f)
  {
    var t' := WithEntry(Dir(d), name, f.sector);
    assert f.sector in Blocks(f);
    hide Inv, Table, MapBits, Dir, HeaderAt, Formatted, Good, EncodeTable, EncodeHeader, Filled, Key, FreeSlot, Index;
    hide FileBytes, FileBits, Blocks, SameOutside, Data, Meta;
    CreateImages(d, d1, d2, d3, f, EncodeTable(t'));
    Recorded(d, d3, {f.sector}, t', bits);
    StoredHeader(d1, d3, f);
  }

  /** The bytes after the three writes. */
  lemma CreateImages(d: Image, d1: Image, d2: Image, d3: Image, f: File, bytes: seq<byte>)
    requires Inv(d) && GoodFile(f) && Clear(d, f.sector)
    requires d1 == d[f.sector := EncodeHeader(f.hdr)]
    requires Replaced(d1, d2, HeaderAt(d, DirectorySector), bytes)
    requires SameOutside(d2, d3, Data(HeaderAt(d, FreeMapSector)))
    ensures SameOutside(d, d3, Meta(d) + {f.sector}) && d3[f.sector] == d1[f.sector]
    ensures FileBytes(d3, HeaderAt(d, DirectorySector)) == bytes
  {
    MapAndDirectoryApart(d);
    ClearIsNotMeta(d, f.sector);
    hide Table, MapBits, Dir, HeaderAt, Good, EncodeHeader, FileBytes, Data, TableInv, DistinctNames;
    FileFrame(d2, d3, HeaderAt(d, DirectorySector), Data(HeaderAt(d, FreeMapSector)));
  }

  lemma StoredHeader(d1: Image, d3: Image, f: File)
    requires GoodFile(f) && d1[f.sector] == EncodeHeader(f.hdr) && d3[f.sector] == d1[f.sector]
    ensures HeaderAt(d3, f.sector) == f.hdr
  {
    hide EncodeHeader, DecodeHeader;
    HeaderRoundTrip(f.hdr);
  }

  /** The free map first, then the directory. */
  lemma RemoveWrites(d: Image, d1: Image, d2: Image, i: nat, bits: seq<bool>)
    requires Inv(d) && i < NumDirEntries && Dir(d)[i].inUse && Table(d)[i + 2].Some? && Good(Table(d)[i + 2].value.hdr)
    requires |bits| == NumSectors
    requires forall s | 0 <= s < NumSectors :: bits[s] <==> MapBits(d)[s] && s !in Blocks(Table(d)[i + 2].value)
    requires SameOutside(d, d1, Data(HeaderAt(d, FreeMapSector)))
    requires FileBits(FileBytes(d1, HeaderAt(d, FreeMapSector)), NumSectors) == bits
    requires Replaced(d1, d2, HeaderAt(d, DirectorySector), EncodeTable(Dir(d)[i := Dir(d)[i].(inUse := false)]))
    ensures Removed(d, d2, i)
  {
    hide TableInv, DistinctNames, Table, MapBits, Dir, HeaderAt, Formatted, Good, EncodeTable, FileBytes, FileBits, Blocks;
    hide SameOutside, Data, Meta;
    var t' := Dir(d)[i := Dir(d)[i].(inUse := false)];
    RemoveImages(d, d1, d2, EncodeTable(t'));
    Recorded(d, d2, {}, t', bits);
    assert Meta(d) + {} == Meta(d);
  }

  /** The bytes after the two writes. */
  lemma RemoveImages(d: Image, d1: Image, d2: Image, bytes: seq<byte>)
    requires Inv(d) && SameOutside(d, d1, Data(HeaderAt(d, FreeMapSector)))
    requires Replaced(d1, d2, HeaderAt(d, DirectorySector), bytes)
    ensures SameOutside(d, d2, Meta(d) + {})
    ensures FileBytes(d2, HeaderAt(d, DirectorySector)) == bytes
    ensures FileBytes(d2, HeaderAt(d, FreeMapSector)) == FileBytes(d1, HeaderAt(d, FreeMapSector))
  {
    MapAndDirectoryApart(d);
    hide Table, MapBits, Dir, HeaderAt, Good, FileBytes, Data, TableInv, DistinctNames;
    FileFrame(d1, d2, HeaderAt(d, FreeMapSector), Data(HeaderAt(d, DirectorySector)));
  }

  /** What the writes of a creation, and of a removal, leave. */
  lemma CreationComplete(d: Image, d1: Image, d2: Image, d3: Image, name: seq<byte>, f: File, bits: seq<bool>)
    requires Inv(d) && GoodFile(f) && f.sector < 0x8000_0000
    requires Index(Dir(d), Key(name)) == -1 && FreeSlot(Dir(d)) != -1 && Marked(d, f, bits)
    requires d1 == d[f.sector := EncodeHeader(f.hdr)]
    requires Replaced(d1, d2, HeaderAt(d, DirectorySector), EncodeTable(WithEntry(Dir(d), name, f.sector)))
    requires SameOutside(d2, d3, Data(HeaderAt(d, FreeMapSector)))
    requires FileBits(FileBytes(d3, HeaderAt(d, FreeMapSector)), NumSectors) == bits
    ensures Created(d, d3, name, f.hdr.numBytes, f) && Inv(d3)
    ensures HeaderAt(d3, FreeMapSector) == HeaderAt(d, FreeMapSector)
    ensures HeaderAt(d3, DirectorySector) == HeaderAt(d, DirectorySector)
    ensures CountClear(MapBits(d3)) + 1 + f.hdr.numSectors == CountClear(MapBits(d))
    ensures JustHolds(f.hdr.numSectors, f.hdr.numBytes)
  {
    CreateWrites(d, d1, d2, d3, name, f, bits);
    hide Inv, Created, HeaderAt, MapBits, CountClear, SectorsFor;
    CreatedKeepsInv(d, d3, name, f.hdr.numBytes, f);
    CreatedKeepsHeaders(d, d3, name, f.hdr.numBytes, f);
    CreatedTakes(d, d3, name, f.hdr.numBytes, f);
  }

  lemma RemovalComplete(d: Image, d1: Image, d2: Image, i: nat, bits: seq<bool>)
    requires Inv(d) && i < NumDirEntries && Dir(d)[i].inUse && Table(d)[i + 2].Some? && Good(Table(d)[i + 2].value.hdr)
    requires |bits| == NumSectors
    requires forall s | 0 <= s < NumSectors :: bits[s] <==> MapBits(d)[s] && s !in Blocks(Table(d)[i + 2].value)
    requires SameOutside(d, d1, Data(HeaderAt(d, FreeMapSector)))
    requires FileBits(FileBytes(d1, HeaderAt(d, FreeMapSector)), NumSectors) == bits
    requires Replaced(d1, d2, HeaderAt(d, DirectorySector), EncodeTable(Dir(d)[i := Dir(d)[i].(inUse := false)]))
    ensures Removed(d, d2, i) && Inv(d2)
    ensures HeaderAt(d2, FreeMapSector) == HeaderAt(d, FreeMapSector)
    ensures HeaderAt(d2, DirectorySector) == HeaderAt(d, DirectorySector)
  {
    RemoveWrites(d, d1, d2, i, bits);
    hide Inv, Removed, HeaderAt;
    RemovedKeepsInv(d, d2, i);
    RemovedKeepsHeaders(d, d2, i);
  }

  lemma MapAndDirectoryApart(d: Image)
    requires Inv(d)
    ensures Data(HeaderAt(d, FreeMapSector)) !! Data(HeaderAt(d, DirectorySector))
  {
    SpecialFiles(d);
    Apart(Table(d), MapBits(d), 0, 1);
  }

  lemma ClearIsNotMeta(d: Image, s: int)
    requires Inv(d) && Clear(d, s)
    ensures s !in Meta(d)
  {
    SpecialFiles(d);
    hide Good, Data, Table, HeaderAt, TableInv, MapBits, Formatted;
    ClearIsFree(Table(d), MapBits(d), 0, s);
    ClearIsFree(Table(d), MapBits(d), 1, s);
  }

  /** A disk on which only the free map, the directory and unowned sectors changed records
      what the free map's and the directory's bytes say. */
  lemma Recorded(d: Image, d': Image, free: set<int>, t: seq<DirectoryEntry>, bits: seq<bool>)
    requires Inv(d) && (forall s | s in free :: Clear(d, s)) && SameOutside(d, d', Meta(d) + free)
    requires |t| == NumDirEntries && FileBytes(d', HeaderAt(d, DirectorySector)) == EncodeTable(t)
    requires FileBits(FileBytes(d', HeaderAt(d, FreeMapSector)), NumSectors) == bits
    ensures Formatted(d') && Dir(d') == t && MapBits(d') == bits
  {
    FormattedKept(d, d', free);
    hide Good, FileBytes, EncodeTable, DecodeTable, FileBits, TableInv, Table, DecodeHeader;
    TableRoundTrip(t);
  }

  /** Whether Create's steps succeed, from what each step sees. */
  lemma CreateCondition(bits: seq<bool>, n: nat)
    ensures 1 + n <= CountClear(bits) <==>
              FirstClear(bits) != -1 && n <= CountClear(bits[FirstClear(bits) := true])
  {
    hide FirstClear, CountClear;
    NoneClear(bits);
    if FirstClear(bits) != -1 {
      CountSet(bits, FirstClear(bits));
    }
  }

  /** A name that is found has a header sector, so Find's -1 means not found. */
  lemma FoundSector(d: Image, i: nat)
    requires Inv(d) && i < NumDirEntries && Dir(d)[i].inUse
    ensures Table(d)[i + 2] == Some(File(Dir(d)[i].sector, HeaderAt(d, Dir(d)[i].sector)))
    ensures GoodFile(Table(d)[i + 2].value)
  {
    ListedFile(d, i + 2);
    hide Formatted, Dir, Table, HeaderAt, MapBits, GoodFile;
  }

  lemma SectorFitsInt32()
    ensures 0 < NumSectors < 0x8000_0000
  {
  }

  /** Deallocating never meets a clear bit: every sector of a listed file is marked. */
  lemma FileIsMarked(d: Image, i: nat)
    requires Inv(d) && i < NumDirEntries && Dir(d)[i].inUse && Table(d)[i + 2].Some?
    ensures var f := Table(d)[i + 2].value;
            && GoodFile(f) && MapBits(d)[f.sector]
            && forall k | 0 <= k < f.hdr.numSectors :: MapBits(d)[f.hdr.dataSectors[k]]
  {
    var t, f := Table(d), Table(d)[i + 2].value;
    hide Formatted, Dir, Table, HeaderAt, MapBits, SectorsFor;
    assert Owns(t, i + 2, f.sector);
    forall k | 0 <= k < f.hdr.numSectors ensures Owns(t, i + 2, f.hdr.dataSectors[k]) {
      assert f.hdr.dataSectors[k] in Data(f.hdr);
    }
  }

  lemma FreedBits(bits: seq<bool>, f: File)
    requires |bits| == NumSectors && GoodFile(f)
    ensures var freed := ClearAll(bits, f.hdr.dataSectors[..f.hdr.numSectors])[f.sector := false];
            forall s | 0 <= s < NumSectors :: freed[s] <==> bits[s] && s !in Blocks(f)
  {
    hide SectorsFor;
    DataIs(f.hdr, f.hdr.dataSectors[..f.hdr.numSectors]);
  }

  // -------------------------------------------------------------- formatting

  /** The map and directory files have the sizes their readers expect, and there is room. */
  lemma RoomForBoth()
    ensures FreeMapFileSize() == DivRoundUp(NumSectors, 32) * WordSize && FreeMapFileSize() <= MaxFileSize()
    ensures DirectoryFileSize() == NumDirEntries * EntrySize && DirectoryFileSize() <= MaxFileSize()
    ensures 2 + SectorsFor(FreeMapFileSize()) + SectorsFor(DirectoryFileSize()) <= NumSectors
  {
  }

  lemma {:induction false} AllClear(n: nat)
    ensures CountClear(seq(n, i => false)) == n
  {
    var b := seq(n, i => false);
    if n > 0 {
      AllClear(n - 1);
      assert b[..n - 1] == seq(n - 1, i => false);
    }
  }

  /** The free map with nothing on the disk but the two header sectors. */
  function HeadersMarked(): seq<bool>
  {
    seq(NumSectors, i => i == FreeMapSector || i == DirectorySector)
  }

  lemma HeadersMarkedClear()
    ensures NumSectors >= 2 && CountClear(HeadersMarked()) == NumSectors - 2
    ensures HeadersMarked() == seq(NumSectors, i => false)[FreeMapSector := true][DirectorySector := true]
  {
    RoomForBoth();
    AllClear(NumSectors);
    var b := seq(NumSectors, i => false);
    hide CountClear, SectorsFor;
    CountSet(b, FreeMapSector);
    CountSet(b[FreeMapSector := true], DirectorySector);
    assert HeadersMarked() == b[FreeMapSector := true][DirectorySector := true];
  }

  /** The two special files, laid out by the formatting allocations, own what the map says. */
  lemma FormatAllocates(m: Header, r: Header)
    requires Good(m) && Good(r) && 2 + m.numSectors + r.numSectors <= NumSectors
    requires m.dataSectors[..m.numSectors] == Take(HeadersMarked(), m.numSectors).0
    requires r.dataSectors[..r.numSectors] == Take(Take(HeadersMarked(), m.numSectors).1, r.numSectors).0
    ensures GoodFile(File(FreeMapSector, m)) && GoodFile(File(DirectorySector, r))
    ensures Blocks(File(FreeMapSector, m)) !! Blocks(File(DirectorySector, r))
    ensures var bits := Take(Take(HeadersMarked(), m.numSectors).1, r.numSectors).1;
            |bits| == NumSectors && forall s | 0 <= s < NumSectors ::
              bits[s] <==> s in Blocks(File(FreeMapSector, m)) || s in Blocks(File(DirectorySector, r))
  {
    hide SectorsFor, Take, CountClear, Sane;
    HeadersMarkedClear();
    var b := HeadersMarked();
    TakeFinds(b, m.numSectors);
    var (taken, left) := Take(b, m.numSectors);
    TakeFinds(left, r.numSectors);
    var (taken', left') := Take(left, r.numSectors);
    DataIs(m, taken);
    DataIs(r, taken');
  }

  lemma DataIs(h: Header, taken: seq<int>)
    requires Good(h) && h.dataSectors[..h.numSectors] == taken
    ensures forall s: int :: s in Data(h) <==> s in taken
  {
    hide SectorsFor;
    assert forall i | 0 <= i < h.numSectors :: h.dataSectors[i] == taken[i];
    forall s: int | s in taken ensures s in Data(h) {
      var i :| 0 <= i < |taken| && taken[i] == s;
      assert h.dataSectors[i] == s;
    }
  }

  ghost predicate Unused(t: seq<DirectoryEntry>) {
    forall i | 0 <= i < |t| :: !t[i].inUse
  }

  /** A disk holding just the two special files satisfies the invariant. */
  lemma FreshDisk(d: Image)
    requires Formatted(d) && Unused(Dir(d))
    requires var m, r := File(FreeMapSector, HeaderAt(d, FreeMapSector)), File(DirectorySector, HeaderAt(d, DirectorySector));
             && GoodFile(m) && GoodFile(r) && Blocks(m) !! Blocks(r)
             && forall s | 0 <= s < NumSectors :: MapBits(d)[s] <==> s in Blocks(m) || s in Blocks(r)
    ensures Inv(d)
  {
    hide Formatted, Dir, Table, HeaderAt, MapBits, Good, Blocks, TableInv;
    var m, r := File(FreeMapSector, HeaderAt(d, FreeMapSector)), File(DirectorySector, HeaderAt(d, DirectorySector));
    SpecialFiles(d);
    forall o | 2 <= o < |Table(d)| ensures Table(d)[o] == None { ListedFile(d, o); }
    TwoFiles(Table(d), MapBits(d), m, r);
  }

  lemma TwoFiles(t: seq<Option<File>>, bits: seq<bool>, m: File, r: File)
    requires |t| >= 2 && t[0] == Some(m) && t[1] == Some(r) && forall o | 2 <= o < |t| :: t[o] == None
    requires GoodFile(m) && GoodFile(r) && Blocks(m) !! Blocks(r) && |bits| == NumSectors
    requires forall s | 0 <= s < NumSectors :: bits[s] <==> s in Blocks(m) || s in Blocks(r)
    ensures TableInv(t, bits)
  {
    hide Good, Blocks;
    assert forall o: nat, s: int :: Owns(t, o, s) <==> (o == 0 && s in Blocks(m)) || (o == 1 && s in Blocks(r));
    forall s | 0 <= s < NumSectors ensures bits[s] <==> Owned(t, s) {
      assert Owns(t, 0, s) || Owns(t, 1, s) || !Owned(t, s);
    }
  }

  /** The headers of the free map and the directory as formatting allocates them. */
  ghost predicate SpecialHeaders(m: Header, r: Header) {
    && Good(m) && m.numBytes == FreeMapFileSize() && Good(r) && r.numBytes == DirectoryFileSize()
    && m.dataSectors[..m.numSectors] == Take(HeadersMarked(), m.numSectors).0
    && r.dataSectors[..r.numSectors] == Take(Take(HeadersMarked(), m.numSectors).1, r.numSectors).0
  }

  /** The writes of the formatting code, in order. */
  lemma FormatWrites(d: Image, d1: Image, d2: Image, m: Header, r: Header, t: seq<DirectoryEntry>)
    requires SpecialHeaders(m, r) && m.numBytes == DivRoundUp(NumSectors, 32) * WordSize
    requires HeaderAt(d, FreeMapSector) == m && HeaderAt(d, DirectorySector) == r
    requires SameOutside(d, d1, Data(m))
    requires FileBits(FileBytes(d1, m), NumSectors) == Take(Take(HeadersMarked(), m.numSectors).1, r.numSectors).1
    requires |t| == NumDirEntries && Unused(t) && Replaced(d1, d2, r, EncodeTable(t))
    ensures Inv(d2) && Dir(d2) == t
    ensures HeaderAt(d2, FreeMapSector) == m && HeaderAt(d2, DirectorySector) == r
  {
    RoomForBoth();
    hide Take, Sane, MaxFileSize;
    FormatAllocates(m, r);
    hide SectorsFor, Good, FileBytes, FileBits, EncodeTable, DecodeTable, DecodeHeader;
    FileFrame(d1, d2, m, Data(r));
    TableRoundTrip(t);
    assert Formatted(d2);
    FreshDisk(d2);
  }

  /** Giving back a file's data blocks and header block. */
  method FreeFile(fileHdr: FileHeader, sector: int, freeMap: PersistentBitmap)
    requires fileHdr.Valid() && GoodFile(File(sector, fileHdr.Value()))
    requires freeMap.Valid() && freeMap.bitmap.numBits == NumSectors
    requires forall i | 0 <= i < fileHdr.numSectors :: freeMap.Contents()[fileHdr.dataSectors[i]]
    modifies freeMap.bitmap.words
    ensures forall s | 0 <= s < NumSectors ::
              freeMap.Contents()[s] <==> old(freeMap.Contents())[s] && s !in Blocks(File(sector, fileHdr.Value()))
  {
    hide Bits, ClearAll, Blocks, SectorsFor;
    FreedBits(freeMap.Contents(), File(sector, fileHdr.Value()));
    fileHdr.Deallocate(freeMap.bitmap);
    freeMap.bitmap.Clear(sector);
  }

  /** Marking the header sectors and allocating the two special files. */
  method LayOut(freeMap: PersistentBitmap) returns (mapHdr: FileHeader, dirHdr: FileHeader)
    requires freeMap.Valid() && freeMap.bitmap.numBits == NumSectors && freeMap.Contents() == seq(NumSectors, i => false)
    modifies freeMap.bitmap.words
    ensures fresh(mapHdr) && fresh(dirHdr) && mapHdr.Valid() && dirHdr.Valid()
    ensures SpecialHeaders(mapHdr.Value(), dirHdr.Value())
    ensures freeMap.Contents() == Take(Take(HeadersMarked(), mapHdr.numSectors).1, dirHdr.numSectors).1
  {
    hide Good, SectorsFor, CountClear, FirstClear, Take, Bits, Sane, MaxFileSize;
    RoomForBoth();
    HeadersMarkedClear();
    mapHdr := new FileHeader();
    dirHdr := new FileHeader();
    freeMap.bitmap.Mark(FreeMapSector);
    freeMap.bitmap.Mark(DirectorySector);
    assert freeMap.Contents() == HeadersMarked();
    var mapFits := mapHdr.Allocate(freeMap.bitmap, FreeMapFileSize());
    assert mapFits;
    TakeFinds(HeadersMarked(), mapHdr.numSectors);
    var dirFits := dirHdr.Allocate(freeMap.bitmap, DirectoryFileSize());
    assert dirFits;
  }

  /** The formatting half of the file system's constructor. */
  method Format(disk: Disk) returns (freeMapFile: OpenFile, directoryFile: OpenFile)
    modifies disk
    ensures Inv(disk.sectors) && Unused(Dir(disk.sectors))
    ensures freeMapFile.disk == disk == directoryFile.disk
    ensures freeMapFile.hdr.Value() == HeaderAt(disk.sectors, FreeMapSector)
    ensures directoryFile.hdr.Value() == HeaderAt(disk.sectors, DirectorySector)
  {
    hide Inv, Dir, Formatted, FileBits, DecodeTable, EncodeTable, Good, SectorsFor, Take, Bits, EncodeWords, FileBytes;
    hide DecodeHeader, EncodeHeader, Sane, MaxFileSize;
    RoomForBoth();
    var freeMap := new PersistentBitmap(NumSectors);
    var directory := new Directory(NumDirEntries);
    var mapHdr, dirHdr := LayOut(freeMap);
    ghost var m, r := mapHdr.Value(), dirHdr.Value();
    mapHdr.WriteBack(disk, FreeMapSector);
    dirHdr.WriteBack(disk, DirectorySector);
    HeaderRoundTrip(m);
    HeaderRoundTrip(r);
    freeMapFile := new OpenFile(disk, FreeMapSector);
    directoryFile := new OpenFile(disk, DirectorySector);
    ghost var d := disk.sectors;
    freeMap.WriteBack(freeMapFile);
    ghost var d1 := disk.sectors;
    directory.WriteBack(directoryFile);
    FormatWrites(d, d1, disk.sectors, m, r, directory.table[..]);
  }

  class FileSystem {
    const disk: Disk
    const freeMapFile: OpenFile
    const directoryFile: OpenFile

    ghost predicate Opened()
      reads disk, freeMapFile.hdr, directoryFile.hdr
    {
      && freeMapFile.disk == disk == directoryFile.disk
      && freeMapFile.hdr.Value() == HeaderAt(disk.sectors, FreeMapSector)
      && directoryFile.hdr.Value() == HeaderAt(disk.sectors, DirectorySector)
    }

    ghost predicate Valid()
      reads disk, freeMapFile.hdr, directoryFile.hdr
    {
      Opened() && Inv(disk.sectors)
    }

    constructor (disk: Disk, format: bool)
      requires !format ==> Inv(disk.sectors)
      modifies disk
      ensures Valid() && this.disk == disk
      ensures format ==> Unused(Dir(disk.sectors))
      ensures !format ==> disk.sectors == old(disk.sectors)
    {
      hide TableInv, DistinctNames, Table, Good, Dir, MapBits, DecodeHeader, Sane;
      this.disk := disk;
      if format {
        var mapFile, dirFile := Format(disk);
        freeMapFile, directoryFile := mapFile, dirFile;
      } else {
        freeMapFile := new OpenFile(disk, FreeMapSector);
        directoryFile := new OpenFile(disk, DirectorySector);
      }
    }

    /** The directory, or the free map, fetched from its file. */
    method FetchDirectory() returns (directory: Directory)
      requires Opened() && Formatted(disk.sectors)
      ensures fresh(directory) && fresh(directory.table)
      ensures directory.table.Length == NumDirEntries && directory.table[..] == Dir(disk.sectors)
    {
      hide DecodeTable, EncodeTable, Good, FileBytes, DecodeHeader, Sane, Fronted;
      directory := new Directory(NumDirEntries);
      directory.FetchFrom(directoryFile);
    }

    method FetchMap() returns (freeMap: PersistentBitmap)
      requires Opened() && Formatted(disk.sectors)
      ensures fresh(freeMap) && fresh(freeMap.bitmap) && fresh(freeMap.bitmap.words) && freeMap.Valid()
      ensures freeMap.bitmap.numBits == NumSectors && freeMap.Contents() == MapBits(disk.sectors)
    {
      hide FileBits, DecodeWords, EncodeWords, Bits, Good, FileBytes, DecodeHeader, Fronted;
      SectorFitsInt32();
      hide Sane;
      freeMap := new PersistentBitmap.FromFile(freeMapFile, NumSectors);
    }

    /** And written back, when the disk was d before the operation began. */
    method StoreDirectory(directory: Directory, ghost d: Image)
      requires Formatted(d) && directoryFile.disk == disk && directoryFile.hdr.Value() == HeaderAt(d, DirectorySector)
      requires directory.table.Length == NumDirEntries
      modifies disk
      ensures Replaced(old(disk.sectors), disk.sectors, HeaderAt(d, DirectorySector), EncodeTable(directory.table[..]))
    {
      hide EncodeTable, Good, FileBytes, DecodeHeader, Sane, WroteFront, Replaced;
      directory.WriteBack(directoryFile);
    }

    method StoreMap(freeMap: PersistentBitmap, ghost d: Image)
      requires Formatted(d) && freeMapFile.disk == disk && freeMapFile.hdr.Value() == HeaderAt(d, FreeMapSector)
      requires freeMap.Valid() && freeMap.bitmap.numBits == NumSectors
      modifies disk
      ensures SameOutside(old(disk.sectors), disk.sectors, Data(HeaderAt(d, FreeMapSector)))
      ensures FileBits(FileBytes(disk.sectors, HeaderAt(d, FreeMapSector)), NumSectors) == freeMap.Contents()
    {
      hide FileBits, EncodeWords, Bits, Good, FileBytes, DecodeHeader, Sane, WroteFront;
      freeMap.WriteBack(freeMapFile);
    }

    /** The writes that make a creation permanent: header, directory and map. */
    method Commit(name: seq<byte>, sector: int32, hdr: FileHeader, directory: Directory, freeMap: PersistentBitmap)
      returns (ghost f: File)
      requires Valid() && hdr.Valid() && Good(hdr.Value()) && freeMap.Valid() && freeMap.bitmap.numBits == NumSectors
      requires Index(Dir(disk.sectors), Key(name)) == -1 && FreeSlot(Dir(disk.sectors)) != -1
      requires directory.table.Length == NumDirEntries && directory.table[..] == WithEntry(Dir(disk.sectors), name, sector)
      requires sector == FirstClear(MapBits(disk.sectors)) != -1 && 1 + hdr.numSectors <= CountClear(MapBits(disk.sectors))
      requires (hdr.dataSectors[..hdr.numSectors], freeMap.Contents()) ==
               Take(MapBits(disk.sectors)[sector := true], hdr.numSectors)
      modifies disk
      ensures Valid() && f == File(sector, hdr.Value())
      ensures Created(old(disk.sectors), disk.sectors, name, hdr.numBytes, f) && FirstFit(MapBits(old(disk.sectors)), f)
      ensures CountClear(MapBits(disk.sectors)) + 1 + hdr.numSectors == CountClear(MapBits(old(disk.sectors)))
      ensures JustHolds(hdr.numSectors, hdr.numBytes)
    {
      hide TableInv, DistinctNames, Table, Created, FileBits, EncodeTable, Good, SectorsFor, Formatted, Dir, MapBits, Blocks;
      hide CountClear, FirstClear, Take, Bits, FileBytes, DecodeHeader, EncodeHeader, Key, Filled, FirstFit, Sane, MaxFileSize;
      hide Data, SameOutside, WithEntry, JustHolds;
      ghost var d := disk.sectors;
      ghost var bits := MapBits(d);
      f := File(sector, hdr.Value());
      hdr.WriteBack(disk, sector);
      ghost var d1 := disk.sectors;
      StoreDirectory(directory, d);
      ghost var d2 := disk.sectors;
      StoreMap(freeMap, d);
      FitsFirst(bits, f);
      FirstFitIsClear(bits, f);
      CreationComplete(d, d1, d2, disk.sectors, name, f, freeMap.Contents());
    }

    method Create(name: seq<byte>, initialSize: nat) returns (success: bool, ghost f: File)
      requires Valid() && initialSize <= MaxFileSize()
      modifies disk
      ensures Valid()
      ensures success <==> CanCreate(old(disk.sectors), name, initialSize)
      ensures success <==> var d := old(disk.sectors);
                           && Index(Dir(d), Key(name)) == -1 && FreeSlot(Dir(d)) != -1
                           && RoomFor(initialSize, CountClear(MapBits(d)))
      ensures success ==> CountClear(MapBits(disk.sectors)) + 1 + f.hdr.numSectors == CountClear(MapBits(old(disk.sectors)))
      ensures success ==> JustHolds(f.hdr.numSectors, initialSize)
      ensures success ==> Created(old(disk.sectors), disk.sectors, name, initialSize, f)
      ensures success ==> FirstFit(MapBits(old(disk.sectors)), f)
      ensures Next(old(disk.sectors), disk.sectors, CreateOp(name, initialSize))
      ensures !success ==> disk.sectors == old(disk.sectors)
    {
      hide TableInv, DistinctNames, Table, Created, FileBits, EncodeTable, Good, SectorsFor, Formatted, Dir, MapBits, Blocks;
      hide CountClear, FirstClear, Take, Bits, FileBytes, DecodeHeader, EncodeHeader, Key, Filled, FirstFit, Sane, MaxFileSize;
      hide Data, SameOutside, RoomFor, JustHolds;
      ghost var d := disk.sectors;
      ghost var bits, t := MapBits(d), Dir(d);
      f := File(0, HeaderAt(d, 0));
      success := false;
      CanCreateIff(d, name, initialSize);

      var directory := FetchDirectory();
      var found := directory.Find(name);
      if Index(t, Key(name)) != -1 {
        FoundSector(d, Index(t, Key(name)));
      }
      if found == -1 {
        SectorFitsInt32();
        CreateCondition(bits, SectorsFor(initialSize));
        var freeMap := FetchMap();
        var sector := freeMap.bitmap.FindAndSet();
        if sector != -1 {
          var added := directory.Add(name, sector);
          if added {
            var hdr := new FileHeader();
            var fits := hdr.Allocate(freeMap.bitmap, initialSize);
            if fits {
              success := true;
              f := Commit(name, sector, hdr, directory, freeMap);
            }
          }
        }
      }
    }

    method Open(name: seq<byte>) returns (file: OpenFile?)
      requires Valid()
      ensures file == null <==> Index(Dir(disk.sectors), Key(name)) == -1
      ensures file != null ==> fresh(file) && fresh(file.hdr) && file.disk == disk && file.Valid() && file.seekPosition == 0
      ensures file != null ==> IsHandle(file.hdr.Value(), disk.sectors, Index(Dir(disk.sectors), Key(name)) + 2)
    {
      hide TableInv, DistinctNames, Table, FileBits, DecodeTable, Good, FileBytes, DecodeHeader, Key, Sane;
      ghost var i := Index(Dir(disk.sectors), Key(name));
      if i != -1 {
        FoundSector(disk.sectors, i);
      }
      var directory := FetchDirectory();
      var sector := directory.Find(name);
      file := null;
      if sector >= 0 {
        file := new OpenFile(disk, sector);
      }
    }

    method Remove(name: seq<byte>) returns (success: bool)
      requires Valid()
      modifies disk
      ensures Valid()
      ensures success <==> Index(Dir(old(disk.sectors)), Key(name)) != -1
      ensures Next(old(disk.sectors), disk.sectors, RemoveOp(name))
    {
      hide TableInv, DistinctNames, Table, Removed, FileBits, EncodeTable, Good, SectorsFor, Replaced, SameOutside, Data;
      hide MapBits, Dir, Formatted, Bits, FileBytes, DecodeHeader, Key, Sane, ClearAll, Blocks;
      ghost var d := disk.sectors;
      ghost var bits, t, i := MapBits(d), Dir(d), Index(Dir(d), Key(name));
      if i != -1 {
        FoundSector(d, i);
        FileIsMarked(d, i);
      }
      var directory := FetchDirectory();
      var sector := directory.Find(name);
      if sector == -1 {
        return false;
      }
      var fileHdr := new FileHeader();
      fileHdr.FetchFrom(disk, sector);
      var freeMap := FetchMap();

      FreeFile(fileHdr, sector, freeMap);
      var _ := directory.Remove(name);

      StoreMap(freeMap, d);
      ghost var d1 := disk.sectors;
      StoreDirectory(directory, d);
      RemovalComplete(d, d1, disk.sectors, i, freeMap.Contents());
      return true;
    }
  }
}
