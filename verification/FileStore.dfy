/** The file system as its users see it, a map from names to bytes, and two programs that use
    it: copying a file in, and printing one. */
module FileStore {
  import opened Options
  import opened Layout
  import opened Bytes
  import opened Bitmaps
  import opened Volume
  import opened Files
  import opened Directories
  import opened FileSystems

  // -------------------------------------------------------------- names in the directory

  lemma IndexAdded(t: seq<DirectoryEntry>, name: seq<byte>, sector: int32, key: seq<byte>)
    requires FreeSlot(t) != -1 && Index(t, Key(name)) == -1
    ensures Index(WithEntry(t, name, sector), key) == if key == Key(name) then FreeSlot(t) else Index(t, key)
  {
    hide Key, FreeSlot, Index;
    var t', slot := WithEntry(t, name, sector), FreeSlot(t);
    assert forall i | 0 <= i < |t| && i != slot :: t'[i] == t[i];
    SameMatches(t, t', key, slot);
    if key == Key(name) {
      assert Match(t'[slot], key);
      assert forall i | 0 <= i < |t| :: !Match(t[i], key);
    }
  }

  lemma IndexRemoved(t: seq<DirectoryEntry>, i: nat, key: seq<byte>)
    requires DistinctNames(t) && i < |t| && t[i].inUse
    ensures Index(t[i := t[i].(inUse := false)], key) == if key == Key(t[i].name) then -1 else Index(t, key)
  {
    hide Key, Index;
    var t' := t[i := t[i].(inUse := false)];
    assert forall j | 0 <= j < |t| && j != i :: t'[j] == t[j];
    SameMatches(t, t', key, i);
    if key == Key(t[i].name) {
      forall j | 0 <= j < |t| ensures !Match(t'[j], key) {
      }
    }
  }

  /** Tables that differ only where neither has the key find it in the same place. */
  lemma SameMatches(t: seq<DirectoryEntry>, t': seq<DirectoryEntry>, key: seq<byte>, slot: nat)
    requires |t'| == |t| && slot < |t| && (forall i | 0 <= i < |t| && i != slot :: t'[i] == t[i])
    ensures !Match(t[slot], key) && !Match(t'[slot], key) ==> Index(t', key) == Index(t, key)
  {
    hide Key, Index, Match;
    if !Match(t[slot], key) && !Match(t'[slot], key) {
      forall i | 0 <= i < |t| ensures Match(t'[i], key) <==> Match(t[i], key) {
      }
    }
  }

  // -------------------------------------------------------------- the map

  lemma Found(d: Image, name: seq<byte>)
    requires Inv(d) && Index(Dir(d), Key(name)) != -1
    ensures var o := Index(Dir(d), Key(name)) + 2;
            2 <= o < |Table(d)| && Table(d)[o].Some? && Good(Table(d)[o].value.hdr)
  {
    hide TableInv, DistinctNames, Formatted, MapBits, Dir, Key, Good;
    var o := Index(Dir(d), Key(name)) + 2;
    ListedFile(d, o);
    DataApart(d, o);
  }

  /** The bytes of the file with a name. */
  ghost function Lookup(d: Image, name: seq<byte>): Option<seq<byte>>
    requires Inv(d)
  {
    var i := Index(Dir(d), Key(name));
    if i == -1 then None else
      Found(d, name);
      Some(FileBytes(d, Table(d)[i + 2].value.hdr))
  }

  lemma CreatedMeans(d: Image, d': Image, name: seq<byte>, size: nat, f: File)
    requires Inv(d) && Created(d, d', name, size, f)
    ensures Inv(d') && Lookup(d, name) == None && Lookup(d', name).Some? && |Lookup(d', name).value| == size
  {
    hide TableInv, DistinctNames, Formatted, MapBits, Table, Key, Good, FileBytes, HeaderAt, Index, FreeSlot, Dir;
    CreatedKeepsInv(d, d', name, size, f);
    IndexAdded(Dir(d), name, f.sector, Key(name));
    hide WithEntry;
    Found(d', name);
  }

  /** Creating a file adds its name, with as many bytes as asked for, and changes no other. */
  lemma CreateMeans(d: Image, d': Image, name: seq<byte>, size: nat, other: seq<byte>)
    requires Inv(d) && Next(d, d', CreateOp(name, size))
    ensures Inv(d')
    ensures CanCreate(d, name, size) ==> Lookup(d, name) == None && Lookup(d', name).Some? && |Lookup(d', name).value| == size
    ensures Key(other) != Key(name) || !CanCreate(d, name, size) ==> Lookup(d', other) == Lookup(d, other)
  {
    hide TableInv, DistinctNames, Formatted, MapBits, Table, Key, Good, FileBytes, HeaderAt, Index, FreeSlot, CountClear, Dir, Created, CanCreate;
    NextKeepsInv(d, d', CreateOp(name, size));
    if CanCreate(d, name, size) {
      var f :| Created(d, d', name, size, f);
      CreatedMeans(d, d', name, size, f);
      CreatedIndex(d, d', name, size, f, other);
      if Index(Dir(d), Key(other)) != -1 && Key(other) != Key(name) {
        Found(d, other);
        OthersUntouched(d, d', CreateOp(name, size), Index(Dir(d), Key(other)) + 2);
      }
    }
  }

  lemma CreatedIndex(d: Image, d': Image, name: seq<byte>, size: nat, f: File, other: seq<byte>)
    requires Inv(d) && Created(d, d', name, size, f)
    ensures Formatted(d') && (Key(other) != Key(name) ==> Index(Dir(d'), Key(other)) == Index(Dir(d), Key(other)))
  {
    hide TableInv, DistinctNames, Formatted, MapBits, Table, Key, Good, FileBytes, HeaderAt, Index, FreeSlot, Dir;
    IndexAdded(Dir(d), name, f.sector, Key(other));
  }

  lemma RemovedIndex(d: Image, d': Image, i: nat, other: seq<byte>)
    requires Inv(d) && Removed(d, d', i)
    ensures Formatted(d')
    ensures Index(Dir(d'), Key(other)) == if Key(other) == Key(Dir(d)[i].name) then -1 else Index(Dir(d), Key(other))
  {
    hide TableInv, DistinctNames, Formatted, MapBits, Table, Key, Good, HeaderAt, Index, Dir, SameOutside, Meta, Blocks;
    IndexRemoved(Dir(d), i, Key(other));
  }

  /** Removing a file takes away its name and changes no other. */
  lemma RemoveMeans(d: Image, d': Image, name: seq<byte>, other: seq<byte>)
    requires Inv(d) && Next(d, d', RemoveOp(name))
    ensures Inv(d') && Lookup(d', name) == None
    ensures Key(other) != Key(name) ==> Lookup(d', other) == Lookup(d, other)
  {
    hide TableInv, DistinctNames, Formatted, MapBits, Table, Key, Good, FileBytes, HeaderAt, Index, Dir, Removed;
    NextKeepsInv(d, d', RemoveOp(name));
    var i := Index(Dir(d), Key(name));
    if i != -1 {
      RemovedIndex(d, d', i, other);
      RemovedIndex(d, d', i, name);
      if Index(Dir(d), Key(other)) != -1 && Key(other) != Key(name) {
        Found(d, other);
        OthersUntouched(d, d', RemoveOp(name), Index(Dir(d), Key(other)) + 2);
      }
    }
  }

  /** Writing through a handle splices the bytes of the file it was opened on and changes no
      other. */
  lemma WriteMeans(d: Image, d': Image, name: seq<byte>, at: nat, data: seq<byte>, other: seq<byte>)
    requires Inv(d) && Index(Dir(d), Key(name)) != -1 && Next(d, d', WriteOp(Index(Dir(d), Key(name)) + 2, at, data))
    ensures Inv(d') && Lookup(d, name).Some? && at + |data| <= |Lookup(d, name).value|
    ensures Lookup(d', name) == Some(Splice(Lookup(d, name).value, at, data))
    ensures Key(other) != Key(name) ==> Lookup(d', other) == Lookup(d, other)
  {
    hide TableInv, DistinctNames, Formatted, MapBits, Table, Key, Good, FileBytes, HeaderAt, Dir, Index, SameOutside;
    var i := Index(Dir(d), Key(name));
    LiveWriteKeepsAll(d, d', i + 2, at, data);
    var j := Index(Dir(d), Key(other));
    if j != -1 && Key(other) != Key(name) {
      Found(d, other);
      OthersUntouched(d, d', WriteOp(i + 2, at, data), j + 2);
    }
  }

  // -------------------------------------------------------------- printing and copying

  const TransferSize := 128

  /** Reading a file piece by piece from the start until a read returns nothing gives the whole
      of it. */
  method ReadAll(openFile: OpenFile) returns (all: seq<byte>)
    requires openFile.Valid() && openFile.seekPosition == 0
    modifies openFile
    ensures all == openFile.Contents()
  {
    hide Good, FileBytes;
    var buffer := new byte[TransferSize];
    all := [];
    var amountRead := openFile.Read(buffer, TransferSize);
    while amountRead > 0
      invariant openFile.Valid() && 0 <= amountRead <= TransferSize && openFile.seekPosition == |all| + amountRead
      invariant |all| + amountRead <= openFile.hdr.numBytes
      invariant amountRead == 0 ==> |all| == openFile.hdr.numBytes
      invariant all + buffer[..amountRead] == openFile.Contents()[..|all| + amountRead]
      decreases openFile.hdr.numBytes - |all|
    {
      all := all + buffer[..amountRead];
      ghost var was := openFile.seekPosition;
      amountRead := openFile.Read(buffer, TransferSize);
      if amountRead > 0 {
        assert openFile.Contents()[..was] + openFile.Contents()[was..was + amountRead] == openFile.Contents()[..was + amountRead];
      }
    }
  }

  method Print(fs: FileSystem, name: seq<byte>) returns (printed: Option<seq<byte>>)
    requires fs.Valid()
    ensures printed == Lookup(fs.disk.sectors, name)
  {
    hide TableInv, DistinctNames, Formatted, MapBits, Table, Key, Good, FileBytes, HeaderAt, Dir, Index;
    var openFile := fs.Open(name);
    if openFile == null {
      return None;
    }
    Found(fs.disk.sectors, name);
    var all := ReadAll(openFile);
    printed := Some(all);
  }

  /** Two writes, one where the other ends, are one. */
  lemma WritesJoin(d: Image, d1: Image, d2: Image, h: Header, a: seq<byte>, b: seq<byte>)
    requires Good(h) && Wrote(d, d1, h, 0, a) && Wrote(d1, d2, h, |a|, b)
    ensures Wrote(d, d2, h, 0, a + b)
  {
    hide Good, FileBytes, Data;
    var s := FileBytes(d, h);
    assert Splice(Splice(s, 0, a), |a|, b) == Splice(s, 0, a + b);
  }

  lemma WroteNothing(d: Image, h: Header)
    requires Good(h)
    ensures Wrote(d, d, h, 0, [])
  {
    hide Good, FileBytes;
    assert Splice(FileBytes(d, h), 0, []) == FileBytes(d, h);
  }

  /** The next bytes of the host's file. */
  method Chunk(from: seq<byte>, pos: nat, n: nat) returns (buffer: array<byte>)
    requires pos + n <= |from|
    ensures fresh(buffer) && buffer.Length == n && buffer[..n] == from[pos..pos + n]
  {
    buffer := new byte[n](i requires 0 <= i < n => from[pos + i]);
  }

  /** The loop of Copy, on the bytes of the file to be copied. */
  method WriteAll(openFile: OpenFile, from: seq<byte>)
    requires openFile.Valid() && openFile.seekPosition == 0 && |from| == openFile.hdr.numBytes
    modifies openFile, openFile.disk
    ensures Wrote(old(openFile.disk.sectors), openFile.disk.sectors, openFile.hdr.Value(), 0, from)
  {
    hide Good, FileBytes, Data, Wrote, Count;
    ghost var d, h := openFile.disk.sectors, openFile.hdr.Value();
    WroteNothing(d, h);
    assert from[..0] == [];
    var pos := 0;
    while pos < |from|
      invariant 0 <= pos <= |from| && openFile.seekPosition == pos
      invariant Wrote(d, openFile.disk.sectors, h, 0, from[..pos])
    {
      var amountRead := if |from| - pos < TransferSize then |from| - pos else TransferSize;
      var buffer := Chunk(from, pos, amountRead);
      ghost var d1 := openFile.disk.sectors;
      var n := openFile.Write(buffer, amountRead);
      WritesJoin(d, d1, openFile.disk.sectors, h, from[..pos], from[pos..pos + amountRead]);
      assert from[..pos] + from[pos..pos + amountRead] == from[..pos + amountRead];
      pos := pos + amountRead;
    }
    assert from[..pos] == from;
  }

  lemma LookupFinds(d: Image, name: seq<byte>)
    requires Inv(d)
    ensures Lookup(d, name) == None <==> Index(Dir(d), Key(name)) == -1
  {
  }

  lemma HandleLength(d: Image, name: seq<byte>, h: Header)
    requires Inv(d) && Index(Dir(d), Key(name)) != -1 && IsHandle(h, d, Index(Dir(d), Key(name)) + 2) && Good(h)
    ensures Lookup(d, name) == Some(FileBytes(d, h)) && |FileBytes(d, h)| == h.numBytes
  {
    hide TableInv, DistinctNames, Formatted, MapBits, Table, Key, Good, FileBytes, HeaderAt, Dir, Index;
  }

  lemma Copied(d: Image, d1: Image, d2: Image, to: seq<byte>, from: seq<byte>, h: Header)
    requires Inv(d) && CanCreate(d, to, |from|) && Next(d, d1, CreateOp(to, |from|)) && Inv(d1)
    requires Index(Dir(d1), Key(to)) != -1 && IsHandle(h, d1, Index(Dir(d1), Key(to)) + 2) && Good(h)
    requires h.numBytes == |from| && Wrote(d1, d2, h, 0, from)
    ensures Inv(d2) && Lookup(d2, to) == Some(from)
    ensures forall name | Key(name) != Key(to) :: Lookup(d2, name) == Lookup(d, name)
    ensures HeaderAt(d2, FreeMapSector) == HeaderAt(d1, FreeMapSector)
    ensures HeaderAt(d2, DirectorySector) == HeaderAt(d1, DirectorySector)
  {
    hide TableInv, DistinctNames, Formatted, MapBits, Table, Key, Good, FileBytes, HeaderAt, Dir, Index, Created, CanCreate, Wrote, Lookup;
    var o := Index(Dir(d1), Key(to)) + 2;
    HandleWrites(h, d1, o, d2, 0, from);
    WriteMeans(d1, d2, to, 0, from, to);
    HandleLength(d1, to, h);
    assert Splice(FileBytes(d1, h), 0, from) == from;
    forall name | Key(name) != Key(to) ensures Lookup(d2, name) == Lookup(d, name) {
      WriteMeans(d1, d2, to, 0, from, name);
      CreateMeans(d, d1, to, |from|, name);
    }
    SameSpecials(d1, d2, o, from);
  }

  lemma SameSpecials(d: Image, d': Image, o: nat, data: seq<byte>)
    requires Inv(d) && LiveWrite(d, d', o, 0, data)
    ensures HeaderAt(d', FreeMapSector) == HeaderAt(d, FreeMapSector)
    ensures HeaderAt(d', DirectorySector) == HeaderAt(d, DirectorySector)
  {
    hide TableInv, DistinctNames, Formatted, MapBits, Table, Key, Good, FileBytes, HeaderAt, Dir, Wrote;
    LiveWriteKeepsAll(d, d', o, 0, data);
    SpecialFiles(d);
    SpecialFiles(d');
  }

  /** Copying a file of the host to a new file of the same length.  It succeeds exactly when the
      file can be created; then the new name has the bytes copied, so that Print shows them, and
      no other file has changed. */
  method Copy(fs: FileSystem, from: seq<byte>, to: seq<byte>) returns (ok: bool)
    requires fs.Valid() && |from| <= MaxFileSize()
    modifies fs.disk
    ensures fs.Valid()
    ensures ok <==> CanCreate(old(fs.disk.sectors), to, |from|)
    ensures ok ==> Lookup(old(fs.disk.sectors), to) == None && Lookup(fs.disk.sectors, to) == Some(from)
    ensures forall name | Key(name) != Key(to) :: Lookup(fs.disk.sectors, name) == Lookup(old(fs.disk.sectors), name)
    ensures !ok ==> fs.disk.sectors == old(fs.disk.sectors)
  {
    hide TableInv, DistinctNames, Formatted, MapBits, Table, Key, Good, FileBytes, HeaderAt, Dir, Index;
    hide Created, CanCreate, Wrote, Lookup, RoomFor, JustHolds, FirstFit, Next, IsHandle, CountClear, FreeSlot;
    ghost var d := fs.disk.sectors;
    ghost var f;
    ok, f := fs.Create(to, |from|);
    if !ok {
      return;
    }
    ghost var d1 := fs.disk.sectors;
    CreateMeans(d, d1, to, |from|, to);
    LookupFinds(d1, to);
    var openFile := fs.Open(to);
    assert openFile != null;
    HandleLength(d1, to, openFile.hdr.Value());
    WriteAll(openFile, from);
    Copied(d, d1, fs.disk.sectors, to, from, openFile.hdr.Value());
  }
}
