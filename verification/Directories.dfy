/** The directory: a table of fixed-size entries, stored as a file. */
module Directories {
  import opened Layout
  import opened Bytes
  import opened Volume
  import opened Files

  // -------------------------------------------------------------- names

  /** What a name amounts to: its characters before the first NUL, and at most n of them. */
  function Chars(s: seq<byte>, n: nat): (r: seq<byte>)
    ensures |r| <= n && |r| <= |s|
  {
    if n == 0 || s == [] || s[0] == 0 then [] else [s[0]] + Chars(s[1..], n - 1)
  }

  function Key(s: seq<byte>): seq<byte> {
    Chars(s, FileNameMaxLen)
  }

  /** strncmp(a, b, n) == 0, where a string shorter than n ends in a NUL. */
  predicate StrnEqual(a: seq<byte>, b: seq<byte>, n: nat)
    decreases n
  {
    n == 0 ||
    var x, y := if a == [] then 0 else a[0], if b == [] then 0 else b[0];
    x == y && (x == 0 || StrnEqual(a[1..], b[1..], n - 1))
  }

  /** The first n characters stored by strncpy(_, s, n): padded with NULs. */
  function Padded(s: seq<byte>, n: nat): (r: seq<byte>)
    ensures |r| == n
    decreases n
  {
    if n == 0 then []
    else if s == [] || s[0] == 0 then [0] + Padded([], n - 1)
    else [s[0]] + Padded(s[1..], n - 1)
  }

  /** Two names are one to the directory exactly when their keys are equal. */
  lemma {:induction false} StrnEqualIsKey(a: seq<byte>, b: seq<byte>, n: nat)
    ensures StrnEqual(a, b, n) <==> Chars(a, n) == Chars(b, n)
    decreases n
  {
    assert Chars(a, n) != [] ==> Chars(a, n)[0] == a[0];
    assert Chars(b, n) != [] ==> Chars(b, n)[0] == b[0];
    if n > 0 && a != [] && b != [] && a[0] == b[0] != 0 {
      StrnEqualIsKey(a[1..], b[1..], n - 1);
      assert Chars(a, n)[1..] == Chars(a[1..], n - 1) && Chars(b, n)[1..] == Chars(b[1..], n - 1);
    }
  }

  lemma {:induction false} PaddedKey(s: seq<byte>, n: nat, rest: seq<byte>)
    ensures Chars(Padded(s, n) + rest, n) == Chars(s, n)
    decreases n
  {
    if n > 0 && s != [] && s[0] != 0 {
      PaddedKey(s[1..], n - 1, rest);
      assert (Padded(s, n) + rest)[1..] == Padded(s[1..], n - 1) + rest;
    }
  }

  // -------------------------------------------------------------- entries

  datatype Entry = Entry(inUse: bool, pad: seq<byte>, sector: int32, name: seq<byte>, tail: seq<byte>)

  type DirectoryEntry = e: Entry | |e.pad| == 3 && |e.name| == FileNameMaxLen + 1 && |e.tail| == 2
    witness Entry(false, [0, 0, 0], 0, [0, 0, 0, 0, 0, 0, 0, 0, 0, 0], [0, 0])

  function EncodeEntry(e: DirectoryEntry): (b: seq<byte>)
    ensures |b| == EntrySize
  {
    [if e.inUse then 1 else 0] + e.pad + EncodeInt(e.sector) + e.name + e.tail
  }

  function DecodeEntry(b: seq<byte>): DirectoryEntry
    requires |b| == EntrySize
  {
    Entry(b[0] != 0, b[1..4], DecodeInt(b[4..8]), b[8..18], b[18..20])
  }

  lemma EntryRoundTrip(e: DirectoryEntry)
    ensures DecodeEntry(EncodeEntry(e)) == e
  {
    hide EncodeInt, DecodeInt;
    var b := EncodeEntry(e);
    assert b[1..4] == e.pad && b[4..8] == EncodeInt(e.sector) && b[8..18] == e.name && b[18..20] == e.tail;
    IntRoundTrip(e.sector);
  }

  function EncodeTable(t: seq<DirectoryEntry>): (b: seq<byte>)
    ensures |b| == |t| * EntrySize
  {
    Flatten(seq(|t|, i requires 0 <= i < |t| => EncodeEntry(t[i])), EntrySize)
  }

  function EntryAt(b: seq<byte>, i: nat): DirectoryEntry
    requires (i + 1) * EntrySize <= |b|
  {
    DecodeEntry(Record(b, EntrySize, i))
  }

  function DecodeTable(b: seq<byte>, n: nat): (t: seq<DirectoryEntry>)
    requires n * EntrySize <= |b|
    ensures |t| == n
  {
    seq(n, i requires 0 <= i < n => EntryAt(b, i))
  }

  lemma TableRoundTrip(t: seq<DirectoryEntry>)
    ensures DecodeTable(EncodeTable(t), |t|) == t
  {
    hide EncodeEntry, DecodeEntry, Flatten, Record;
    var records := seq(|t|, i requires 0 <= i < |t| => EncodeEntry(t[i]));
    forall i: nat | i < |t| ensures EntryAt(EncodeTable(t), i) == t[i] {
      FlattenRecord(records, EntrySize, i);
      EntryRoundTrip(t[i]);
    }
  }

  // -------------------------------------------------------------- looking up

  predicate Match(e: DirectoryEntry, key: seq<byte>) {
    e.inUse && Key(e.name) == key
  }

  /** The first entry in use for the name, or -1. */
  function Index(t: seq<DirectoryEntry>, key: seq<byte>): (r: int)
    ensures r == -1 ==> forall i | 0 <= i < |t| :: !Match(t[i], key)
    ensures r != -1 ==> 0 <= r < |t| && Match(t[r], key) && forall i | 0 <= i < r :: !Match(t[i], key)
  {
    IndexFrom(t, key, 0)
  }

  function IndexFrom(t: seq<DirectoryEntry>, key: seq<byte>, from: nat): (r: int)
    requires from <= |t|
    ensures r == -1 ==> forall i | from <= i < |t| :: !Match(t[i], key)
    ensures r != -1 ==> from <= r < |t| && Match(t[r], key) && forall i | from <= i < r :: !Match(t[i], key)
    decreases |t| - from
  {
    if from == |t| then -1 else if Match(t[from], key) then from else IndexFrom(t, key, from + 1)
  }

  /** The first entry not in use, or -1. */
  function FreeSlot(t: seq<DirectoryEntry>): (r: int)
    ensures r == -1 ==> forall i | 0 <= i < |t| :: t[i].inUse
    ensures r != -1 ==> 0 <= r < |t| && !t[r].inUse && forall i | 0 <= i < r :: t[i].inUse
  {
    FreeFrom(t, 0)
  }

  function FreeFrom(t: seq<DirectoryEntry>, from: nat): (r: int)
    requires from <= |t|
    ensures r == -1 ==> forall i | from <= i < |t| :: t[i].inUse
    ensures r != -1 ==> from <= r < |t| && !t[r].inUse && forall i | from <= i < r :: t[i].inUse
    decreases |t| - from
  {
    if from == |t| then -1 else if !t[from].inUse then from else FreeFrom(t, from + 1)
  }

  /** The entry for a new file: name and sector set, everything else as it was. */
  function Filled(e: DirectoryEntry, name: seq<byte>, sector: int32): (r: DirectoryEntry)
    ensures r.inUse && r.sector == sector && Key(r.name) == Key(name)
  {
    PaddedKey(name, FileNameMaxLen, e.name[FileNameMaxLen..]);
    e.(inUse := true, name := Padded(name, FileNameMaxLen) + e.name[FileNameMaxLen..], sector := sector)
  }

  ghost predicate DistinctNames(t: seq<DirectoryEntry>) {
    forall i, j | 0 <= i < j < |t| && t[i].inUse && t[j].inUse :: Key(t[i].name) != Key(t[j].name)
  }

  class Directory {
    const table: array<DirectoryEntry>

    constructor (size: nat)
      ensures fresh(table) && table.Length == size
      ensures forall i | 0 <= i < size :: !table[i].inUse
    {
      table := new DirectoryEntry[size];
      new;
      var i := 0;
      while i < size
        invariant 0 <= i <= size && forall j | 0 <= j < i :: !table[j].inUse
      {
        table[i] := table[i].(inUse := false);
        i := i + 1;
      }
    }

    method FetchFrom(file: OpenFile)
      requires file.Valid()
      modifies table
      ensures table[..] == DecodeTable(Fronted(EncodeTable(old(table[..])), file.Contents()), table.Length)
      ensures file.hdr.numBytes == table.Length * EntrySize ==> table[..] == DecodeTable(file.Contents(), table.Length)
    {
      hide Good, DecodeEntry, EncodeTable, Record;
      var size := table.Length * EntrySize;
      var bytes := EncodeTable(table[..]);
      var buf := new byte[size](i requires 0 <= i < size => bytes[i]);
      assert buf[..] == bytes;
      var _ := file.ReadAt(buf, 0, size, 0);
      ghost var front := Fronted(bytes, file.Contents());
      assert buf[..] == front;
      forall i | 0 <= i < table.Length {
        table[i] := EntryAt(buf[..], i);
      }
    }

    method WriteBack(file: OpenFile)
      requires file.Valid()
      modifies file.disk
      ensures WroteFront(old(file.disk.sectors), file.disk.sectors, file.hdr.Value(), EncodeTable(table[..]))
      ensures file.hdr.numBytes == table.Length * EntrySize ==>
                Replaced(old(file.disk.sectors), file.disk.sectors, file.hdr.Value(), EncodeTable(table[..]))
    {
      hide Good, EncodeTable, Wrote, WroteFront, Replaced;
      var bytes := EncodeTable(table[..]);
      var buf := new byte[|bytes|](i requires 0 <= i < |bytes| => bytes[i]);
      assert buf[..] == bytes;
      var n := file.WriteAt(buf, buf.Length, 0);
      FrontWritten(old(file.disk.sectors), file.disk.sectors, file.hdr.Value(), bytes);
    }

    method FindIndex(name: seq<byte>) returns (found: int)
      ensures found == Index(table[..], Key(name))
    {
      var i := 0;
      while i < table.Length
        invariant 0 <= i <= table.Length
        invariant Index(table[..], Key(name)) == IndexFrom(table[..], Key(name), i)
      {
        StrnEqualIsKey(table[i].name, name, FileNameMaxLen);
        if table[i].inUse && StrnEqual(table[i].name, name, FileNameMaxLen) {
          return i;
        }
        i := i + 1;
      }
      return -1;
    }

    method Find(name: seq<byte>) returns (sector: int)
      ensures var i := Index(table[..], Key(name));
              sector == if i == -1 then -1 else table[i].sector
    {
      var i := FindIndex(name);
      if i != -1 {
        return table[i].sector;
      }
      return -1;
    }

    method Add(name: seq<byte>, newSector: int32) returns (ok: bool)
      modifies table
      ensures ok <==> Index(old(table[..]), Key(name)) == -1 && FreeSlot(old(table[..])) != -1
      ensures !ok ==> table[..] == old(table[..])
      ensures ok ==> var i := FreeSlot(old(table[..]));
                     table[..] == old(table[..])[i := Filled(old(table[..])[i], name, newSector)]
    {
      var found := FindIndex(name);
      if found != -1 {
        return false;
      }
      var i := 0;
      while i < table.Length
        invariant 0 <= i <= table.Length && table[..] == old(table[..])
        invariant FreeSlot(table[..]) == FreeFrom(table[..], i)
      {
        if !table[i].inUse {
          table[i] := Filled(table[i], name, newSector);
          return true;
        }
        i := i + 1;
      }
      return false;
    }

    method Remove(name: seq<byte>) returns (ok: bool)
      modifies table
      ensures var i := Index(old(table[..]), Key(name));
              if i == -1 then !ok && table[..] == old(table[..])
              else ok && table[..] == old(table[..])[i := old(table[..])[i].(inUse := false)]
    {
      var i := FindIndex(name);
      if i == -1 {
        return false;
      }
      table[i] := table[i].(inUse := false);
      return true;
    }
  }
}
