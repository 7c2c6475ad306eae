/** The disk, file headers in memory, and open files. */
module Files {
  import opened Layout
  import opened Bytes
  import opened Volume
  import opened Bitmaps

  /** The disk as SynchDisk offers it: whole sectors, one request at a time. */
  class Disk {
    var sectors: Image

    method ReadSector(sector: int, data: array<byte>, at: nat)
      requires 0 <= sector < NumSectors && at + SectorSize <= data.Length
      modifies data
      ensures data[..] == Splice(old(data[..]), at, sectors[sector])
    {
      forall k | 0 <= k < SectorSize {
        data[at + k] := sectors[sector][k];
      }
    }

    method WriteSector(sector: int, data: array<byte>, at: nat)
      requires 0 <= sector < NumSectors && at + SectorSize <= data.Length
      modifies this
      ensures sectors == old(sectors)[sector := data[at..at + SectorSize]]
    {
      sectors := sectors[sector := data[at..at + SectorSize]];
    }
  }

  method Bcopy(src: array<byte>, from: nat, dst: array<byte>, to: nat, n: nat)
    requires src != dst && from + n <= src.Length && to + n <= dst.Length
    modifies dst
    ensures dst[..] == Splice(old(dst[..]), to, src[from..from + n])
  {
    forall k | 0 <= k < n {
      dst[to + k] := src[from + k];
    }
  }

  /** The sectors a transfer of n bytes touches, and the buffer they need. */
  lemma Span(position: nat, n: nat)
    requires n > 0
    ensures var first, last := Block(position), Block(position + n - 1);
            && first <= last
            && 0 <= Start(first) <= position < Start(first) + SectorSize
            && Start(last) < position + n <= Start(last) + SectorSize == Start(last + 1)
            && Start(1 + last - first) == Start(last + 1) - Start(first)
  {
    hide Start, Sane;
    Within(position);
    Within(position + n - 1);
    DivMonotone(position, position + n - 1, SectorSize);
    NextStart(Block(position));
    NextStart(Block(position + n - 1));
    StartDifference(Block(position + n - 1) + 1, Block(position));
  }

  // -------------------------------------------------------------- transfer buffers

  /** The first upto bytes of buf are those of the file from offset base. */
  ghost predicate Loaded(d: Image, h: Header, base: nat, buf: seq<byte>, upto: nat)
    requires Good(h)
  {
    && upto <= |buf|
    && forall k | base <= k < base + upto :: Block(k) < h.numSectors && buf[k - base] == Raw(d, h, k)
  }

  lemma LoadNothing(d: Image, h: Header, base: nat, buf: seq<byte>)
    requires Good(h)
    ensures Loaded(d, h, base, buf, 0)
  {
  }

  lemma LoadSector(d: Image, h: Header, first: nat, i: nat, buf: seq<byte>, at: nat)
    requires Good(h) && first <= i < h.numSectors
    requires 0 <= Start(first) && at == Start(i) - Start(first) && at + SectorSize <= |buf|
    requires Loaded(d, h, Start(first), buf, at)
    ensures Loaded(d, h, Start(first), Splice(buf, at, d[h.dataSectors[i]]), at + SectorSize)
  {
    hide Start, Block, Offset, Sane, SectorsFor;
    var base := Start(first);
    var buf' := Splice(buf, at, d[h.dataSectors[i]]);
    forall k | base <= k < base + at + SectorSize
      ensures Block(k) < h.numSectors && buf'[k - base] == Raw(d, h, k)
    {
      if k >= base + at {
        SectorOf(i, k - Start(i));
      }
    }
  }

  lemma LoadedBytes(d: Image, h: Header, base: nat, buf: seq<byte>, upto: nat, position: nat, n: nat)
    requires Good(h) && Loaded(d, h, base, buf, upto)
    requires base <= position && position + n <= h.numBytes && position + n - base <= upto
    ensures buf[position - base..position - base + n] == FileBytes(d, h)[position..position + n]
  {
    var a := position - base;
    var x, y := buf[a..a + n], FileBytes(d, h)[position..position + n];
    forall j | 0 <= j < n ensures x[j] == y[j] {
      assert x[j] == Raw(d, h, position + j);
    }
  }

  /** Between offsets lo and hi, buf holds the bytes s of a file, as far as the file goes. */
  ghost predicate Holds(s: seq<byte>, base: nat, buf: seq<byte>, lo: int, hi: int) {
    && base <= lo && hi <= base + |buf|
    && forall k | lo <= k < hi && k < |s| :: buf[k - base] == s[k]
  }

  lemma HoldsLess(s: seq<byte>, base: nat, buf: seq<byte>, lo: nat, hi: nat, a: nat, b: nat)
    requires Holds(s, base, buf, lo, hi) && lo <= a && b <= hi
    ensures Holds(s, base, buf, a, b)
  {
  }

  lemma HoldsNothing(s: seq<byte>, base: nat, buf: seq<byte>, a: nat)
    requires base <= a <= base + |buf|
    ensures Holds(s, base, buf, a, a)
  {
  }

  /** Reading the sector at offset lo of the file into its place in the buffer. */
  lemma SectorRead(s: seq<byte>, base: nat, buf: seq<byte>, lo: nat)
    requires base <= lo <= |s| && lo + SectorSize <= base + |buf|
    ensures var n := Count(SectorSize, lo, |s|);
            n <= SectorSize && lo + n <= |s| && Holds(s, base, Splice(buf, lo - base, s[lo..lo + n]), lo, lo + SectorSize)
  {
    hide Sane;
  }

  lemma SectorReadKeeps(s: seq<byte>, base: nat, buf: seq<byte>, lo: nat, n: nat, a: nat, b: nat)
    requires base <= lo && lo + n <= |s| && lo + n <= base + |buf| && Holds(s, base, buf, a, b)
    ensures Holds(s, base, Splice(buf, lo - base, s[lo..lo + n]), a, b)
  {
    hide Sane;
  }

  /** Copying data over the middle of a buffer that holds the file's bytes on both sides. */
  lemma Patch(s: seq<byte>, base: nat, buf: seq<byte>, position: nat, data: seq<byte>)
    requires base <= position && position + |data| <= |s| && position + |data| <= base + |buf|
    requires Holds(s, base, buf, base, position) && Holds(s, base, buf, position + |data|, base + |buf|)
    ensures Holds(Splice(s, position, data), base, Splice(buf, position - base, data), base, base + |buf|)
  {
    hide Sane;
  }

  /** d' is d with sectors first to upto - 1 of the file taken from buf. */
  ghost predicate Stored(d: Image, d': Image, h: Header, first: nat, upto: nat, buf: seq<byte>)
    requires Good(h)
  {
    && SameOutside(d, d', Data(h))
    && forall j | 0 <= j < h.numSectors ::
         if first <= j < upto then
           var at := Start(j) - Start(first);
           0 <= at && at + SectorSize <= |buf| && d'[h.dataSectors[j]] == buf[at..at + SectorSize]
         else
           d'[h.dataSectors[j]] == d[h.dataSectors[j]]
  }

  lemma StoreNothing(d: Image, h: Header, first: nat, buf: seq<byte>)
    requires Good(h)
    ensures Stored(d, d, h, first, first, buf)
  {
  }

  lemma StoreSector(d: Image, d': Image, h: Header, first: nat, i: nat, buf: seq<byte>, at: nat)
    requires Good(h) && first <= i < h.numSectors && Stored(d, d', h, first, i, buf)
    requires at == Start(i) - Start(first) && at + SectorSize <= |buf|
    ensures Stored(d, d'[h.dataSectors[i] := buf[at..at + SectorSize]], h, first, i + 1, buf)
  {
    hide Sane, Start, SectorsFor;
    assert h.dataSectors[i] in Data(h);
    var s := h.dataSectors[i];
    var d2: Image := d'[s := buf[at..at + SectorSize]];
    assert forall j | 0 <= j < NumSectors && j != s :: d2[j] == d'[j];
    forall j | 0 <= j < h.numSectors && j != i ensures d2[h.dataSectors[j]] == d'[h.dataSectors[j]] {
      assert h.dataSectors[j] != s;
    }
  }

  /** A byte of the file after the buffer has been stored. */
  lemma StoredByte(d: Image, d': Image, h: Header, first: nat, last: nat, buf: seq<byte>, k: nat)
    requires Good(h) && Stored(d, d', h, first, last + 1, buf) && k < h.numBytes
    ensures Start(first) <= k < Start(last + 1) ==>
              k - Start(first) < |buf| && FileBytes(d', h)[k] == buf[k - Start(first)]
    ensures !(Start(first) <= k < Start(last + 1)) ==> FileBytes(d', h)[k] == FileBytes(d, h)[k]
  {
    hide Sane, SectorsFor, Start, Block, Offset;
    InFile(h, k);
    Within(k);
    if Block(k) < first {
      StartMonotone(Block(k) + 1, first);
    } else if Block(k) > last {
      StartMonotone(last + 1, Block(k));
    } else {
      StartMonotone(first, Block(k));
      StartMonotone(Block(k) + 1, last + 1);
    }
  }

  /** Storing a buffer that holds the spliced bytes splices the file. */
  lemma StoredBytes(d: Image, d': Image, h: Header, first: nat, last: nat, buf: seq<byte>, at: nat, data: seq<byte>)
    requires Good(h) && Stored(d, d', h, first, last + 1, buf)
    requires 0 <= Start(first) <= at && at + |data| <= h.numBytes && at + |data| <= Start(last + 1)
    requires Holds(Splice(FileBytes(d, h), at, data), Start(first), buf, Start(first), Start(last + 1))
    ensures Wrote(d, d', h, at, data)
  {
    hide Good, SectorsFor, Start, FileBytes;
    var s' := Splice(FileBytes(d, h), at, data);
    forall k | 0 <= k < h.numBytes ensures FileBytes(d', h)[k] == s'[k] {
      StoredByte(d, d', h, first, last, buf, k);
    }
  }

  lemma SizeBounds(n: nat)
    requires n <= MaxFileSize()
    ensures MaxFileSize() < 0x8000_0000 && SectorsFor(n) <= NumDirect < 0x8000_0000 && NumSectors < 0x8000_0000
  {
    SectorsForMax(n);
    assert NumDirect <= MaxFileSize() by { MulMonotone(1, SectorSize, NumDirect); }
  }

  /** A header filled by FindAndSet calls names distinct sectors of the disk. */
  lemma TakenIsGood(b: seq<bool>, h: Header)
    requires |b| == NumSectors && |h.dataSectors| == NumDirect
    requires 0 <= h.numBytes && h.numSectors == SectorsFor(h.numBytes) <= NumDirect
    requires h.numSectors <= CountClear(b) && h.dataSectors[..h.numSectors] == Take(b, h.numSectors).0
    ensures Good(h)
  {
    hide SectorsFor, Sane, Take;
    TakeFinds(b, h.numSectors);
    var taken := Take(b, h.numSectors).0;
    assert forall i | 0 <= i < h.numSectors :: h.dataSectors[i] == taken[i];
  }

  class FileHeader {
    var numBytes: int32
    var numSectors: int32
    var dataSectors: seq<int32>       // an array held inside the object itself

    ghost predicate Valid()
      reads this
    {
      |dataSectors| == NumDirect
    }

    ghost function Value(): (h: Header)
      reads this
    {
      Header(numBytes, numSectors, dataSectors)
    }

    constructor ()
      ensures Valid()
    {
      numBytes, numSectors, dataSectors := 0, 0, seq(NumDirect, i => 0);
    }

    method FetchFrom(disk: Disk, sector: int)
      requires Valid() && 0 <= sector < NumSectors
      modifies this
      ensures Value() == DecodeHeader(disk.sectors[sector])
    {
      var buf := new byte[SectorSize];
      disk.ReadSector(sector, buf, 0);
      assert buf[..] == disk.sectors[sector];
      var h := DecodeHeader(buf[..]);
      numBytes, numSectors, dataSectors := h.numBytes, h.numSectors, h.dataSectors;
    }

    method WriteBack(disk: Disk, sector: int)
      requires Valid() && 0 <= sector < NumSectors
      modifies disk
      ensures disk.sectors == old(disk.sectors)[sector := EncodeHeader(Value())]
    {
      hide EncodeHeader;
      var image := EncodeHeader(Header(numBytes, numSectors, dataSectors));
      var buf := new byte[SectorSize](i requires 0 <= i < SectorSize => image[i]);
      assert buf[0..SectorSize] == image;
      disk.WriteSector(sector, buf, 0);
    }

    method Allocate(freeMap: Bitmap, fileSize: nat) returns (ok: bool)
      requires Valid() && freeMap.Valid() && freeMap.numBits == NumSectors && fileSize <= MaxFileSize()
      modifies this, freeMap.words
      ensures Valid() && numSectors == SectorsFor(fileSize)
      ensures (numSectors - 1) * SectorSize < fileSize <= numSectors * SectorSize
      ensures ok <==> SectorsFor(fileSize) <= CountClear(old(freeMap.Contents()))
      ensures ok <==> fileSize <= CountClear(old(freeMap.Contents())) * SectorSize
      ensures !ok ==> freeMap.Contents() == old(freeMap.Contents())
      ensures ok ==> Good(Value()) && numBytes == fileSize
      ensures ok ==> (dataSectors[..numSectors], freeMap.Contents()) ==
                     Take(old(freeMap.Contents()), SectorsFor(fileSize))
    {
      hide Bits, Sane, SectorsFor, MaxFileSize, Take, FirstClear, CountClear, Good;
      SizeBounds(fileSize);
      SectorsAreLeast(fileSize, CountClear(freeMap.Contents()));
      numBytes := fileSize;
      numSectors := SectorsFor(fileSize);
      ghost var b := freeMap.Contents();
      var clear := freeMap.NumClear();
      if clear < numSectors {
        return false;
      }
      TakeNone(b);
      assert dataSectors[..0] == [];
      var i := 0;
      while i < numSectors
        invariant Valid() && 0 <= i <= numSectors == SectorsFor(fileSize) && numBytes == fileSize
        invariant (dataSectors[..i], freeMap.Contents()) == Take(b, i)
      {
        TakeNext(b, i);
        var sector := freeMap.FindAndSet();
        assert sector >= 0;
        ghost var taken := dataSectors[..i];
        dataSectors := dataSectors[i := sector];
        assert dataSectors[..i + 1] == taken + [sector];
        i := i + 1;
      }
      TakenIsGood(b, Value());
      return true;
    }

    method Deallocate(freeMap: Bitmap)
      requires Valid() && Good(Value()) && freeMap.Valid() && freeMap.numBits == NumSectors
      requires forall i | 0 <= i < numSectors :: freeMap.Contents()[dataSectors[i]]
      modifies freeMap.words
      ensures freeMap.Contents() == ClearAll(old(freeMap.Contents()), dataSectors[..numSectors])
    {
      hide Bits, Sane, SectorsFor, ClearAll, Mask, Without;
      ghost var sectors := dataSectors[..numSectors];
      assert sectors[..0] == [] && sectors[..numSectors] == sectors;
      ClearNone(freeMap.Contents());
      var i := 0;
      while i < numSectors
        invariant 0 <= i <= numSectors
        invariant freeMap.Contents() == ClearAll(old(freeMap.Contents()), sectors[..i])
      {
        ClearNext(old(freeMap.Contents()), sectors, i);
        assert sectors[i] !in sectors[..i];
        assert freeMap.Test(dataSectors[i]);
        freeMap.Clear(dataSectors[i]);
        i := i + 1;
      }
    }

    function ByteToSector(offset: nat): (sector: int)
      requires Valid() && Good(Value()) && Block(offset) < numSectors
      reads this
      ensures 0 <= sector < NumSectors && sector in Data(Value())
      ensures sector == Value().dataSectors[offset / SectorSize]
      ensures offset < numBytes ==> forall d: Image :: FileBytes(d, Value())[offset] == d[sector][offset % SectorSize]
    {
      dataSectors[Block(offset)]
    }

    function FileLength(): int
      reads this
    {
      numBytes
    }
  }

  class OpenFile {
    const disk: Disk
    const hdr: FileHeader
    var seekPosition: nat

    ghost predicate Valid()
      reads hdr
    {
      hdr.Valid() && Good(hdr.Value())
    }

    ghost function Contents(): seq<byte>
      requires Valid()
      reads disk, hdr
    {
      FileBytes(disk.sectors, hdr.Value())
    }

    constructor (disk: Disk, sector: int)
      requires 0 <= sector < NumSectors && Good(DecodeHeader(disk.sectors[sector]))
      ensures Valid() && this.disk == disk && seekPosition == 0
      ensures fresh(hdr) && hdr.Value() == DecodeHeader(disk.sectors[sector])
    {
      this.disk := disk;
      var h := new FileHeader();
      h.FetchFrom(disk, sector);
      hdr := h;
      seekPosition := 0;
    }

    method ReadAt(into: array<byte>, at: nat, numBytes: int, position: nat) returns (n: nat)
      requires Valid()
      requires at + Count(numBytes, position, hdr.numBytes) <= into.Length
      modifies into
      ensures n == Count(numBytes, position, hdr.numBytes)
      ensures n > 0 <==> numBytes > 0 && position < hdr.numBytes
      ensures n > 0 ==> position + n <= hdr.numBytes && (n == numBytes || (n < numBytes && position + n == hdr.numBytes))
      ensures n > 0 ==> into[..] == Splice(old(into[..]), at, Contents()[position..position + n])
      ensures n == 0 ==> into[..] == old(into[..])
    {
      hide Good, Raw, FileBytes, Loaded, Block, Offset, Splice, Start, Sane, SectorsFor;
      var fileLength := hdr.FileLength();
      if numBytes <= 0 || position >= fileLength {
        return 0;
      }
      n := numBytes;
      if position + numBytes > fileLength {
        n := fileLength - position;
      }
      var firstSector := Block(position);
      var lastSector := Block(position + n - 1);
      ghost var h, d := hdr.Value(), disk.sectors;
      Span(position, n);
      var count := 1 + lastSector - firstSector;
      InFile(h, position + n - 1);

      var buf := new byte[Start(count)];
      LoadNothing(d, h, Start(firstSector), buf[..]);
      var i := firstSector;
      while i <= lastSector
        invariant firstSector <= i <= lastSector + 1
        invariant 0 <= Start(i) - Start(firstSector) <= buf.Length
        invariant Loaded(d, h, Start(firstSector), buf[..], Start(i) - Start(firstSector))
        invariant into[..] == old(into[..])
      {
        SectorOf(i, 0);
        NextStart(i);
        StartMonotone(i + 1, lastSector + 1);
        StartDifference(i, firstSector);
        LoadSector(d, h, firstSector, i, buf[..], Start(i - firstSector));
        var sector := hdr.ByteToSector(Start(i));
        assert sector == h.dataSectors[i];
        disk.ReadSector(sector, buf, Start(i - firstSector));
        i := i + 1;
      }
      LoadedBytes(d, h, Start(firstSector), buf[..], buf.Length, position, n);
      Bcopy(buf, position - Start(firstSector), into, at, n);
    }

    /** The loop that writes the buffer back, sector by sector. */
    method StoreSectors(buf: array<byte>, firstSector: nat, lastSector: nat)
      requires Valid() && firstSector <= lastSector < hdr.numSectors
      requires buf.Length == Start(lastSector + 1) - Start(firstSector)
      modifies disk
      ensures Stored(old(disk.sectors), disk.sectors, hdr.Value(), firstSector, lastSector + 1, buf[..])
    {
      hide Raw, FileBytes, Stored, Block, Offset, Start, Sane, SectorsFor;
      ghost var h, d := hdr.Value(), disk.sectors;
      StoreNothing(d, h, firstSector, buf[..]);
      var i := firstSector;
      while i <= lastSector
        invariant firstSector <= i <= lastSector + 1
        invariant Stored(d, disk.sectors, h, firstSector, i, buf[..])
      {
        SectorOf(i, 0);
        NextStart(i);
        StartMonotone(i + 1, lastSector + 1);
        StartMonotone(firstSector, i);
        StartDifference(i, firstSector);
        StoreSector(d, disk.sectors, h, firstSector, i, buf[..], Start(i - firstSector));
        disk.WriteSector(hdr.ByteToSector(Start(i)), buf, Start(i - firstSector));
        i := i + 1;
      }
    }

    /** Reading in the first and the last sector, if they are to be partially modified. */
    method LoadPartial(buf: array<byte>, position: nat, n: nat, firstSector: nat, lastSector: nat)
      requires Valid() && n > 0 && position + n <= hdr.numBytes
      requires firstSector == Block(position) && lastSector == Block(position + n - 1)
      requires buf.Length == Start(lastSector + 1) - Start(firstSector)
      modifies buf
      ensures Start(firstSector) >= 0
      ensures Holds(Contents(), Start(firstSector), buf[..], Start(firstSector), position)
      ensures Holds(Contents(), Start(firstSector), buf[..], position + n, Start(lastSector + 1))
    {
      hide Good, Raw, FileBytes, Holds, Block, Offset, Splice, Start, Sane, SectorsFor;
      Span(position, n);
      StartMonotone(firstSector, lastSector);
      StartDifference(lastSector, firstSector);
      ghost var s, base, end := Contents(), Start(firstSector), Start(lastSector) + SectorSize;

      var firstAligned := position == Start(firstSector);
      var lastAligned := position + n == Start(lastSector + 1);
      if !firstAligned {
        SectorRead(s, base, buf[..], base);
        var _ := ReadAt(buf, 0, SectorSize, Start(firstSector));
        HoldsLess(s, base, buf[..], base, base + SectorSize, base, position);
      } else {
        HoldsNothing(s, base, buf[..], base);
      }
      if !lastAligned && (firstSector != lastSector || firstAligned) {
        SectorRead(s, base, buf[..], Start(lastSector));
        SectorReadKeeps(s, base, buf[..], Start(lastSector), Count(SectorSize, Start(lastSector), |s|), base, position);
        var _ := ReadAt(buf, Start(lastSector - firstSector), SectorSize, Start(lastSector));
        HoldsLess(s, base, buf[..], Start(lastSector), end, position + n, end);
      } else if lastAligned {
        HoldsNothing(s, base, buf[..], end);
      } else {
        HoldsLess(s, base, buf[..], base, end, position + n, end);
      }
    }

    method WriteAt(from: array<byte>, numBytes: int, position: nat) returns (n: nat)
      requires Valid() && Count(numBytes, position, hdr.numBytes) <= from.Length
      modifies disk
      ensures n == Count(numBytes, position, hdr.numBytes)
      ensures n > 0 <==> numBytes > 0 && position < hdr.numBytes
      ensures n > 0 ==> position + n <= hdr.numBytes && (n == numBytes || (n < numBytes && position + n == hdr.numBytes))
      ensures n == 0 ==> disk.sectors == old(disk.sectors)
      ensures n > 0 ==> Wrote(old(disk.sectors), disk.sectors, hdr.Value(), position, from[..n])
    {
      hide Good, Raw, FileBytes, Loaded, Holds, Stored, Wrote, Block, Offset, Splice, Start, Sane, SectorsFor;
      var fileLength := hdr.FileLength();
      if numBytes <= 0 || position >= fileLength {
        return 0;
      }
      n := numBytes;
      if position + numBytes > fileLength {
        n := fileLength - position;
      }
      var firstSector := Block(position);
      var lastSector := Block(position + n - 1);
      ghost var h, d := hdr.Value(), disk.sectors;
      Span(position, n);
      InFile(h, position + n - 1);
      var count := 1 + lastSector - firstSector;
      var buf := new byte[Start(count)];
      LoadPartial(buf, position, n, firstSector, lastSector);
      Patch(Contents(), Start(firstSector), buf[..], position, from[0..n]);
      Bcopy(from, 0, buf, position - Start(firstSector), n);
      assert from[..n] == from[0..n];

      StoreSectors(buf, firstSector, lastSector);
      StoredBytes(d, disk.sectors, h, firstSector, lastSector, buf[..], position, from[..n]);
    }

    method Seek(position: nat)
      modifies this
      ensures seekPosition == position
    {
      seekPosition := position;
    }

    method Read(into: array<byte>, numBytes: int) returns (n: nat)
      requires Valid() && Count(numBytes, seekPosition, hdr.numBytes) <= into.Length
      modifies this, into
      ensures n == Count(numBytes, old(seekPosition), hdr.numBytes) && seekPosition == old(seekPosition) + n
      ensures n > 0 <==> numBytes > 0 && old(seekPosition) < hdr.numBytes
      ensures n > 0 ==> old(seekPosition) + n <= hdr.numBytes && (n == numBytes || (n < numBytes && old(seekPosition) + n == hdr.numBytes))
      ensures n > 0 ==> into[..n] == Contents()[old(seekPosition)..seekPosition]
      ensures into[n..] == old(into[n..])
    {
      n := ReadAt(into, 0, numBytes, seekPosition);
      seekPosition := seekPosition + n;
    }

    method Write(from: array<byte>, numBytes: int) returns (n: nat)
      requires Valid() && Count(numBytes, seekPosition, hdr.numBytes) <= from.Length
      modifies this, disk
      ensures n == Count(numBytes, old(seekPosition), hdr.numBytes) && seekPosition == old(seekPosition) + n
      ensures n > 0 <==> numBytes > 0 && old(seekPosition) < hdr.numBytes
      ensures n > 0 ==> old(seekPosition) + n <= hdr.numBytes && (n == numBytes || (n < numBytes && old(seekPosition) + n == hdr.numBytes))
      ensures n == 0 ==> disk.sectors == old(disk.sectors)
      ensures n > 0 ==> Wrote(old(disk.sectors), disk.sectors, hdr.Value(), old(seekPosition), from[..n])
    {
      n := WriteAt(from, numBytes, seekPosition);
      seekPosition := seekPosition + n;
    }
  }
}
