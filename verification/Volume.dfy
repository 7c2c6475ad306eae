/** The disk as an array of sectors, file headers as sectors, and the bytes of a file. */
module Volume {
  import opened Layout
  import opened Bytes

  const BlankSector: seq<byte> := seq(SectorSize, i => 0 as byte)

  type Sector = s: seq<byte> | |s| == SectorSize witness BlankSector

  type Image = d: seq<Sector> | |d| == NumSectors witness seq(NumSectors, i => BlankSector)

  // -------------------------------------------------------------- headers

  datatype Header = Header(numBytes: int32, numSectors: int32, dataSectors: seq<int32>)

  /** A header as Allocate leaves it: a legal size, one sector of its own for every
      SectorSize bytes begun, and an unspecified rest of the table. */
  ghost predicate Good(h: Header) {
    && |h.dataSectors| == NumDirect
    && 0 <= h.numBytes
    && h.numSectors == SectorsFor(h.numBytes) <= NumDirect
    && (forall i | 0 <= i < h.numSectors :: 0 <= h.dataSectors[i] < NumSectors)
    && (forall i, j | 0 <= i < j < h.numSectors :: h.dataSectors[i] != h.dataSectors[j])
  }

  function Ints(h: Header): seq<int32> {
    [h.numBytes, h.numSectors] + h.dataSectors
  }

  function EncodeHeader(h: Header): Sector
    requires |h.dataSectors| == NumDirect
  {
    var ints := Ints(h);
    Flatten(seq(|ints|, i requires 0 <= i < |ints| => EncodeInt(ints[i])), 4)
  }

  function IntAt(s: Sector, i: nat): int32
    requires i < 2 + NumDirect
  {
    DecodeInt(Record(s, 4, i))
  }

  function DecodeHeader(s: Sector): (h: Header)
    ensures |h.dataSectors| == NumDirect
  {
    Header(IntAt(s, 0), IntAt(s, 1), seq(NumDirect, i requires 0 <= i < NumDirect => IntAt(s, i + 2)))
  }

  /** A header written to a sector is read back unchanged, table tail included. */
  lemma HeaderRoundTrip(h: Header)
    requires |h.dataSectors| == NumDirect
    ensures DecodeHeader(EncodeHeader(h)) == h
  {
    hide EncodeInt, DecodeInt, Flatten, Record;
    var ints := Ints(h);
    var records := seq(|ints|, i requires 0 <= i < |ints| => EncodeInt(ints[i]));
    forall i: nat | i < |ints| ensures IntAt(EncodeHeader(h), i) == ints[i] {
      FlattenRecord(records, 4, i);
      IntRoundTrip(ints[i]);
    }
    assert forall i | 0 <= i < NumDirect :: h.dataSectors[i] == ints[i + 2];
  }

  // -------------------------------------------------------------- contents

  /** The k-th byte of the file's data sectors laid end to end. */
  ghost function Raw(d: Image, h: Header, k: nat): byte
    requires Good(h) && Block(k) < h.numSectors
  {
    d[h.dataSectors[Block(k)]][Offset(k)]
  }

  lemma InFile(h: Header, k: nat)
    requires Good(h) && k < h.numBytes
    ensures Block(k) < h.numSectors <= |h.dataSectors|
  {
    SectorIndex(k, h.numBytes);
  }

  ghost function FileBytes(d: Image, h: Header): (b: seq<byte>)
    requires Good(h)
    ensures |b| == h.numBytes
  {
    seq(h.numBytes, k requires 0 <= k < h.numBytes => InFile(h, k); Raw(d, h, k))
  }

  /** s with src written over it at a position. */
  function Splice<T>(s: seq<T>, at: nat, src: seq<T>): (r: seq<T>)
    requires at + |src| <= |s|
    ensures |r| == |s|
  {
    s[..at] + src + s[at + |src|..]
  }

  /** s with its front replaced by as much of src as there is room for. */
  function Fronted<T>(s: seq<T>, src: seq<T>): (r: seq<T>)
    ensures |r| == |s|
    ensures |src| == |s| ==> r == src
  {
    var n := if |s| < |src| then |s| else |src|;
    Splice(s, 0, src[..n])
  }

  ghost function Data(h: Header): (s: set<int>)
    requires Good(h)
  {
    set i | 0 <= i < h.numSectors :: h.dataSectors[i]
  }

  /** Two disks that agree outside a set of sectors. */
  ghost predicate SameOutside(d: Image, d': Image, changed: set<int>) {
    forall s | 0 <= s < NumSectors && s !in changed :: d'[s] == d[s]
  }

  /** A file none of whose sectors changed has the same bytes. */
  lemma FileFrame(d: Image, d': Image, h: Header, changed: set<int>)
    requires Good(h) && SameOutside(d, d', changed) && Data(h) !! changed
    ensures FileBytes(d', h) == FileBytes(d, h)
  {
    forall k | 0 <= k < h.numBytes ensures FileBytes(d', h)[k] == FileBytes(d, h)[k] {
      InFile(h, k);
      assert h.dataSectors[Block(k)] in Data(h);
    }
  }

  /** How many bytes a request for numBytes at a position moves: all that are asked for and lie
      in the file, and fewer than asked for only at its end. */
  function Count(numBytes: int, position: nat, length: nat): (n: nat)
    ensures n > 0 <==> numBytes > 0 && position < length
    ensures n > 0 ==> position + n <= length && (n == numBytes || (n < numBytes && position + n == length))
  {
    if numBytes <= 0 || position >= length then 0
    else if position + numBytes > length then length - position
    else numBytes
  }

  /** The effect of writing data at a position of a file: the file's bytes are spliced, and no
      sector outside the file changes.  What lies past the end of the file is not specified. */
  ghost predicate Wrote(d: Image, d': Image, h: Header, at: nat, data: seq<byte>)
    requires Good(h)
  {
    && at + |data| <= h.numBytes
    && FileBytes(d', h) == Splice(FileBytes(d, h), at, data)
    && SameOutside(d, d', Data(h))
  }

  /** The effect of writing data at the front of a file, as far as the file goes. */
  ghost predicate WroteFront(d: Image, d': Image, h: Header, data: seq<byte>)
    requires Good(h)
  {
    Wrote(d, d', h, 0, data[..Count(|data|, 0, h.numBytes)])
  }

  /** The effect of writing the whole of a file. */
  ghost predicate Replaced(d: Image, d': Image, h: Header, data: seq<byte>)
    requires Good(h)
  {
    FileBytes(d', h) == data && SameOutside(d, d', Data(h))
  }

  /** What WriteAt at the front of a file promises, in one piece. */
  lemma FrontWritten(d: Image, d': Image, h: Header, data: seq<byte>)
    requires Good(h)
    requires var n := Count(|data|, 0, h.numBytes);
             (n == 0 ==> d' == d) && (n > 0 ==> Wrote(d, d', h, 0, data[..n]))
    ensures WroteFront(d, d', h, data)
    ensures |data| == h.numBytes ==> Replaced(d, d', h, data)
  {
    hide FileBytes;
    if |data| == h.numBytes {
      assert data[..|data|] == data;
    }
  }

  /** Whatever range is read after a write, each byte is the one written if the write covered
      it, and otherwise the one the same read would have returned before. */
  lemma ReadAfterWrite(d: Image, d': Image, h: Header, at: nat, data: seq<byte>, position: nat, numBytes: int, k: nat)
    requires Good(h) && Wrote(d, d', h, at, data)
    requires k < Count(numBytes, position, h.numBytes)
    ensures FileBytes(d', h)[position..position + Count(numBytes, position, h.numBytes)][k] ==
            if at <= position + k < at + |data| then data[position + k - at] else FileBytes(d, h)[position + k]
  {
    hide FileBytes;
  }

  /** Every other file, and every header outside the file, is untouched by a write. */
  lemma WriteTouchesOneFile(d: Image, d': Image, h: Header, at: nat, data: seq<byte>, other: Header, sector: int)
    requires Good(h) && Good(other) && Wrote(d, d', h, at, data)
    requires Data(other) !! Data(h) && 0 <= sector < NumSectors && sector !in Data(h)
    ensures FileBytes(d', other) == FileBytes(d, other)
    ensures DecodeHeader(d'[sector]) == DecodeHeader(d[sector])
  {
    FileFrame(d, d', other, Data(h));
  }
}
