/** A bitmap that is stored in a file. */
module PersistentBitmaps {
  import opened Layout
  import opened Bytes
  import opened Bitmaps
  import opened Volume
  import opened Files

  const WordSize: nat := 4

  function EncodeWords(w: seq<bv32>): (b: seq<byte>)
    ensures |b| == |w| * WordSize
  {
    Flatten(seq(|w|, i requires 0 <= i < |w| => EncodeWord(w[i])), WordSize)
  }

  function WordAt(b: seq<byte>, i: nat): bv32
    requires (i + 1) * WordSize <= |b|
  {
    DecodeWord(Record(b, WordSize, i))
  }

  function DecodeWords(b: seq<byte>, n: nat): (w: seq<bv32>)
    requires n * WordSize <= |b|
    ensures |w| == n
  {
    seq(n, i requires 0 <= i < n => WordAt(b, i))
  }

  lemma WordsRoundTrip(w: seq<bv32>)
    ensures DecodeWords(EncodeWords(w), |w|) == w
  {
    hide EncodeWord, DecodeWord, Flatten, Record;
    var records := seq(|w|, i requires 0 <= i < |w| => EncodeWord(w[i]));
    forall i: nat | i < |w| ensures WordAt(EncodeWords(w), i) == w[i] {
      FlattenRecord(records, WordSize, i);
      WordRoundTrip(w[i]);
    }
  }

  /** The bits a file of n bits holds. */
  function FileBits(b: seq<byte>, n: nat): (bits: seq<bool>)
    requires |b| == DivRoundUp(n, 32) * WordSize
    ensures |bits| == n
  {
    Bits(DecodeWords(b, DivRoundUp(n, 32)), n)
  }

  class PersistentBitmap {
    const bitmap: Bitmap

    ghost predicate Valid() {
      bitmap.Valid()
    }

    ghost function Contents(): seq<bool>
      requires Valid()
      reads bitmap.words
    {
      bitmap.Contents()
    }

    constructor (numItems: nat)
      requires numItems > 0
      ensures Valid() && fresh(bitmap) && fresh(bitmap.words) && bitmap.numBits == numItems
      ensures Contents() == seq(numItems, i => false)
    {
      bitmap := new Bitmap(numItems);
    }

    constructor FromFile(file: OpenFile, numItems: nat)
      requires numItems > 0 && file.Valid()
      ensures Valid() && fresh(bitmap) && fresh(bitmap.words) && bitmap.numBits == numItems
      ensures var n := DivRoundUp(numItems, 32);
              bitmap.words[..] == DecodeWords(Fronted(EncodeWords(seq(n, i => 0)), file.Contents()), n)
      ensures file.hdr.numBytes == DivRoundUp(numItems, 32) * WordSize ==> Contents() == FileBits(file.Contents(), numItems)
    {
      bitmap := new Bitmap(numItems);
      new;
      FetchFrom(file);
    }

    method FetchFrom(file: OpenFile)
      requires Valid() && file.Valid()
      modifies bitmap.words
      ensures bitmap.words[..] ==
              DecodeWords(Fronted(EncodeWords(old(bitmap.words[..])), file.Contents()), bitmap.words.Length)
      ensures file.hdr.numBytes == bitmap.words.Length * WordSize ==> Contents() == FileBits(file.Contents(), bitmap.numBits)
    {
      hide Good, DecodeWord, EncodeWords, Record, Bits;
      var size := bitmap.words.Length * WordSize;
      var bytes := EncodeWords(bitmap.words[..]);
      var buf := new byte[size](i requires 0 <= i < size => bytes[i]);
      assert buf[..] == bytes;
      var _ := file.ReadAt(buf, 0, size, 0);
      ghost var front := Fronted(bytes, file.Contents());
      assert buf[..] == front;
      forall i | 0 <= i < bitmap.words.Length {
        bitmap.words[i] := WordAt(buf[..], i);
      }
      assert bitmap.words[..] == DecodeWords(front, bitmap.words.Length);
    }

    method WriteBack(file: OpenFile)
      requires Valid() && file.Valid()
      modifies file.disk
      ensures WroteFront(old(file.disk.sectors), file.disk.sectors, file.hdr.Value(), EncodeWords(bitmap.words[..]))
      ensures file.hdr.numBytes == bitmap.words.Length * WordSize ==>
                && Replaced(old(file.disk.sectors), file.disk.sectors, file.hdr.Value(), EncodeWords(bitmap.words[..]))
                && FileBits(file.Contents(), bitmap.numBits) == Contents()
    {
      hide Good, EncodeWords, DecodeWords, Bits, Wrote, WroteFront;
      var bytes := EncodeWords(bitmap.words[..]);
      var buf := new byte[|bytes|](i requires 0 <= i < |bytes| => bytes[i]);
      assert buf[..] == bytes;
      var n := file.WriteAt(buf, buf.Length, 0);
      FrontWritten(old(file.disk.sectors), file.disk.sectors, file.hdr.Value(), bytes);
      assert file.hdr.numBytes == |bytes| ==> file.Contents() == bytes;
      WordsRoundTrip(bitmap.words[..]);
    }
  }
}
