/** The sizes the file system is built from, as parameters.

    Nachos fixes a sector of 128 bytes, 1024 sectors and 10 directory entries.  Everything
    here holds for any sizes with the properties the code relies on. */
module Layout {

  datatype Geometry = Geometry(sectorSize: nat, numSectors: nat, numDirEntries: nat)

  const EntrySize: nat := 20        // sizeof(DirectoryEntry)
  const FileNameMaxLen: nat := 9

  function DivRoundUp(n: nat, s: nat): nat
    requires s > 0
  {
    n / s + if n % s > 0 then 1 else 0
  }

  /** A header fills one sector exactly, the bitmap a whole number of words; the bitmap and
      the directory are files of legal size, and there is room for both (the two ASSERTs
      of the formatting code). */
  predicate Sane(g: Geometry) {
    && g.sectorSize >= 12 && g.sectorSize % 4 == 0
    && g.numSectors % 32 == 0 && 0 < g.numSectors < 0x8000_0000
    && var direct := (g.sectorSize - 8) / 4;
       var maxFile := direct * g.sectorSize;
       && maxFile < 0x8000_0000
       && g.numSectors / 8 <= maxFile && EntrySize * g.numDirEntries <= maxFile
       && 2 + DivRoundUp(g.numSectors / 8, g.sectorSize)
            + DivRoundUp(EntrySize * g.numDirEntries, g.sectorSize) <= g.numSectors
  }

  type DiskGeometry = g: Geometry | Sane(g) witness Geometry(128, 1024, 10)

  /** Any geometry at all. */
  const G: DiskGeometry

  type positive = n: int | n > 0 witness 1

  const SectorSize: positive := G.sectorSize
  const NumSectors: nat := G.numSectors
  const NumDirEntries: nat := G.numDirEntries
  const NumDirect: nat := (SectorSize - 8) / 4

  function MaxFileSize(): nat {
    NumDirect * SectorSize
  }

  function FreeMapFileSize(): nat {
    NumSectors / 8
  }

  function DirectoryFileSize(): nat {
    EntrySize * NumDirEntries
  }

  /** Sectors needed for a file of n bytes. */
  function SectorsFor(n: nat): nat {
    DivRoundUp(n, SectorSize)
  }

  /** Rounding up gives the least number of pieces of size s that hold n. */
  lemma RoundsUp(n: nat, s: nat, k: nat)
    requires s > 0
    ensures DivRoundUp(n, s) <= k <==> n <= k * s
    ensures (DivRoundUp(n, s) - 1) * s < n <= DivRoundUp(n, s) * s
  {
    DivMod(n, s);
    var q := n / s;
    Distributed(q, s);
    if k <= q {
      MulMonotone(k, q, s);
    } else {
      MulMonotone(q + 1, k, s);
    }
  }

  lemma Distributed(q: int, s: int)
    ensures (q + 1) * s == q * s + s && (q - 1) * s == q * s - s
  {
  }

  /** A file of n bytes takes the least number of sectors that hold it, so k sectors are enough
      exactly when its bytes fit. */
  lemma SectorsAreLeast(n: nat, k: nat)
    ensures SectorsFor(n) <= k <==> n <= k * SectorSize
    ensures (SectorsFor(n) - 1) * SectorSize < n <= SectorsFor(n) * SectorSize
  {
    RoundsUp(n, SectorSize, k);
  }

  /** Which sector of a file holds byte k, and where in that sector. */
  function Block(k: nat): nat {
    Quotient(k, SectorSize)
  }

  function Quotient(k: nat, s: positive): nat {
    k / s
  }

  function Offset(k: nat): (r: nat)
    ensures r < SectorSize
  {
    k % SectorSize
  }

  /** The byte of a file at which its i-th sector starts. */
  function Start(i: int): int {
    i * SectorSize
  }

  lemma NextStart(i: int)
    ensures Start(i + 1) == Start(i) + SectorSize && Start(0) == 0
  {
  }

  lemma StartDifference(a: int, b: int)
    ensures Start(a - b) == Start(a) - Start(b)
  {
  }

  lemma StartMonotone(a: int, b: int)
    requires a <= b
    ensures Start(a) <= Start(b)
  {
    StartDifference(b, a);
  }

  /** Byte r of the i-th sector. */
  lemma SectorOf(i: nat, r: nat)
    requires r < SectorSize
    ensures Start(i) >= 0 && Block(Start(i) + r) == i && Offset(Start(i) + r) == r
  {
    DivUnique(i * SectorSize + r, i, r, SectorSize);
  }

  lemma Within(k: nat)
    ensures Start(Block(k)) <= k < Start(Block(k) + 1)
    ensures k == Start(Block(k)) + Offset(k)
  {
    DivMod(k, SectorSize);
    NextStart(Block(k));
  }

  lemma SectorIndex(k: nat, n: nat)
    requires k < n
    ensures Block(k) < SectorsFor(n)
  {
    DivMonotone(k, n, SectorSize);
    if k / SectorSize == n / SectorSize {
      DivMod(k, SectorSize);
      DivMod(n, SectorSize);
    }
  }

  lemma DivMod(k: nat, s: nat)
    requires s > 0
    ensures k == k / s * s + k % s && 0 <= k % s < s
  {
  }

  lemma DivMonotone(a: nat, b: nat, s: nat)
    requires s > 0 && a <= b
    ensures a / s <= b / s
  {
    DivMod(a, s);
    DivMod(b, s);
    if a / s > b / s {
      MulMonotone(b / s + 1, a / s, s);
    }
  }

  lemma MulMonotone(a: nat, b: nat, s: nat)
    requires a <= b
    ensures a * s <= b * s
  {
  }

  /** The largest file is the largest that a header has room for. */
  lemma SectorsForMax(n: nat)
    ensures SectorsFor(n) <= NumDirect <==> n <= MaxFileSize()
  {
    SectorsAreLeast(n, NumDirect);
  }

  lemma DivExact(q: nat, s: nat)
    requires s > 0
    ensures q * s / s == q && q * s % s == 0
  {
    DivUnique(q * s, q, 0, s);
  }

  /** Quotient and remainder are unique. */
  lemma DivUnique(k: nat, q: nat, r: nat, s: nat)
    requires s > 0 && k == q * s + r && r < s
    ensures k / s == q && k % s == r
  {
    DivMod(k, s);
    if k / s < q { MulMonotone(k / s + 1, q, s); }
    if k / s > q { MulMonotone(q + 1, k / s, s); }
  }
}
