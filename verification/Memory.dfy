/** Guest memory: address translation by page table or TLB, and reads and writes of
    1, 2 or 4 bytes in the guest's little-endian order. */
module Memory {
  import opened Bytes
  import opened Words

  const PageSize: nat := 128
  const NumPhysPages: nat := 128
  const MemorySize: nat := NumPhysPages * PageSize

  datatype Exception = Syscall | PageFault | ReadOnly | BusError | AddressError | Overflow | IllegalInstr

  datatype Result<T> = Ok(value: T) | Err(exception: Exception)

  datatype Entry = Entry(virtualPage: int, physicalPage: int, valid: bool, readOnly: bool, use: bool, dirty: bool)

  /** A linear page table, indexed by virtual page, or a TLB, searched in order. */
  datatype Mapping = PageTable(entries: seq<Entry>) | Tlb(entries: seq<Entry>)

  datatype State = State(bytes: seq<byte>, map_: Mapping)

  predicate IsSize(size: int) {
    size == 1 || size == 2 || size == 4
  }

  // -------------------------------------------------------------- translation

  /** The first valid TLB entry for the page. */
  function Search(entries: seq<Entry>, vpn: int, from: nat): (r: Result<nat>)
    requires from <= |entries|
    ensures r.Ok? ==> from <= r.value < |entries| && entries[r.value].valid && entries[r.value].virtualPage == vpn
    ensures r.Err? ==> r.exception == PageFault
    ensures r.Err? ==> forall i | from <= i < |entries| :: !(entries[i].valid && entries[i].virtualPage == vpn)
    decreases |entries| - from
  {
    if from == |entries| then Err(PageFault)
    else if entries[from].valid && entries[from].virtualPage == vpn then Ok(from)
    else Search(entries, vpn, from + 1)
  }

  function Locate(m: Mapping, vpn: nat): (r: Result<nat>)
    ensures r.Ok? ==> r.value < |m.entries| && m.entries[r.value].valid
  {
    match m
    case PageTable(entries) =>
      if vpn >= |entries| then Err(AddressError)
      else if !entries[vpn].valid then Err(PageFault)
      else Ok(vpn)
    case Tlb(entries) =>
      Search(entries, vpn, 0)
  }

  predicate Misaligned(addr: uint32, size: int) {
    (size == 4 && addr % 4 != 0) || (size == 2 && addr % 2 != 0)
  }

  function Page(addr: uint32): nat {
    addr / PageSize
  }

  function Translate(m: Mapping, addr: uint32, size: int, writing: bool): (r: Result<nat>) {
    if Misaligned(addr, size) then Err(AddressError)
    else
      match Locate(m, Page(addr))
      case Err(e) => Err(e)
      case Ok(i) =>
        var entry := m.entries[i];
        if entry.readOnly && writing then Err(ReadOnly)
        else if entry.physicalPage < 0 || entry.physicalPage >= NumPhysPages then Err(BusError)
        else Ok(entry.physicalPage * PageSize + addr % PageSize)
  }

  /** The mapping with the use and dirty bits of the entry for addr set. */
  function Touched(m: Mapping, addr: uint32, writing: bool): Mapping {
    match Locate(m, Page(addr))
    case Err(_) => m
    case Ok(i) => m.(entries := m.entries[i := Touch(m.entries[i], writing)])
  }

  function Touch(e: Entry, writing: bool): Entry {
    e.(use := true, dirty := e.dirty || writing)
  }

  /** A translated access lies within one page, and within physical memory. */
  lemma StaysInPage(m: Mapping, addr: uint32, size: int, writing: bool)
    requires IsSize(size) && Translate(m, addr, size, writing).Ok?
    ensures var p := Translate(m, addr, size, writing).value;
            && 0 <= p && p + size <= MemorySize
            && addr % PageSize + size <= PageSize
            && p / PageSize == (p + size - 1) / PageSize
  {
    hide Locate;
    AlignedFits(addr, size);
    var entry := m.entries[Locate(m, Page(addr)).value];
    FrameHolds(entry.physicalPage, addr % PageSize, size);
  }

  lemma AlignedFits(addr: uint32, size: int)
    requires IsSize(size) && !Misaligned(addr, size)
    ensures addr % PageSize + size <= PageSize
  {
  }

  lemma FrameHolds(frame: nat, offset: nat, size: int)
    requires frame < NumPhysPages && IsSize(size) && offset + size <= PageSize
    ensures var p := frame * PageSize + offset;
            p + size <= MemorySize && p / PageSize == frame == (p + size - 1) / PageSize
  {
  }

  /** The i-th entry is the one that translates a page: the page table's entry of that number, or
      the first valid TLB entry for it. */
  ghost predicate Translates(m: Mapping, page: nat, i: nat) {
    && i < |m.entries| && m.entries[i].valid
    && match m
       case PageTable(entries) => i == page
       case Tlb(entries) => entries[i].virtualPage == page && forall j | 0 <= j < i :: !(entries[j].valid && entries[j].virtualPage == page)
  }

  /** The exceptions that are raised before an entry is found, exactly when they are. */
  lemma TranslateFails(m: Mapping, addr: uint32, size: int, writing: bool)
    ensures var r, page := Translate(m, addr, size, writing), addr / PageSize;
            && (r == Err(AddressError) <==> ((size == 2 || size == 4) && addr % size != 0) || (m.PageTable? && page >= |m.entries|))
            && (r == Err(PageFault) <==>
                  && !((size == 2 || size == 4) && addr % size != 0)
                  && (m.PageTable? ==> page < |m.entries| && !m.entries[page].valid)
                  && (m.Tlb? ==> forall j | 0 <= j < |m.entries| :: !(m.entries[j].valid && m.entries[j].virtualPage == page)))
            && (r.Ok? || r == Err(ReadOnly) || r == Err(BusError) ==> exists i: nat :: Translates(m, page, i))
  {
    var r, page := Translate(m, addr, size, writing), addr / PageSize;
    LocateIs(m, page);
    if r.Ok? || r == Err(ReadOnly) || r == Err(BusError) {
      assert Translates(m, page, Locate(m, page).value);
    }
  }

  /** What an aligned access comes to, by the fields of the entry for its page: a write to a
      read-only page, a frame that does not exist, or the same offset in the entry's frame. */
  lemma TranslateMeans(m: Mapping, addr: uint32, size: int, writing: bool, i: nat)
    requires !((size == 2 || size == 4) && addr % size != 0) && Translates(m, addr / PageSize, i)
    ensures var r, e := Translate(m, addr, size, writing), m.entries[i];
            && (r == Err(ReadOnly) <==> e.readOnly && writing)
            && (r == Err(BusError) <==> !(e.readOnly && writing) && !(0 <= e.physicalPage < NumPhysPages))
            && (r.Ok? <==> !(e.readOnly && writing) && 0 <= e.physicalPage < NumPhysPages)
            && (r.Ok? ==> r.value / PageSize == e.physicalPage && r.value % PageSize == addr % PageSize)
  {
    LocateIs(m, addr / PageSize);
    assert Locate(m, Page(addr)) == Ok(i);
    hide Locate;
    var e := m.entries[i];
    if 0 <= e.physicalPage < NumPhysPages {
      InFrame(e.physicalPage, addr % PageSize);
    }
  }

  lemma LocateIs(m: Mapping, page: nat)
    ensures var r := Locate(m, page); r.Ok? ==> Translates(m, page, r.value)
    ensures forall i: nat | Translates(m, page, i) :: Locate(m, page) == Ok(i)
  {
    if m.Tlb? {
      SearchFirst(m.entries, page, 0);
    }
  }

  lemma {:induction false} SearchFirst(entries: seq<Entry>, page: int, from: nat)
    requires from <= |entries|
    ensures var r := Search(entries, page, from);
            r.Ok? ==> forall j | from <= j < r.value :: !(entries[j].valid && entries[j].virtualPage == page)
    decreases |entries| - from
  {
    if from < |entries| {
      SearchFirst(entries, page, from + 1);
    }
  }

  lemma InFrame(frame: nat, offset: nat)
    requires offset < PageSize
    ensures (frame * PageSize + offset) / PageSize == frame && (frame * PageSize + offset) % PageSize == offset
  {
  }

  /** A translation marks the entry used, and dirty if it is for writing, and no other entry. */
  lemma TouchedExactly(m: Mapping, addr: uint32, writing: bool, i: nat)
    requires Translates(m, addr / PageSize, i)
    ensures var n, e := Touched(m, addr, writing), m.entries[i];
            && n.PageTable? == m.PageTable? && |n.entries| == |m.entries|
            && n.entries[i].use && (n.entries[i].dirty <==> e.dirty || writing)
            && n.entries[i] == e.(use := true, dirty := n.entries[i].dirty)
            && forall j | 0 <= j < |m.entries| && j != i :: n.entries[j] == m.entries[j]
  {
    LocateIs(m, addr / PageSize);
  }

  /** Entry i of a TLB says what the page table says. */
  predicate Agrees(e: Entry, table: seq<Entry>) {
    && 0 <= e.virtualPage < |table|
    && var t := table[e.virtualPage];
       t.valid && t.physicalPage == e.physicalPage && t.readOnly == e.readOnly
  }

  /** A TLB whose valid entries all agree with the page table either faults or translates
      every access, aligned or not, to the same result or the same exception. */
  lemma TlbRefinesPageTable(tlb: seq<Entry>, table: seq<Entry>, addr: uint32, size: int, writing: bool)
    requires forall i | 0 <= i < |tlb| && tlb[i].valid :: Agrees(tlb[i], table)
    ensures var r := Translate(Tlb(tlb), addr, size, writing);
            r == Err(PageFault) || r == Translate(PageTable(table), addr, size, writing)
  {
  }

  /** Conversely, the TLB faults on an aligned access exactly when no valid entry names the page. */
  lemma TlbFaultsIffMissing(tlb: seq<Entry>, addr: uint32, size: int, writing: bool)
    requires !Misaligned(addr, size)
    ensures Translate(Tlb(tlb), addr, size, writing) == Err(PageFault) <==>
            forall i | 0 <= i < |tlb| :: !(tlb[i].valid && tlb[i].virtualPage == Page(addr))
  {
  }

  // -------------------------------------------------------------- use and dirty bits

  predicate SameEntry(e: Entry, f: Entry) {
    f == e.(use := f.use, dirty := f.dirty)
  }

  /** Two mappings that differ at most in use and dirty bits. */
  predicate SameMap(m: Mapping, n: Mapping) {
    && m.PageTable? == n.PageTable? && |m.entries| == |n.entries|
    && forall i | 0 <= i < |m.entries| :: SameEntry(m.entries[i], n.entries[i])
  }

  lemma {:induction false} SameSearch(a: seq<Entry>, b: seq<Entry>, vpn: int, from: nat)
    requires from <= |a| == |b| && forall i | 0 <= i < |a| :: SameEntry(a[i], b[i])
    ensures Search(a, vpn, from) == Search(b, vpn, from)
    decreases |a| - from
  {
    if from < |a| {
      SameSearch(a, b, vpn, from + 1);
    }
  }

  lemma SameTranslation(m: Mapping, n: Mapping, addr: uint32, size: int, writing: bool)
    requires SameMap(m, n)
    ensures Translate(n, addr, size, writing) == Translate(m, addr, size, writing)
  {
    SameSearch(m.entries, n.entries, Page(addr), 0);
  }

  lemma TouchedSame(m: Mapping, addr: uint32, writing: bool)
    ensures SameMap(m, Touched(m, addr, writing))
  {
  }

  lemma SameMapTransitive(m: Mapping, n: Mapping, o: Mapping)
    requires SameMap(m, n) && SameMap(n, o)
    ensures SameMap(m, o)
  {
  }

  // -------------------------------------------------------------- byte order

  /** The four bytes at a place in memory as the host's own load would see them. */
  function HostWord(b: seq<byte>, big: bool): uint32
    requires |b| == 4
  {
    if big then DecodeUnsigned([b[3], b[2], b[1], b[0]]) else DecodeUnsigned(b)
  }

  function HostShort(b: seq<byte>, big: bool): (h: nat)
    requires |b| == 2
    ensures h < 0x1_0000
  {
    if big then b[0] as int * 0x100 + b[1] as int else b[1] as int * 0x100 + b[0] as int
  }

  function HostWordBytes(w: uint32, big: bool): (b: seq<byte>)
    ensures |b| == 4
  {
    var e := EncodeUnsigned(w);
    if big then [e[3], e[2], e[1], e[0]] else e
  }

  function HostShortBytes(h: nat, big: bool): (b: seq<byte>)
    requires h < 0x1_0000
    ensures |b| == 2
  {
    if big then [(h / 0x100) as byte, (h % 0x100) as byte] else [(h % 0x100) as byte, (h / 0x100) as byte]
  }

  /** On a big-endian host, the four bytes reversed by shifts and masks. */
  function WordToHost(w: uint32, big: bool): uint32 {
    if big then
      Or(Or(Or(And(ShiftRightUnsigned(w, 24), 0xff),
               And(ShiftRightUnsigned(w, 8), 0xff00)),
            And(ShiftLeft(w, 8), 0xff_0000)),
         And(ShiftLeft(w, 24), 0xff00_0000))
    else
      w
  }

  function ShortToHost(h: nat, big: bool): (r: nat)
    requires h < 0x1_0000
    ensures r < 0x1_0000
  {
    if big then
      ShortSwapped(h);
      Or(And(ShiftLeft(h, 8), 0xff00), And(ShiftRightUnsigned(h, 8), 0xff))
    else
      h
  }

  lemma ShortSwapped(h: nat)
    requires h < 0x1_0000
    ensures Or(And(ShiftLeft(h, 8), 0xff00), And(ShiftRightUnsigned(h, 8), 0xff)) == h % 0x100 * 0x100 + h / 0x100
  {
    Powers();
    hide Pow2, And, Or, ShiftLeft;
    ShiftedLeft(h, 8, 0x100, 0x100_0000);
    AndBand(ShiftLeft(h, 8), 8, 8, 0x100, 0x100);
    AndLow(ShiftRightUnsigned(h, 8), 8, 0x100);
    OrDisjoint(h % 0x100 * 0x100, h / 0x100, 8, 0x100);
  }

  predicate IsDigit(d: int) {
    0 <= d < 0x100
  }

  function Digits(d0: int, d1: int, d2: int, d3: int): int {
    d0 + d1 * 0x100 + d2 * 0x1_0000 + d3 * 0x100_0000
  }

  lemma Split8(q: int, r: int)
    requires 0 <= r < 0x100
    ensures (q * 0x100 + r) % 0x100 == r && (q * 0x100 + r) / 0x100 == q
  {
  }

  lemma Split16(q: int, r: int)
    requires 0 <= r < 0x1_0000
    ensures (q * 0x1_0000 + r) % 0x1_0000 == r && (q * 0x1_0000 + r) / 0x1_0000 == q
  {
  }

  lemma Split24(q: int, r: int)
    requires 0 <= r < 0x100_0000
    ensures (q * 0x100_0000 + r) % 0x100_0000 == r && (q * 0x100_0000 + r) / 0x100_0000 == q
  {
  }

  lemma LowDigits(d0: int, d1: int, d2: int, d3: int)
    requires IsDigit(d0) && IsDigit(d1) && IsDigit(d2) && IsDigit(d3)
    ensures var w := Digits(d0, d1, d2, d3); w % 0x100 == d0 && w % 0x1_0000 / 0x100 == d1
  {
    var w := Digits(d0, d1, d2, d3);
    Split8(d1 + d2 * 0x100 + d3 * 0x1_0000, d0);
    Split16(d2 + d3 * 0x100, d0 + d1 * 0x100);
    Split8(d1, d0);
    assert w % 0x1_0000 == d1 * 0x100 + d0;
  }

  lemma HighDigits(d0: int, d1: int, d2: int, d3: int)
    requires IsDigit(d0) && IsDigit(d1) && IsDigit(d2) && IsDigit(d3)
    ensures var w := Digits(d0, d1, d2, d3);
            w / 0x100_0000 == d3 && w / 0x1_0000 == d2 + d3 * 0x100 && w / 0x100 == d1 + d2 * 0x100 + d3 * 0x1_0000
  {
    Split8(d1 + d2 * 0x100 + d3 * 0x1_0000, d0);
    Split16(d2 + d3 * 0x100, d0 + d1 * 0x100);
    Split24(d3, d0 + d1 * 0x100 + d2 * 0x1_0000);
  }

  /** The bits that each shift and mask select. */
  lemma Selected(d0: int, d1: int, d2: int, d3: int)
    requires IsDigit(d0) && IsDigit(d1) && IsDigit(d2) && IsDigit(d3)
    ensures var w := Digits(d0, d1, d2, d3);
            && 0 <= w < 0x1_0000_0000
            && And(ShiftRightUnsigned(w, 24), 0xff) == d3 && And(ShiftRightUnsigned(w, 8), 0xff00) == d2 * 0x100
            && And(ShiftLeft(w, 8), 0xff_0000) == d1 * 0x1_0000 && And(ShiftLeft(w, 24), 0xff00_0000) == d0 * 0x100_0000
  {
    var w := Digits(d0, d1, d2, d3);
    Powers();
    hide Pow2, And, Or, ShiftLeft;
    LowDigits(d0, d1, d2, d3);
    HighDigits(d0, d1, d2, d3);
    AndLow(d3, 8, 0x100);
    AndBand(d1 + d2 * 0x100 + d3 * 0x1_0000, 8, 8, 0x100, 0x100);
    Split8(d2 + d3 * 0x100, d1);
    Split8(d3, d2);
    ShiftedLeft(w, 8, 0x100, 0x100_0000);
    Split24(d3, d0 + d1 * 0x100 + d2 * 0x1_0000);
    var left := d0 * 0x100 + d1 * 0x1_0000 + d2 * 0x100_0000;
    AndBand(left, 16, 8, 0x1_0000, 0x100);
    Split16(d1 + d2 * 0x100, d0 * 0x100);
    Split8(d2, d1);
    ShiftedLeft(w, 24, 0x100_0000, 0x100);
    AndHigh(d0 * 0x100_0000, 24, 0x100_0000);
    Split24(d0, 0);
  }

  /** The shifts and masks exchange the outer and the inner bytes. */
  lemma SwapsDigits(d0: int, d1: int, d2: int, d3: int)
    requires IsDigit(d0) && IsDigit(d1) && IsDigit(d2) && IsDigit(d3)
    ensures var w := Digits(d0, d1, d2, d3); 0 <= w < 0x1_0000_0000 && WordToHost(w, true) == Digits(d3, d2, d1, d0)
  {
    Selected(d0, d1, d2, d3);
    Powers();
    hide Pow2, And, Or, ShiftLeft, ShiftRightUnsigned;
    Split8(d2, 0);
    OrDisjoint(d2 * 0x100, d3, 8, 0x100);
    Split16(d1, 0);
    OrDisjoint(d1 * 0x1_0000, d3 + d2 * 0x100, 16, 0x1_0000);
    Split24(d0, 0);
    OrDisjoint(d0 * 0x100_0000, d3 + d2 * 0x100 + d1 * 0x1_0000, 24, 0x100_0000);
  }

  lemma EncodesDigits(d0: int, d1: int, d2: int, d3: int)
    requires IsDigit(d0) && IsDigit(d1) && IsDigit(d2) && IsDigit(d3)
    ensures 0 <= Digits(d0, d1, d2, d3) < 0x1_0000_0000
    ensures EncodeUnsigned(Digits(d0, d1, d2, d3)) == [d0 as byte, d1 as byte, d2 as byte, d3 as byte]
  {
    LowDigits(d0, d1, d2, d3);
    HighDigits(d0, d1, d2, d3);
    Split8(d2 + d3 * 0x100, d1);
    Split8(d3, d2);
  }

  /** On either host, a word or a short read through the conversion is little-endian. */
  lemma ReadsLittleEndian(b: seq<byte>, big: bool)
    ensures |b| == 4 ==> WordToHost(HostWord(b, big), big) == DecodeUnsigned(b)
    ensures |b| == 2 ==> ShortToHost(HostShort(b, big), big) == b[1] as int * 0x100 + b[0] as int
  {
    hide WordToHost, ShortToHost;
    if |b| == 4 {
      WordsRead(b, big);
    } else if |b| == 2 {
      ShortsRead(b[0], b[1], big);
      assert b == [b[0], b[1]];
    }
  }

  lemma WordsRead(b: seq<byte>, big: bool)
    requires |b| == 4
    ensures WordToHost(HostWord(b, big), big) == DecodeUnsigned(b)
  {
    SwapsDigits(b[3] as int, b[2] as int, b[1] as int, b[0] as int);
    hide And, Or, ShiftLeft, ShiftRightUnsigned;
    assert DecodeUnsigned(b) == Digits(b[0] as int, b[1] as int, b[2] as int, b[3] as int);
  }

  lemma ShortsRead(b0: byte, b1: byte, big: bool)
    ensures ShortToHost(HostShort([b0, b1], big), big) == b1 as int * 0x100 + b0 as int
  {
    var h := b0 as int * 0x100 + b1 as int;
    ShortSwapped(h);
    Split8(b0 as int, b1 as int);
    hide And, Or, ShiftLeft, ShiftRightUnsigned;
  }

  /** On either host, what is stored through the conversion is little-endian. */
  lemma WritesLittleEndian(w: uint32, h: nat, big: bool)
    requires h < 0x1_0000
    ensures HostWordBytes(WordToHost(w, big), big) == EncodeUnsigned(w)
    ensures HostShortBytes(ShortToHost(h, big), big) == [(h % 0x100) as byte, (h / 0x100) as byte]
  {
    ShortsLittleEndian(h, big);
    var e := EncodeUnsigned(w);
    UnsignedRoundTrip(w);
    var d0, d1, d2, d3 := e[0] as int, e[1] as int, e[2] as int, e[3] as int;
    assert w == Digits(d0, d1, d2, d3);
    SwapsDigits(d0, d1, d2, d3);
    EncodesDigits(d3, d2, d1, d0);
    hide EncodeUnsigned, WordToHost;
    assert e == [e[0], e[1], e[2], e[3]];
  }

  lemma ShortsLittleEndian(h: nat, big: bool)
    requires h < 0x1_0000
    ensures HostShortBytes(ShortToHost(h, big), big) == [(h % 0x100) as byte, (h / 0x100) as byte]
  {
    Split8(h % 0x100, h / 0x100);
    ShortSwapped(h);
    hide And, Or, ShiftLeft, ShiftRightUnsigned;
  }

  // -------------------------------------------------------------- reading and writing

  /** The host's byte order: either one. */
  const HostIsBigEndian: bool

  function Load(bytes: seq<byte>, p: nat, size: int): uint32
    requires IsSize(size) && p + size <= |bytes|
  {
    if size == 1 then
      var b := bytes[p] as int;
      if b >= 0x80 then b + 0xffff_ff00 else b
    else if size == 2 then
      ShortToHost(HostShort(bytes[p..p + 2], HostIsBigEndian), HostIsBigEndian)
    else
      WordToHost(HostWord(bytes[p..p + 4], HostIsBigEndian), HostIsBigEndian)
  }

  function Encoded(size: int, v: uint32): (b: seq<byte>)
    requires IsSize(size)
    ensures |b| == size
  {
    if size == 1 then [(v % 0x100) as byte]
    else if size == 2 then HostShortBytes(ShortToHost(v % 0x1_0000, HostIsBigEndian), HostIsBigEndian)
    else HostWordBytes(WordToHost(v, HostIsBigEndian), HostIsBigEndian)
  }

  function Store(bytes: seq<byte>, p: nat, size: int, v: uint32): (b: seq<byte>)
    requires IsSize(size) && p + size <= |bytes|
    ensures |b| == |bytes|
  {
    bytes[..p] + Encoded(size, v) + bytes[p + size..]
  }

  function Read(s: State, addr: uint32, size: int): (Result<uint32>, State)
    requires IsSize(size) && |s.bytes| == MemorySize
  {
    match Translate(s.map_, addr, size, false)
    case Err(e) => (Err(e), s)
    case Ok(p) =>
      StaysInPage(s.map_, addr, size, false);
      (Ok(Load(s.bytes, p, size)), s.(map_ := Touched(s.map_, addr, false)))
  }

  function Write(s: State, addr: uint32, size: int, v: uint32): Result<State>
    requires IsSize(size) && |s.bytes| == MemorySize
  {
    match Translate(s.map_, addr, size, true)
    case Err(e) => Err(e)
    case Ok(p) =>
      StaysInPage(s.map_, addr, size, true);
      Ok(State(Store(s.bytes, p, size, v), Touched(s.map_, addr, true)))
  }

  // -------------------------------------------------------------- virtual bytes

  /** The byte a program sees at a virtual address. */
  ghost predicate Mapped(m: Mapping, addr: int) {
    0 <= addr < 0x1_0000_0000 && Translate(m, addr, 1, false).Ok?
  }

  ghost function VByte(s: State, addr: int): byte
    requires |s.bytes| == MemorySize && Mapped(s.map_, addr)
  {
    s.bytes[Phys(s.map_, addr)]
  }

  /** The physical address of a mapped byte. */
  ghost function Phys(m: Mapping, addr: int): (p: nat)
    requires Mapped(m, addr)
    ensures p < MemorySize
  {
    StaysInPage(m, addr, 1, false);
    Translate(m, addr, 1, false).value
  }

  /** The bytes of an aligned access are mapped one after another. */
  lemma AccessMapped(m: Mapping, addr: uint32, size: int, writing: bool)
    requires IsSize(size) && Translate(m, addr, size, writing).Ok?
    ensures addr % size == 0
    ensures forall a | addr <= a < addr + size ::
      Mapped(m, a) && Phys(m, a) == Translate(m, addr, size, writing).value + a - addr
  {
    hide Locate;
    forall a | addr <= a < addr + size
      ensures Mapped(m, a) && Phys(m, a) == Translate(m, addr, size, writing).value + a - addr
    {
      SamePage(addr, size, a - addr);
    }
  }

  lemma SamePage(addr: uint32, size: int, k: int)
    requires IsSize(size) && addr % size == 0 && 0 <= k < size
    ensures addr + k < 0x1_0000_0000 && Page(addr + k) == Page(addr) && (addr + k) % PageSize == addr % PageSize + k
  {
  }

  /** A word read is the little-endian combination of its four virtual bytes. */
  lemma WordRead(s: State, addr: uint32)
    requires |s.bytes| == MemorySize && Translate(s.map_, addr, 4, false).Ok?
    ensures forall a | addr <= a < addr + 4 :: Mapped(s.map_, a)
    ensures Read(s, addr, 4).0 ==
            Ok(DecodeUnsigned([VByte(s, addr), VByte(s, addr + 1), VByte(s, addr + 2), VByte(s, addr + 3)]))
  {
    AccessMapped(s.map_, addr, 4, false);
    StaysInPage(s.map_, addr, 4, false);
    hide Translate, Mapped, Touched, WordToHost, DecodeUnsigned, HostWord;
    var p := Translate(s.map_, addr, 4, false).value;
    ReadsLittleEndian(s.bytes[p..p + 4], HostIsBigEndian);
    assert s.bytes[p..p + 4] == [VByte(s, addr), VByte(s, addr + 1), VByte(s, addr + 2), VByte(s, addr + 3)];
  }

  /** Different virtual addresses are different physical bytes. */
  ghost predicate Injective(m: Mapping) {
    forall a, b | Mapped(m, a) && Mapped(m, b) && Phys(m, a) == Phys(m, b) :: a == b
  }

  lemma SameMapped(m: Mapping, n: Mapping)
    requires SameMap(m, n)
    ensures forall a :: Mapped(n, a) <==> Mapped(m, a)
    ensures forall a | Mapped(m, a) :: Phys(n, a) == Phys(m, a)
  {
    hide Translate, SameMap;
    forall a ensures (Mapped(n, a) <==> Mapped(m, a)) && (Mapped(m, a) ==> Phys(n, a) == Phys(m, a)) {
      if 0 <= a < 0x1_0000_0000 {
        SameTranslation(m, n, a, 1, false);
      }
    }
  }

  /** A byte read is the virtual byte, sign-extended; a short read its two bytes, zero-extended. */
  lemma ByteRead(s: State, addr: uint32)
    requires |s.bytes| == MemorySize && Translate(s.map_, addr, 1, false).Ok?
    ensures Mapped(s.map_, addr)
    ensures var b := VByte(s, addr) as int;
            Read(s, addr, 1).0 == Ok(if b < 0x80 then b else b + 0xffff_ff00)
  {
    AccessMapped(s.map_, addr, 1, false);
    hide Translate, Touched;
  }

  lemma ShortRead(s: State, addr: uint32)
    requires |s.bytes| == MemorySize && Translate(s.map_, addr, 2, false).Ok?
    ensures Mapped(s.map_, addr) && Mapped(s.map_, addr + 1)
    ensures Read(s, addr, 2).0 == Ok(VByte(s, addr) as int + VByte(s, addr + 1) as int * 0x100)
  {
    AccessMapped(s.map_, addr, 2, false);
    StaysInPage(s.map_, addr, 2, false);
    hide Translate, Mapped, Touched, ShortToHost, HostShort;
    var p := Translate(s.map_, addr, 2, false).value;
    ReadsLittleEndian(s.bytes[p..p + 2], HostIsBigEndian);
  }

  /** The bytes stored are the low bytes of the value, least significant first. */
  lemma EncodedBytes(size: int, v: uint32)
    requires IsSize(size)
    ensures Encoded(size, v) == EncodeUnsigned(v)[..size]
  {
    WritesLittleEndian(v, v % 0x1_0000, HostIsBigEndian);
    ShortOf(v);
    hide ShortToHost, WordToHost, HostWordBytes, HostShortBytes;
  }

  lemma ShortOf(v: uint32)
    ensures v % 0x1_0000 % 0x100 == v % 0x100 && v % 0x1_0000 / 0x100 == v / 0x100 % 0x100
    ensures EncodeUnsigned(v)[0] as int == v % 0x100 && EncodeUnsigned(v)[1] as int == v / 0x100 % 0x100
  {
  }

  /** A write changes exactly the virtual bytes it is for, to the little-endian bytes of the
      value, when no page frame is mapped twice. */
  lemma Written(s: State, addr: uint32, size: int, v: uint32)
    requires |s.bytes| == MemorySize && Injective(s.map_) && IsSize(size) && Write(s, addr, size, v).Ok?
    ensures var s' := Write(s, addr, size, v).value;
            && |s'.bytes| == MemorySize && SameMap(s.map_, s'.map_)
            && (forall a :: Mapped(s'.map_, a) <==> Mapped(s.map_, a))
            && (forall a | addr <= a < addr + size :: Mapped(s.map_, a))
            && (forall a | Mapped(s'.map_, a) :: VByte(s', a) ==
                 if addr <= a < addr + size then EncodeUnsigned(v)[a - addr] else VByte(s, a))
  {
    hide Translate, Mapped, Phys, SameMap, Touched, EncodeUnsigned, Encoded;
    var s' := Write(s, addr, size, v).value;
    AccessMapped(s.map_, addr, size, true);
    StaysInPage(s.map_, addr, size, true);
    TouchedSame(s.map_, addr, true);
    SameMapped(s.map_, s'.map_);
    EncodedBytes(size, v);
    var p := Translate(s.map_, addr, size, true).value;
    assert s'.bytes == s.bytes[..p] + EncodeUnsigned(v)[..size] + s.bytes[p + size..];
    forall a | Mapped(s'.map_, a)
      ensures VByte(s', a) == if addr <= a < addr + size then EncodeUnsigned(v)[a - addr] else VByte(s, a)
    {
      var q := Phys(s.map_, a);
      if p <= q < p + size {
        assert Phys(s.map_, addr + (q - p)) == q;
      }
    }
  }
}
