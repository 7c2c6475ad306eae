/** Unaligned words: LWL and LWR load one between them, SWL and SWR store one. */
module Unaligned {
  import opened Options
  import opened Bytes
  import opened Words
  import opened Multiply
  import opened Mips
  import opened Cpu
  import Mem = Memory

  // -------------------------------------------------------------- bytes of words

  function ByteOf(w: word, k: nat): byte
    requires k < 4
  {
    EncodeUnsigned(w)[k]
  }

  ghost predicate HasBytes(w: word, d0: int, d1: int, d2: int, d3: int) {
    && Mem.IsDigit(d0) && Mem.IsDigit(d1) && Mem.IsDigit(d2) && Mem.IsDigit(d3)
    && w == Mem.Digits(d0, d1, d2, d3)
  }

  lemma BytesOf(w: word)
    ensures HasBytes(w, ByteOf(w, 0) as int, ByteOf(w, 1) as int, ByteOf(w, 2) as int, ByteOf(w, 3) as int)
  {
    UnsignedRoundTrip(w);
  }

  lemma BytesAre(w: word, d0: int, d1: int, d2: int, d3: int)
    requires HasBytes(w, d0, d1, d2, d3)
    ensures ByteOf(w, 0) as int == d0 && ByteOf(w, 1) as int == d1
    ensures ByteOf(w, 2) as int == d2 && ByteOf(w, 3) as int == d3
  {
    Mem.EncodesDigits(d0, d1, d2, d3);
  }

  /** The low and the high parts of a word, by bytes. */
  lemma Parts(d0: int, d1: int, d2: int, d3: int)
    requires Mem.IsDigit(d0) && Mem.IsDigit(d1) && Mem.IsDigit(d2) && Mem.IsDigit(d3)
    ensures var w := Mem.Digits(d0, d1, d2, d3);
            && w % 0x100 == d0 && w % 0x1_0000 == d0 + d1 * 0x100
            && w % 0x100_0000 == d0 + d1 * 0x100 + d2 * 0x1_0000
            && w / 0x100_0000 == d3 && w / 0x1_0000 == d2 + d3 * 0x100
            && w / 0x100 == d1 + d2 * 0x100 + d3 * 0x1_0000
  {
    Mem.Split8(d1 + d2 * 0x100 + d3 * 0x1_0000, d0);
    Mem.Split16(d2 + d3 * 0x100, d0 + d1 * 0x100);
    Mem.Split24(d3, d0 + d1 * 0x100 + d2 * 0x1_0000);
  }

  /** LWL fills the register from the top with the bytes up to the address. */
  lemma LeftMergedBytes(kept: word, value: word, low: nat, k: nat)
    requires low < 4 && k < 4
    ensures ByteOf(LeftMerged(kept, value, low), k) == if k >= 3 - low then ByteOf(value, k - (3 - low)) else ByteOf(kept, k)
  {
    BytesOf(kept);
    BytesOf(value);
    hide EncodeUnsigned;
    var o0, o1, o2, o3 := ByteOf(kept, 0) as int, ByteOf(kept, 1) as int, ByteOf(kept, 2) as int, ByteOf(kept, 3) as int;
    var v0, v1, v2, v3 := ByteOf(value, 0) as int, ByteOf(value, 1) as int, ByteOf(value, 2) as int, ByteOf(value, 3) as int;
    Parts(o0, o1, o2, o3);
    Parts(v0, v1, v2, v3);
    hide ByteOf;
    var w := LeftMerged(kept, value, low);
    if low == 0 {
      BytesAre(w, o0, o1, o2, v0);
    } else if low == 1 {
      BytesAre(w, o0, o1, v0, v1);
    } else if low == 2 {
      BytesAre(w, o0, v0, v1, v2);
    }
  }

  /** LWR fills it from the bottom with the bytes from the address on. */
  lemma RightMergedBytes(kept: word, value: word, low: nat, k: nat)
    requires low < 4 && k < 4
    ensures ByteOf(RightMerged(kept, value, low), k) == if k + low < 4 then ByteOf(value, k + low) else ByteOf(kept, k)
  {
    BytesOf(kept);
    BytesOf(value);
    hide EncodeUnsigned;
    var o0, o1, o2, o3 := ByteOf(kept, 0) as int, ByteOf(kept, 1) as int, ByteOf(kept, 2) as int, ByteOf(kept, 3) as int;
    var v0, v1, v2, v3 := ByteOf(value, 0) as int, ByteOf(value, 1) as int, ByteOf(value, 2) as int, ByteOf(value, 3) as int;
    Parts(o0, o1, o2, o3);
    Parts(v0, v1, v2, v3);
    hide ByteOf;
    var w := RightMerged(kept, value, low);
    if low == 1 {
      BytesAre(w, v1, v2, v3, o3);
    } else if low == 2 {
      BytesAre(w, v2, v3, o2, o3);
    } else if low == 3 {
      BytesAre(w, v3, o1, o2, o3);
    }
  }

  /** SWL puts the register's top bytes at the addresses up to its own. */
  lemma LeftStoredBytes(value: word, reg: word, low: nat, k: nat)
    requires low < 4 && k < 4
    ensures ByteOf(LeftStored(value, reg, low), k) == if k <= low then ByteOf(reg, k + (3 - low)) else ByteOf(value, k)
  {
    BytesOf(reg);
    BytesOf(value);
    hide EncodeUnsigned;
    var r0, r1, r2, r3 := ByteOf(reg, 0) as int, ByteOf(reg, 1) as int, ByteOf(reg, 2) as int, ByteOf(reg, 3) as int;
    var v0, v1, v2, v3 := ByteOf(value, 0) as int, ByteOf(value, 1) as int, ByteOf(value, 2) as int, ByteOf(value, 3) as int;
    Parts(r0, r1, r2, r3);
    Parts(v0, v1, v2, v3);
    hide ByteOf;
    var w := LeftStored(value, reg, low);
    if low == 0 {
      BytesAre(w, r3, v1, v2, v3);
    } else if low == 1 {
      BytesAre(w, r2, r3, v2, v3);
    } else if low == 2 {
      BytesAre(w, r1, r2, r3, v3);
    }
  }

  /** SWR puts its bottom bytes at the addresses from its own on. */
  lemma RightStoredBytes(value: word, reg: word, low: nat, k: nat)
    requires low < 4 && k < 4
    ensures ByteOf(RightStored(value, reg, low), k) == if k >= low then ByteOf(reg, k - low) else ByteOf(value, k)
  {
    BytesOf(reg);
    BytesOf(value);
    hide EncodeUnsigned;
    var r0, r1, r2, r3 := ByteOf(reg, 0) as int, ByteOf(reg, 1) as int, ByteOf(reg, 2) as int, ByteOf(reg, 3) as int;
    var v0, v1, v2, v3 := ByteOf(value, 0) as int, ByteOf(value, 1) as int, ByteOf(value, 2) as int, ByteOf(value, 3) as int;
    Parts(r0, r1, r2, r3);
    Parts(v0, v1, v2, v3);
    hide ByteOf;
    var w := RightStored(value, reg, low);
    if low == 1 {
      BytesAre(w, v0, r0, r1, r2);
    } else if low == 2 {
      BytesAre(w, v0, v1, r0, r1);
    } else if low == 3 {
      BytesAre(w, v0, v1, v2, r0);
    }
  }

  lemma SameWord(v: word, w: word)
    requires forall k: nat | k < 4 :: ByteOf(v, k) == ByteOf(w, k)
    ensures v == w
  {
    BytesOf(v);
    BytesOf(w);
    hide EncodeUnsigned;
    assert ByteOf(v, 0) == ByteOf(w, 0) && ByteOf(v, 1) == ByteOf(w, 1);
    assert ByteOf(v, 2) == ByteOf(w, 2) && ByteOf(v, 3) == ByteOf(w, 3);
  }

  // -------------------------------------------------------------- memory

  /** Memory unchanged but for use and dirty bits. */
  ghost predicate SameMemory(m: Mem.State, n: Mem.State) {
    n.bytes == m.bytes && Mem.SameMap(m.map_, n.map_)
  }

  lemma ReadKeepsMemory(m: Mem.State, addr: word)
    requires |m.bytes| == Mem.MemorySize
    ensures SameMemory(m, Mem.Read(m, addr, 4).1)
  {
    Mem.TouchedSame(m.map_, addr, false);
  }

  lemma SameVBytes(m: Mem.State, n: Mem.State)
    requires |m.bytes| == Mem.MemorySize && SameMemory(m, n)
    ensures forall a :: Mem.Mapped(n.map_, a) <==> Mem.Mapped(m.map_, a)
    ensures forall a | Mem.Mapped(m.map_, a) :: Mem.VByte(n, a) == Mem.VByte(m, a)
  {
    Mem.SameMapped(m.map_, n.map_);
  }

  /** The k-th byte of a word read is the virtual byte at its k-th address. */
  lemma WordByte(m: Mem.State, addr: word, k: nat)
    requires |m.bytes| == Mem.MemorySize && Mem.Translate(m.map_, addr, 4, false).Ok? && k < 4
    ensures Mem.Read(m, addr, 4).0.Ok? && Mem.Mapped(m.map_, addr + k)
    ensures ByteOf(Mem.Read(m, addr, 4).0.value, k) == Mem.VByte(m, addr + k)
  {
    Mem.WordRead(m, addr);
    hide Mem.Read, Mem.VByte, Mem.Translate, Mem.Mapped;
    var b0, b1, b2, b3 := Mem.VByte(m, addr), Mem.VByte(m, addr + 1), Mem.VByte(m, addr + 2), Mem.VByte(m, addr + 3);
    var v := Mem.Read(m, addr, 4).0.value;
    assert HasBytes(v, b0 as int, b1 as int, b2 as int, b3 as int);
    BytesAre(v, b0 as int, b1 as int, b2 as int, b3 as int);
  }

  function Aligned(addr: word): word {
    addr - addr % 4
  }

  function Address(s: State, i: Instr): word
    requires Boundary(s) && GoodInstr(i)
  {
    Add(s.regs[i.rs], i.extra)
  }

  // -------------------------------------------------------------- one partial load

  /** A partial load leaves memory alone and a load pending whose bytes are those of the word
      in memory on the addressed side and those of the register on the other. */
  lemma PartLoaded(s: State, h: Handler, i: Instr)
    requires Boundary(s) && Fetch(s) == Some(i) && Merges(i.op)
    requires Mem.Translate(s.mem.map_, Aligned(Address(s, i)), 4, false).Ok?
    ensures var t, v := Step(s, h), Mem.Read(s.mem, Aligned(Address(s, i)), 4).0;
            && Boundary(t) && SameMemory(s.mem, t.mem) && v.Ok?
            && t.regs[LoadReg] == i.rt
            && t.regs[LoadValueReg] == Part(i, Merge(s.regs, i.rt), v.value, Address(s, i) % 4)
            && forall r | 0 < r < 32 && r != s.regs[LoadReg] :: t.regs[r] == s.regs[r]
  {
    var addr := Address(s, i);
    var m := Mem.Read(s.mem, s.regs[PCReg], 4).1;
    ReadKeepsMemory(s.mem, s.regs[PCReg]);
    ReadKeepsMemory(m, Aligned(addr));
    SameRead(s.mem, m, Aligned(addr));
    Mem.SameMapTransitive(s.mem.map_, m.map_, Mem.Read(m, Aligned(addr), 4).1.map_);
    var e := PartEffect(s.regs, i, m);
    hide Execute, Mem.Read, Mem.Translate, LeftMerged, RightMerged, Mem.SameMap, Decode;
  }

  lemma SameRead(m: Mem.State, n: Mem.State, addr: word)
    requires |m.bytes| == Mem.MemorySize && SameMemory(m, n)
    ensures Mem.Read(n, addr, 4).0 == Mem.Read(m, addr, 4).0
  {
    Mem.SameTranslation(m.map_, n.map_, addr, 4, false);
  }

  function Part(i: Instr, merge: word, value: word, low: nat): word
    requires low < 4
  {
    if i.op == LWL then LeftMerged(merge, value, low) else RightMerged(merge, value, low)
  }

  lemma PartEffect(regs: seq<word>, i: Instr, m: Mem.State) returns (e: Effect)
    requires |regs| == NumTotalRegs && |m.bytes| == Mem.MemorySize && GoodInstr(i) && Merges(i.op)
    requires Mem.Read(m, Aligned(Add(regs[i.rs], i.extra)), 4).0.Ok?
    ensures e == EffectOf(i, regs, m)
    ensures var addr := Add(regs[i.rs], i.extra);
            var (v, m') := Mem.Read(m, Aligned(addr), 4);
            e.Done? && e.dest.None? && e.mem == m' && e.loadReg == i.rt && e.hi == regs[HiReg] && e.lo == regs[LoReg]
            && e.loadValue == Part(i, Merge(regs, i.rt), v.value, addr % 4)
  {
    hide Mem.Read, LeftMerged, RightMerged, Add;
    hide Sub, And, Or, Xor, Nor, ShiftLeft, ShiftRight, Quotient, Remainder, Product, Pow2, Signed, Sign, Set, Branch, HiLo;
    e := EffectOf(i, regs, m);
  }

  // -------------------------------------------------------------- the pair of loads

  /** Where byte k of the word at A lies: in the word around A, or in the word around A + 3. */
  lemma BytePlace(addr: word, k: nat)
    requires k < 4
    ensures var low, last := addr % 4, Add(addr, 3);
            if k + low < 4 then Add(addr, k) == Aligned(addr) + (k + low)
            else k >= 3 - last % 4 && Add(addr, k) == Aligned(last) + (k - (3 - last % 4))
  {
  }

  /** A pair of partial loads at one unaligned address into one register: the instructions i
      and j, with or without an interrupt between them. */
  ghost predicate Pair(s: State, h: Handler, i: Instr, j: Instr, interrupt: bool) {
    && Boundary(s) && Fetch(s) == Some(i)
    && GoodInstr(i) && GoodInstr(j) && j.rs == i.rs && j.rt == i.rt
    && (i.rs == 0 || s.regs[LoadReg] != i.rs)
    && Address(s, i) == Add(Address(s, j), 3)
    && Boundary(Step(s, h))
    && Fetch(Between(s, h, interrupt)) == Some(j)
  }

  ghost function Between(s: State, h: Handler, interrupt: bool): (t: State)
    requires Boundary(s) && Boundary(Step(s, h))
    ensures Boundary(t)
  {
    var t := Step(s, h);
    FlushBoundary(t);
    if interrupt then Flush(t) else t
  }

  /** LWL at A + 3 and LWR at A deliver the little-endian word at A to A + 3. */
  lemma UnalignedLoad(s: State, h: Handler, i: Instr, j: Instr, interrupt: bool, k: nat)
    requires Pair(s, h, i, j, interrupt) && i.op == LWL && j.op == LWR && i.rt != 0 && i.rs != i.rt && k < 4
    requires var a := Address(s, j);
             && Mem.Translate(s.mem.map_, Aligned(a), 4, false).Ok?
             && Mem.Translate(s.mem.map_, Aligned(Add(a, 3)), 4, false).Ok?
    ensures var u := Step(Between(s, h, interrupt), h);
            && Boundary(u) && SameMemory(s.mem, u.mem)
            && Mem.Mapped(s.mem.map_, Add(Address(s, j), k))
            && ByteOf(Flush(u).regs[i.rt], k) == Mem.VByte(s.mem, Add(Address(s, j), k))
  {
    var a := Address(s, j);
    var last := Add(a, 3);
    var t, t' := Step(s, h), Between(s, h, interrupt);
    PartLoaded(s, h, i);
    assert t.regs[i.rs] == s.regs[i.rs];
    BetweenKeeps(s, h, i, interrupt);
    hide Step, Between, Boundary, Fetch, Mem.Read, Mem.Translate, Mem.Mapped, Mem.VByte, LeftMerged, RightMerged, Mem.SameMap, ByteOf, Add, Flush;
    Mem.SameTranslation(s.mem.map_, t'.mem.map_, Aligned(a), 4, false);
    SameRead(s.mem, t'.mem, Aligned(a));
    assert Address(t', j) == a;
    PartLoaded(t', h, j);
    var u := Step(t', h);
    Mem.SameMapTransitive(s.mem.map_, t'.mem.map_, u.mem.map_);
    FlushBoundary(u);
    MergedByte(s.mem, a, Merge(s.regs, i.rt), k);
  }

  lemma MergedByte(m: Mem.State, a: word, kept: word, k: nat)
    requires |m.bytes| == Mem.MemorySize && k < 4
    requires Mem.Translate(m.map_, Aligned(a), 4, false).Ok?
    requires Mem.Translate(m.map_, Aligned(Add(a, 3)), 4, false).Ok?
    ensures Mem.Mapped(m.map_, Add(a, k)) && Mem.Read(m, Aligned(a), 4).0.Ok? && Mem.Read(m, Aligned(Add(a, 3)), 4).0.Ok?
    ensures var left := LeftMerged(kept, Mem.Read(m, Aligned(Add(a, 3)), 4).0.value, Add(a, 3) % 4);
            ByteOf(RightMerged(left, Mem.Read(m, Aligned(a), 4).0.value, a % 4), k) == Mem.VByte(m, Add(a, k))
  {
    hide Mem.Read, Mem.Translate, Mem.Mapped, Mem.VByte, LeftMerged, RightMerged, ByteOf, Add;
    var last := Add(a, 3);
    WordByte(m, Aligned(a), 0);
    WordByte(m, Aligned(last), 0);
    var v, v' := Mem.Read(m, Aligned(a), 4).0.value, Mem.Read(m, Aligned(last), 4).0.value;
    BytePlace(a, k);
    RightMergedBytes(LeftMerged(kept, v', last % 4), v, a % 4, k);
    if k + a % 4 < 4 {
      WordByte(m, Aligned(a), k + a % 4);
    } else {
      LeftMergedBytes(kept, v', last % 4, k);
      WordByte(m, Aligned(last), k - (3 - last % 4));
    }
  }

  /** An interrupt between the two changes neither the base nor what LWR merges with. */
  lemma BetweenKeeps(s: State, h: Handler, i: Instr, interrupt: bool)
    requires Boundary(s) && Boundary(Step(s, h)) && Step(s, h).regs[LoadReg] == i.rt && GoodInstr(i)
    requires i.rt != 0 && i.rs != i.rt
    ensures var t, t' := Step(s, h), Between(s, h, interrupt);
            && t'.mem == t.mem && t'.regs[i.rs] == t.regs[i.rs]
            && Merge(t'.regs, i.rt) == t.regs[LoadValueReg]
  {
    hide Step;
    FlushBoundary(Step(s, h));
  }

  // -------------------------------------------------------------- the pair of stores

  function StoredPart(i: Instr, value: word, reg: word, low: nat): word
    requires low < 4
  {
    if i.op == SWL then LeftStored(value, reg, low) else RightStored(value, reg, low)
  }

  predicate StoresPart(op: Op) {
    op == SWL || op == SWR
  }

  lemma StoreEffect(regs: seq<word>, i: Instr, m: Mem.State) returns (e: Effect)
    requires |regs| == NumTotalRegs && |m.bytes| == Mem.MemorySize && GoodInstr(i) && StoresPart(i.op)
    requires Mem.Translate(m.map_, Aligned(Add(regs[i.rs], i.extra)), 4, true).Ok?
    ensures e == EffectOf(i, regs, m)
    ensures var at := Aligned(Add(regs[i.rs], i.extra));
            var (v, m') := Mem.Read(m, at, 4);
            && v.Ok? && e.Done? && e.dest.None? && e.loadReg == 0 && e.hi == regs[HiReg] && e.lo == regs[LoReg]
            && Mem.Write(m', at, 4, StoredPart(i, v.value, regs[i.rt], Add(regs[i.rs], i.extra) % 4)) == Mem.Ok(e.mem)
  {
    hide LeftStored, RightStored, Add, Mem.Translate, Mem.Touched, Mem.SameMap, Mem.Read, Mem.Write;
    var at := Aligned(Add(regs[i.rs], i.extra));
    CanStore(m, at);
    hide Sub, And, Or, Xor, Nor, ShiftLeft, ShiftRight, Quotient, Remainder, Product, Pow2, Signed, Sign, Set, Branch, HiLo;
    e := EffectOf(i, regs, m);
  }

  /** A word that may be written may be read, and may still be written after that. */
  lemma CanStore(m: Mem.State, addr: word)
    requires |m.bytes| == Mem.MemorySize && Mem.Translate(m.map_, addr, 4, true).Ok?
    ensures Mem.Translate(m.map_, addr, 4, false).Ok?
    ensures var (v, m') := Mem.Read(m, addr, 4);
            v.Ok? && |m'.bytes| == Mem.MemorySize && forall w: word :: Mem.Write(m', addr, 4, w).Ok?
  {
    ReadKeepsMemory(m, addr);
    Mem.SameTranslation(m.map_, Mem.Read(m, addr, 4).1.map_, addr, 4, true);
    hide Mem.Locate, Mem.Touched;
  }

  /** What a partial store does to each virtual byte: those on the addressed side of its word
      become the register's, all others stay. */
  ghost function NewByte(i: Instr, reg: word, addr: word, a: int, was: byte): byte {
    if i.op == SWL && Aligned(addr) <= a <= addr then ByteOf(reg, a - Aligned(addr) + (3 - addr % 4))
    else if i.op == SWR && addr <= a < Aligned(addr) + 4 then ByteOf(reg, a - addr)
    else was
  }

  lemma PartStored(s: State, h: Handler, i: Instr)
    requires Boundary(s) && Fetch(s) == Some(i) && StoresPart(i.op) && Mem.Injective(s.mem.map_)
    requires Mem.Translate(s.mem.map_, Aligned(Address(s, i)), 4, true).Ok?
    ensures var t := Step(s, h);
            && Boundary(t) && Mem.SameMap(s.mem.map_, t.mem.map_)
            && (forall a :: Mem.Mapped(t.mem.map_, a) <==> Mem.Mapped(s.mem.map_, a))
            && (forall a | Mem.Mapped(s.mem.map_, a) ::
                  Mem.VByte(t.mem, a) == NewByte(i, s.regs[i.rt], Address(s, i), a, Mem.VByte(s.mem, a)))
            && (forall r | 0 < r < 32 && r != s.regs[LoadReg] :: t.regs[r] == s.regs[r])
            && t.regs[LoadReg] == 0
  {
    var m := Mem.Read(s.mem, s.regs[PCReg], 4).1;
    ReadKeepsMemory(s.mem, s.regs[PCReg]);
    Mem.SameTranslation(s.mem.map_, m.map_, Aligned(Address(s, i)), 4, true);
    var e := StoreEffect(s.regs, i, m);
    PartStoredBytes(s.mem, m, i, s.regs[i.rt], Address(s, i), e.mem);
    EffectBounds(i, s.regs, m);
    assert Step(s, h) == State(Retire(s.regs, e), e.mem);
    hide Step, EffectOf, Mem.Read, Mem.Write, Mem.Translate, Mem.Mapped, Mem.VByte, NewByte, Mem.SameMap, Decode, Add;
  }

  lemma PartStoredBytes(m0: Mem.State, m: Mem.State, i: Instr, reg: word, addr: word, n: Mem.State)
    requires |m0.bytes| == Mem.MemorySize && SameMemory(m0, m) && StoresPart(i.op) && Mem.Injective(m0.map_)
    requires Mem.Translate(m0.map_, Aligned(addr), 4, false).Ok? && Mem.Read(m, Aligned(addr), 4).0.Ok?
    requires var (v, m') := Mem.Read(m, Aligned(addr), 4);
             Mem.Write(m', Aligned(addr), 4, StoredPart(i, v.value, reg, addr % 4)) == Mem.Ok(n)
    ensures |n.bytes| == Mem.MemorySize && Mem.SameMap(m0.map_, n.map_)
    ensures forall a :: Mem.Mapped(n.map_, a) <==> Mem.Mapped(m0.map_, a)
    ensures forall a | Mem.Mapped(m0.map_, a) :: Mem.VByte(n, a) == NewByte(i, reg, addr, a, Mem.VByte(m0, a))
  {
    hide Mem.Read, Mem.Write, Mem.Translate, Mem.Mapped, Mem.VByte, Mem.SameMap, LeftStored, RightStored, StoredPart, NewByte, ByteOf, EncodeUnsigned;
    var at := Aligned(addr);
    var (v, m') := Mem.Read(m, at, 4);
    ReadKeepsMemory(m, at);
    Mem.SameMapTransitive(m0.map_, m.map_, m'.map_);
    SameRead(m0, m, at);
    SameVBytes(m0, m');
    Mem.SameMapped(m0.map_, m'.map_);
    var w := StoredPart(i, v.value, reg, addr % 4);
    Mem.Written(m', at, 4, w);
    Mem.SameMapTransitive(m0.map_, m'.map_, n.map_);
    forall a | Mem.Mapped(m0.map_, a) ensures Mem.VByte(n, a) == NewByte(i, reg, addr, a, Mem.VByte(m0, a)) {
      var base: int := at;
      if base <= a < base + 4 {
        WordByte(m0, at, a - base);
        StoredByte(i, v.value, reg, addr, a - base);
        EncodedByte(w, a - base);
      } else {
        OutsideWord(i, reg, addr, a, Mem.VByte(m0, a));
      }
    }
  }

  lemma StoredByte(i: Instr, v: word, reg: word, addr: word, k: nat)
    requires StoresPart(i.op) && k < 4
    ensures ByteOf(StoredPart(i, v, reg, addr % 4), k) == NewByte(i, reg, addr, Aligned(addr) + k, ByteOf(v, k))
  {
    hide LeftStored, RightStored, ByteOf;
    LeftStoredBytes(v, reg, addr % 4, k);
    RightStoredBytes(v, reg, addr % 4, k);
  }

  lemma OutsideWord(i: Instr, reg: word, addr: word, a: int, was: byte)
    requires a < Aligned(addr) || a >= Aligned(addr) + 4
    ensures NewByte(i, reg, addr, a, was) == was
  {
    hide ByteOf;
  }

  lemma EncodedByte(w: word, k: nat)
    requires k < 4
    ensures EncodeUnsigned(w)[k] == ByteOf(w, k)
  {
  }

  /** How far a lies past addr, wrapping at the end of the address space. */
  function Distance(addr: word, a: int): nat {
    (a - addr) % Word
  }

  lemma TwoStores(i: Instr, j: Instr, reg: word, addr: word, a: int, was: byte)
    requires i.op == SWL && j.op == SWR && 0 <= a < Word
    ensures NewByte(j, reg, addr, a, NewByte(i, reg, Add(addr, 3), a, was)) ==
            if Distance(addr, a) < 4 then ByteOf(reg, Distance(addr, a)) else was
  {
    hide ByteOf;
    LeftPlace(addr, a);
    RightPlace(addr, a);
    hide Add, Distance, Aligned;
  }

  /** Where the bytes written by SWL at addr + 3 lie, as offsets from addr. */
  lemma LeftPlace(addr: word, a: int)
    requires 0 <= a < Word
    ensures var last := Add(addr, 3);
            Aligned(last) <= a <= last ==>
              Distance(addr, a) < 4 && Distance(addr, a) == a - Aligned(last) + (3 - last % 4)
    ensures var last := Add(addr, 3);
            Distance(addr, a) < 4 && !(addr <= a < Aligned(addr) + 4) ==> Aligned(last) <= a <= last
  {
    LastWord(addr);
    var last, low := Add(addr, 3), addr % 4;
    hide Add;
    if low == 0 {
      assert Aligned(last) == addr;
    } else if addr + 3 < Word {
      assert Aligned(last) == addr - low + 4;
    } else {
      assert Aligned(last) == 0 && addr == Word - 4 + low;
    }
  }

  /** The word around addr + 3 is the word around addr or the next. */
  lemma LastWord(addr: word)
    ensures var last, low := Add(addr, 3), addr % 4;
            && last == (if addr + 3 < Word then addr + 3 else addr + 3 - Word)
            && last % 4 == (if low == 0 then 3 else low - 1)
  {
  }

  lemma RightPlace(addr: word, a: int)
    requires 0 <= a < Word
    ensures addr <= a < Aligned(addr) + 4 ==> Distance(addr, a) < 4 && Distance(addr, a) == a - addr
  {
  }

  /** SWL at A + 3 and SWR at A store the register, little-endian, at A to A + 3 and change no
      other virtual byte, when no page frame is mapped twice. */
  lemma UnalignedStore(s: State, h: Handler, i: Instr, j: Instr, interrupt: bool)
    requires Pair(s, h, i, j, interrupt) && i.op == SWL && j.op == SWR
    requires (i.rt == 0 || s.regs[LoadReg] != i.rt) && Mem.Injective(s.mem.map_)
    requires var a := Address(s, j);
             && Mem.Translate(s.mem.map_, Aligned(a), 4, true).Ok?
             && Mem.Translate(s.mem.map_, Aligned(Add(a, 3)), 4, true).Ok?
    ensures var u := Step(Between(s, h, interrupt), h);
            && Boundary(u) && Mem.SameMap(s.mem.map_, u.mem.map_)
            && (forall a :: Mem.Mapped(u.mem.map_, a) <==> Mem.Mapped(s.mem.map_, a))
            && forall a | Mem.Mapped(s.mem.map_, a) ::
                 Mem.VByte(u.mem, a) ==
                 if Distance(Address(s, j), a) < 4 then ByteOf(s.regs[i.rt], Distance(Address(s, j), a))
                 else Mem.VByte(s.mem, a)
  {
    var a := Address(s, j);
    var t, t' := Step(s, h), Between(s, h, interrupt);
    PartStored(s, h, i);
    assert t.regs[i.rs] == s.regs[i.rs] && t.regs[i.rt] == s.regs[i.rt];
    QuietBetween(s, h, i, interrupt);
    MappedRange(s.mem.map_);
    hide Step, Between, Boundary, Fetch, Mem.Translate, Mem.Mapped, Mem.VByte, Mem.SameMap, NewByte, ByteOf, Add, Distance;
    Mem.SameTranslation(s.mem.map_, t'.mem.map_, Aligned(a), 4, true);
    Mem.SameMapped(s.mem.map_, t'.mem.map_);
    assert Address(t', j) == a;
    PartStored(t', h, j);
    var u := Step(t', h);
    Mem.SameMapTransitive(s.mem.map_, t'.mem.map_, u.mem.map_);
    var reg := s.regs[i.rt];
    forall b | Mem.Mapped(s.mem.map_, b)
      ensures Mem.VByte(u.mem, b) == if Distance(a, b) < 4 then ByteOf(reg, Distance(a, b)) else Mem.VByte(s.mem, b)
    {
      TwoStores(i, j, reg, a, b, Mem.VByte(s.mem, b));
    }
  }

  lemma MappedRange(m: Mem.Mapping)
    ensures forall a | Mem.Mapped(m, a) :: 0 <= a < Word
  {
  }

  lemma QuietBetween(s: State, h: Handler, i: Instr, interrupt: bool)
    requires Boundary(s) && Boundary(Step(s, h)) && Step(s, h).regs[LoadReg] == 0 && GoodInstr(i)
    ensures var t, t' := Step(s, h), Between(s, h, interrupt);
            t'.mem == t.mem && t'.regs[i.rs] == t.regs[i.rs] && t'.regs[i.rt] == t.regs[i.rt]
  {
    hide Step;
    FlushBoundary(Step(s, h));
  }

  /** What the two stores put at an address, the two loads bring back, from any later state
      with the same memory. */
  lemma StoreThenLoad(s: State, h: Handler, i: Instr, j: Instr, interrupt: bool,
                      v: State, h': Handler, k: Instr, l: Instr, interrupt': bool)
    requires Pair(s, h, i, j, interrupt) && i.op == SWL && j.op == SWR
    requires (i.rt == 0 || s.regs[LoadReg] != i.rt) && Mem.Injective(s.mem.map_)
    requires var a := Address(s, j);
             && Mem.Translate(s.mem.map_, Aligned(a), 4, true).Ok?
             && Mem.Translate(s.mem.map_, Aligned(Add(a, 3)), 4, true).Ok?
    requires Pair(v, h', k, l, interrupt') && k.op == LWL && l.op == LWR && k.rt != 0 && k.rs != k.rt
    requires SameMemory(Step(Between(s, h, interrupt), h).mem, v.mem) && Address(v, l) == Address(s, j)
    ensures var w := Step(Between(v, h', interrupt'), h');
            Boundary(w) && Flush(w).regs[k.rt] == s.regs[i.rt]
  {
    var a, reg := Address(s, j), s.regs[i.rt];
    var u, w := Step(Between(s, h, interrupt), h), Step(Between(v, h', interrupt'), h');
    CanRead(s.mem.map_, Aligned(a));
    CanRead(s.mem.map_, Aligned(Add(a, 3)));
    Distances(a);
    hide Step, Between, Boundary, Fetch, Mem.Translate, Mem.Mapped, Mem.VByte, Mem.SameMap, ByteOf, Add, Distance;
    UnalignedStore(s, h, i, j, interrupt);
    Mem.SameMapTransitive(s.mem.map_, u.mem.map_, v.mem.map_);
    Mem.SameTranslation(s.mem.map_, v.mem.map_, Aligned(a), 4, false);
    Mem.SameTranslation(s.mem.map_, v.mem.map_, Aligned(Add(a, 3)), 4, false);
    SameVBytes(u.mem, v.mem);
    UnalignedLoad(v, h', k, l, interrupt', 0);
    forall n: nat | n < 4 ensures ByteOf(Flush(w).regs[k.rt], n) == ByteOf(reg, n) {
      UnalignedLoad(v, h', k, l, interrupt', n);
      assert Distance(a, Add(a, n)) == n;
    }
    SameWord(Flush(w).regs[k.rt], reg);
  }

  lemma CanRead(m: Mem.Mapping, addr: word)
    requires Mem.Translate(m, addr, 4, true).Ok?
    ensures Mem.Translate(m, addr, 4, false).Ok?
  {
  }

  lemma Distances(addr: word)
    ensures forall n: nat | n < 4 :: Distance(addr, Add(addr, n)) == n
  {
  }
}
