/** What the instructions mean: the result of each in terms of ints, of single bits or of the
    bytes of memory, and how instructions relate to each other. */
module InstructionSet {
  import opened Options
  import opened Bytes
  import opened Words
  import opened Multiply
  import opened Mips
  import Mem = Memory

  /** The instruction goes on to the next one and leaves HI, LO and memory alone. */
  predicate Plain(e: Effect, x: Specials, m: Mem.State) {
    e.Done? && e.hi == x.hi && e.lo == x.lo && e.mem == m && e.loadReg == 0 && e.pcAfter == (x.npc + 4) % Word
  }

  predicate Sets(e: Effect, r: nat, x: Specials, m: Mem.State) {
    Plain(e, x, m) && e.dest == Some(r)
  }

  // -------------------------------------------------------------- sums

  /** ADD, ADDI and SUB trap exactly when the result is not an int, and otherwise write it. */
  lemma SumLaw(i: Instr, a: word, b: word, merge: word, x: Specials, m: Mem.State)
    requires |m.bytes| == Mem.MemorySize && i.op in {ADD, ADDI, SUB}
    ensures var e := Execute(i, a, b, merge, x, m);
            var exact := if i.op == ADD then Signed(a) + Signed(b)
                         else if i.op == ADDI then Signed(a) + Signed(i.extra)
                         else Signed(a) - Signed(b);
            && (-0x8000_0000 <= exact < 0x8000_0000 ==> Sets(e, if i.op == ADDI then i.rt else i.rd, x, m) && Signed(e.value) == exact)
            && (!(-0x8000_0000 <= exact < 0x8000_0000) ==> e == Trap(Mem.Overflow, 0, m))
  {
    SignsOfSum(a, b);
    SignsOfSum(a, i.extra);
    SignsOfDifference(a, b);
    hide Signed, Sub, Add;
    NextPc(x);
  }

  lemma NextPc(x: Specials)
    ensures Add(x.npc, 4) == (x.npc + 4) % Word
  {
  }

  lemma SumWraps(a: word, b: word)
    ensures Add(a, b) == (a + b) % Word
  {
  }

  /** ADDU, ADDIU and SUBU write the result modulo 2^32. */
  lemma WrapLaw(i: Instr, a: word, b: word, merge: word, x: Specials, m: Mem.State)
    requires |m.bytes| == Mem.MemorySize && i.op in {ADDU, ADDIU, SUBU}
    ensures var e := Execute(i, a, b, merge, x, m);
            var exact := if i.op == ADDU then a + b else if i.op == ADDIU then a + i.extra else a - b;
            && Sets(e, if i.op == ADDIU then i.rt else i.rd, x, m)
            && (e.value == exact || e.value == exact - Word || e.value == exact + Word)
  {
    NextPc(x);
    Wrapped(a, b);
    Wrapped(a, i.extra);
    hide Add, Sub;
  }

  lemma Wrapped(a: word, b: word)
    ensures Add(a, b) == if a + b < Word then a + b else a + b - Word
    ensures Sub(a, b) == if a < b then a - b + Word else a - b
  {
  }

  // -------------------------------------------------------------- bits

  /** The logical instructions, bit by bit; an immediate has no bits from 16 on. */
  lemma LogicLaw(i: Instr, a: word, b: word, merge: word, x: Specials, m: Mem.State, k: nat)
    requires |m.bytes| == Mem.MemorySize && i.op in {AND, OR, XOR, NOR, ANDI, ORI, XORI} && k < 32
    ensures var e := Execute(i, a, b, merge, x, m);
            var p, q, imm := BitOf(a, k), BitOf(b, k), k < 16 && BitOf(i.extra, k);
            && Sets(e, if i.op in {AND, OR, XOR, NOR} then i.rd else i.rt, x, m)
            && (BitOf(e.value, k) <==>
                  match i.op
                  case AND => p && q
                  case OR => p || q
                  case XOR => p != q
                  case NOR => !p && !q
                  case ANDI => p && imm
                  case ORI => p || imm
                  case _ => p != imm)
  {
    hide And, Or, Xor, Not, BitOf, Add;
    NextPc(x);
    LogicBits(a, b, k);
    LogicBits(a, i.extra % 0x1_0000, k);
    LogicBits(Or(a, b), 0, k);
    ImmediateBit(i.extra, k);
  }

  lemma ImmediateBit(v: word, k: nat)
    ensures BitOf(v % 0x1_0000, k) <==> k < 16 && BitOf(v, k)
  {
    Powers();
    hide Pow2, Low, BitOf;
    Divided(v, 16);
    LowBit(v, 16, k);
  }

  /** The shifts, bit by bit.  The distance is the shift field, or the low five bits of rs.  SRL
      and SRLV bring in the sign bit as SRA and SRAV do. */
  lemma ShiftLaw(i: Instr, a: word, b: word, merge: word, x: Specials, m: Mem.State, k: nat)
    requires |m.bytes| == Mem.MemorySize && i.op in {SLL, SRL, SRA, SLLV, SRLV, SRAV} && k < 32
    requires i.op in {SLL, SRL, SRA} ==> i.extra < 32
    ensures var e := Execute(i, a, b, merge, x, m);
            var n := if i.op in {SLL, SRL, SRA} then i.extra else a % 32;
            && Sets(e, i.rd, x, m)
            && (BitOf(e.value, k) <==>
                  if i.op in {SLL, SLLV} then k >= n && BitOf(b, k - n)
                  else BitOf(b, if k + n < 32 then k + n else 31))
  {
    hide ShiftLeft, ShiftRight, BitOf, Add;
    NextPc(x);
    ShiftBits(b, if i.op in {SLL, SRL, SRA} then i.extra else a % 32, k);
  }

  /** LUI and ORI build any constant between them. */
  lemma ConstantLaw(i: Instr, j: Instr, c: word, a: word, b: word, merge: word, x: Specials, y: Specials, m: Mem.State)
    requires |m.bytes| == Mem.MemorySize && i.op == LUI && j.op == ORI
    requires i.extra == SignExtended(c / 0x1_0000) && j.extra == SignExtended(c % 0x1_0000)
    ensures var e := Execute(i, a, b, merge, x, m);
            && Sets(e, i.rt, x, m) && e.value == c / 0x1_0000 * 0x1_0000
            && var f := Execute(j, e.value, b, merge, y, m);
               Sets(f, j.rt, y, m) && f.value == c
  {
    Powers();
    hide Pow2, ShiftLeft, Or, Add;
    NextPc(x);
    NextPc(y);
    LowHalf(c / 0x1_0000);
    LowHalf(c % 0x1_0000);
    ShiftedLeft(i.extra, 16, 0x1_0000, 0x1_0000);
    OrDisjoint(c / 0x1_0000 * 0x1_0000, c % 0x1_0000, 16, 0x1_0000);
  }

  /** Sign extension keeps the low half, and the value as an int. */
  lemma LowHalf(h: nat)
    requires h < 0x1_0000
    ensures SignExtended(h) % 0x1_0000 == h && Signed(SignExtended(h)) == if h < 0x8000 then h else h - 0x1_0000
  {
  }

  // -------------------------------------------------------------- comparisons

  /** SLT and SLTI compare ints, SLTU and SLTIU words. */
  lemma CompareLaw(i: Instr, a: word, b: word, merge: word, x: Specials, m: Mem.State)
    requires |m.bytes| == Mem.MemorySize && i.op in {SLT, SLTI, SLTU, SLTIU}
    ensures var e := Execute(i, a, b, merge, x, m);
            var c := if i.op in {SLT, SLTU} then b else i.extra;
            && Sets(e, if i.op in {SLT, SLTU} then i.rd else i.rt, x, m)
            && (e.value == 0 || e.value == 1)
            && (e.value == 1 <==> (if i.op in {SLT, SLTI} then Signed(c) - Signed(a) else c - a) > 0)
  {
    hide Signed, Add;
    NextPc(x);
  }

  /** SLT is the sign of SUB, when that does not trap; SLTU is the borrow of SUBU. */
  lemma CompareIsSubtract(lt: Instr, sub: Instr, a: word, b: word, merge: word, x: Specials, m: Mem.State)
    requires |m.bytes| == Mem.MemorySize
    ensures lt.op == SLT && sub.op == SUB ==>
              var e, f := Execute(lt, a, b, merge, x, m), Execute(sub, a, b, merge, x, m);
              e.Done? && (f.Done? ==> (e.value == 1 <==> Signed(f.value) < 0))
    ensures lt.op == SLTU && sub.op == SUBU ==>
              var e, f := Execute(lt, a, b, merge, x, m), Execute(sub, a, b, merge, x, m);
              e.Done? && f.Done? && f.value == a - b + e.value * Word
  {
    if lt.op == SLT && sub.op == SUB {
      CompareLaw(lt, a, b, merge, x, m);
      SumLaw(sub, a, b, merge, x, m);
    } else if lt.op == SLTU && sub.op == SUBU {
      CompareLaw(lt, a, b, merge, x, m);
      WrapLaw(sub, a, b, merge, x, m);
    }
    hide Execute, Signed;
  }

  // -------------------------------------------------------------- branches and jumps

  /** Where a branch goes: its offset in instructions from the delay slot, or on. */
  function Destination(x: Specials, extra: word, taken: bool): int {
    (x.npc + if taken then 4 * Signed(extra) else 4) % Word
  }

  predicate Taken(op: Op, a: word, b: word) {
    match op
    case BEQ => a == b
    case BNE => a != b
    case BLEZ => Signed(a) <= 0
    case BGTZ => Signed(a) > 0
    case BLTZ => Signed(a) < 0
    case BLTZAL => Signed(a) < 0
    case BGEZ => Signed(a) >= 0
    case BGEZAL => Signed(a) >= 0
    case _ => false
  }

  /** The branches test ints against zero, or registers for equality.  Those that link write the
      address after the delay slot first, and test that if rs is register 31. */
  lemma BranchLaw(i: Instr, a: word, b: word, merge: word, x: Specials, m: Mem.State)
    requires |m.bytes| == Mem.MemorySize && i.op in {BEQ, BNE, BLEZ, BGTZ, BLTZ, BGEZ, BLTZAL, BGEZAL}
    ensures var e := Execute(i, a, b, merge, x, m);
            var links := i.op == BLTZAL || i.op == BGEZAL;
            var v := if links && i.rs == 31 then (x.npc + 4) % Word else a;
            && e.Done? && e.hi == x.hi && e.lo == x.lo && e.mem == m && e.loadReg == 0
            && e.pcAfter == Destination(x, i.extra, Taken(i.op, v, b))
            && (if links then e.dest == Some(31) && e.value == (x.npc + 4) % Word else e.dest == None)
  {
    NextPc(x);
    BranchTarget(x, i.extra);
    SignIsNegative(a);
    SignIsNegative(LinkAddress(x));
    hide Signed, Sign, Add, ShiftLeft, Destination;
  }

  lemma SignIsNegative(a: word)
    ensures Sign(a) <==> Signed(a) < 0
  {
  }

  lemma BranchTarget(x: Specials, extra: word)
    ensures Add(x.npc, ShiftLeft(extra, 2)) == Destination(x, extra, true)
    ensures Add(x.npc, 4) == Destination(x, extra, false)
  {
    Powers();
    hide Pow2;
    FourTimes(x.npc, extra);
  }

  lemma FourTimes(n: int, v: word)
    ensures (n + v * 4 % Word) % Word == (n + 4 * Signed(v)) % Word
  {
    ModSum(n, v * 4);
    if Sign(v) {
      assert n + 4 * Signed(v) == n + v * 4 - 4 * Word;
      ModShift(n + v * 4, 4);
    }
  }

  lemma ModSum(n: int, k: int)
    ensures (n + k % Word) % Word == (n + k) % Word
  {
  }

  lemma ModShift(n: int, k: int)
    ensures (n - k * Word) % Word == n % Word
  {
  }

  /** BEQ is taken where XOR gives zero, and BNE elsewhere. */
  lemma EqualIsXor(br: Instr, op: Instr, a: word, b: word, merge: word, x: Specials, m: Mem.State)
    requires |m.bytes| == Mem.MemorySize && br.op in {BEQ, BNE} && op.op == XOR
    ensures var e, f := Execute(br, a, b, merge, x, m), Execute(op, a, b, merge, x, m);
            e.Done? && f.Done? && e.pcAfter == Destination(x, br.extra, (f.value == 0) == (br.op == BEQ))
  {
    hide Execute, Xor, Destination;
    BranchLaw(br, a, b, merge, x, m);
    XorValue(op, a, b, merge, x, m);
    XorZero(a, b);
  }

  lemma XorValue(op: Instr, a: word, b: word, merge: word, x: Specials, m: Mem.State)
    requires |m.bytes| == Mem.MemorySize && op.op == XOR
    ensures var f := Execute(op, a, b, merge, x, m); f.Done? && f.value == Xor(a, b)
  {
    hide Xor, Add;
  }

  /** BLTZ is taken where SLT of the register against zero gives one, and BGEZ elsewhere; BGTZ
      where SLT of zero against the register does, and BLEZ elsewhere. */
  lemma BranchIsCompare(br: Instr, op: Instr, a: word, b: word, merge: word, x: Specials, m: Mem.State)
    requires |m.bytes| == Mem.MemorySize && br.op in {BLTZ, BGEZ, BGTZ, BLEZ} && op.op == SLT
    ensures var e := Execute(br, a, b, merge, x, m);
            var f := if br.op in {BLTZ, BGEZ} then Execute(op, a, 0, merge, x, m) else Execute(op, 0, a, merge, x, m);
            e.Done? && f.Done? && e.pcAfter == Destination(x, br.extra, (f.value == 1) == (br.op in {BLTZ, BGTZ}))
  {
    hide Execute, Destination;
    BranchLaw(br, a, b, merge, x, m);
    CompareLaw(op, a, 0, merge, x, m);
    CompareLaw(op, 0, a, merge, x, m);
  }

  lemma XorZero(a: word, b: word)
    ensures Xor(a, b) == 0 <==> a == b
  {
    XorCancels(a, b);
    XorCancels(b, b);
    hide Xor;
  }

  /** J and JAL replace the low 28 bits of the delay slot's successor, JR and JALR go to a
      register; the link is the address after the delay slot. */
  lemma JumpLaw(i: Instr, a: word, b: word, merge: word, x: Specials, m: Mem.State)
    requires |m.bytes| == Mem.MemorySize && i.op in {J, JAL, JR, JALR} && GoodInstr(i)
    ensures var e, link := Execute(i, a, b, merge, x, m), (x.npc + 4) % Word;
            && e.Done? && e.hi == x.hi && e.lo == x.lo && e.mem == m && e.loadReg == 0
            && (i.op in {J, JAL} ==>
                  e.pcAfter / 0x1000_0000 == link / 0x1000_0000 && e.pcAfter % 0x1000_0000 == 4 * i.extra)
            && (i.op == JR ==> e.pcAfter == a)
            && (i.op == JALR ==> e.pcAfter == if i.rs == i.rd then link else a)
            && e.dest == (if i.op == JAL then Some(31) else if i.op == JALR then Some(i.rd) else None)
            && (e.dest.Some? ==> e.value == link)
  {
    NextPc(x);
    Powers();
    if i.op in {J, JAL} {
      TargetParts((x.npc + 4) % Word, i.extra);
    }
    hide Pow2, Add;
  }

  lemma TargetParts(pc: word, index: word)
    requires index < 0x400_0000
    ensures var t := (pc / 0x1000_0000 * 0x1000_0000 + index * 4 % Word) % Word;
            t / 0x1000_0000 == pc / 0x1000_0000 && t % 0x1000_0000 == 4 * index
  {
    Unique(pc / 0x1000_0000 * 0x1000_0000 + index * 4, pc / 0x1000_0000, index * 4, 0x1000_0000);
  }

  // -------------------------------------------------------------- HI and LO

  /** What is moved to HI or LO is moved back by MFHI and MFLO. */
  lemma MoveLaw(i: Instr, a: word, b: word, merge: word, x: Specials, m: Mem.State)
    requires |m.bytes| == Mem.MemorySize && i.op in {MFHI, MFLO, MTHI, MTLO}
    ensures var e := Execute(i, a, b, merge, x, m);
            && e.Done? && e.mem == m && e.loadReg == 0 && e.pcAfter == (x.npc + 4) % Word
            && (i.op == MFHI ==> e.dest == Some(i.rd) && e.value == x.hi)
            && (i.op == MFLO ==> e.dest == Some(i.rd) && e.value == x.lo)
            && (i.op in {MTHI, MTLO} ==> e.dest == None)
            && e.hi == (if i.op == MTHI then a else x.hi) && e.lo == (if i.op == MTLO then a else x.lo)
  {
    NextPc(x);
    hide Add;
  }

  /** HI and LO are the product of two ints, or of two words. */
  lemma MultiplyLaw(i: Instr, a: word, b: word, merge: word, x: Specials, m: Mem.State)
    requires |m.bytes| == Mem.MemorySize && i.op in {MULT, MULTU}
    ensures var e := Execute(i, a, b, merge, x, m);
            && e.Done? && e.dest == None && e.mem == m && e.loadReg == 0 && e.pcAfter == (x.npc + 4) % Word
            && (i.op == MULT ==> Signed(e.hi) * Word + e.lo == Signed(a) * Signed(b))
            && (i.op == MULTU ==> e.hi * Word + e.lo == a * b)
  {
    NextPc(x);
    ProductBounds(Signed(a), Signed(b));
    SplitSigned(Signed(a) * Signed(b));
    MulUpTo(a, b, Word - 1, Word - 1);
    SplitUnsigned(a * b);
    hide Add, Signed;
  }

  lemma SplitSigned(p: int)
    requires -0x8000_0000 * Word <= p < 0x8000_0000 * Word
    ensures Signed(p / Word % Word) * Word + p % Word == p
  {
    assert p == p / Word * Word + p % Word;
    assert -0x8000_0000 <= p / Word < 0x8000_0000;
  }

  lemma SplitUnsigned(p: nat)
    requires p < Word * Word
    ensures p / Word % Word * Word + p % Word == p
  {
    assert p == p / Word * Word + p % Word;
    assert p / Word < Word;
  }

  /** Division with remainder of words; by zero it gives zeros. */
  lemma DivideUnsignedLaw(i: Instr, a: word, b: word, merge: word, x: Specials, m: Mem.State)
    requires |m.bytes| == Mem.MemorySize && i.op == DIVU
    ensures var e := Execute(i, a, b, merge, x, m);
            && e.Done? && e.dest == None && e.mem == m && e.loadReg == 0 && e.pcAfter == (x.npc + 4) % Word
            && (b == 0 ==> e.hi == 0 && e.lo == 0)
            && (b != 0 ==> a == e.lo * b + e.hi && e.hi < b)
  {
    NextPc(x);
    if b != 0 {
      WordsDivide(a, b);
    }
    hide Add, UnsignedQuotient, UnsignedRemainder;
  }

  lemma WordsDivide(a: word, b: word)
    requires b != 0
    ensures a == UnsignedQuotient(a, b) * b + UnsignedRemainder(a, b) && UnsignedRemainder(a, b) < b
  {
    hide Quotient, Remainder;
    DivisionExact(a, b);
    NaturalQuotient(a, b);
    Kept(Quotient(a, b));
    Kept(Remainder(a, b));
  }

  lemma NaturalQuotient(a: nat, b: nat)
    requires b > 0
    ensures 0 <= Quotient(a, b) <= a
  {
    hide Magnitude;
    QuotientBound(a, b);
    Natural(a);
    Natural(b);
    assert Quotient(a, b) == a / b;
  }

  lemma Natural(a: nat)
    ensures Magnitude(a) == a
  {
  }

  lemma Kept(v: int)
    ensures 0 <= v < Word ==> v % Word == v
  {
  }

  /** Division of ints rounds towards zero: the remainder has the sign of the dividend.  Only the
      quotient of the most negative int by -1 does not fit, and wraps. */
  lemma DivideLaw(i: Instr, a: word, b: word, merge: word, x: Specials, m: Mem.State)
    requires |m.bytes| == Mem.MemorySize && i.op == DIV
    ensures var e, y, z := Execute(i, a, b, merge, x, m), Signed(a), Signed(b);
            && e.Done? && e.dest == None && e.mem == m && e.loadReg == 0 && e.pcAfter == (x.npc + 4) % Word
            && (b == 0 ==> e.hi == 0 && e.lo == 0)
            && (b != 0 ==>
                  && Magnitude(Signed(e.hi)) < Magnitude(z) && (Signed(e.hi) != 0 ==> (Signed(e.hi) < 0 <==> y < 0))
                  && (if y == -0x8000_0000 && z == -1 then Signed(e.lo) == y && e.hi == 0
                      else y == Signed(e.lo) * z + Signed(e.hi)))
  {
    NextPc(x);
    if b != 0 {
      var y, z := Signed(a), Signed(b);
      DivisionExact(y, z);
      QuotientFits(y, z);
      Rewrapped(Remainder(y, z));
      Rewrapped(Quotient(y, z));
    }
    hide Add, Quotient, Remainder, Signed;
  }

  lemma Rewrapped(v: int)
    ensures -0x8000_0000 <= v < 0x8000_0000 ==> Signed(v % Word) == v
    ensures v == 0x8000_0000 ==> Signed(v % Word) == -0x8000_0000
  {
  }

  lemma QuotientFits(y: int32, z: int32)
    requires z != 0
    ensures -0x8000_0000 <= Remainder(y, z) < 0x8000_0000
    ensures if y == -0x8000_0000 && z == -1 then Quotient(y, z) == 0x8000_0000 && Remainder(y, z) == 0
            else -0x8000_0000 <= Quotient(y, z) < 0x8000_0000
  {
    DivisionExact(y, z);
    QuotientBound(Magnitude(y), Magnitude(z));
  }

  lemma QuotientBound(y: nat, z: nat)
    requires z > 0
    ensures y / z <= y && (z >= 2 ==> y / z <= y / 2)
  {
    assert y == y / z * z + y % z;
    if z >= 2 {
      MulUpTo(y / z, 2, y / z, z);
    }
  }

  // -------------------------------------------------------------- loads and stores

  /** An effect that leaves a value to be loaded into a register. */
  predicate Loads(e: Effect, r: nat, x: Specials, m: Mem.State) {
    && e.Done? && e.dest == None && e.hi == x.hi && e.lo == x.lo && e.pcAfter == (x.npc + 4) % Word
    && e.mem == m && e.loadReg == r
  }

  function Seen(m: Mem.State, addr: word): Mem.State {
    m.(map_ := Mem.Touched(m.map_, addr, false))
  }

  /** Reading fails as the translation does, and only then. */
  lemma ReadFails(m: Mem.State, addr: word, size: int)
    requires |m.bytes| == Mem.MemorySize && Mem.IsSize(size)
    ensures var (v, m'), r := Mem.Read(m, addr, size), Mem.Translate(m.map_, addr, size, false);
            && (r.Err? ==> v == Mem.Err(r.exception) && m' == m)
            && (r.Ok? ==> v.Ok? && m' == Seen(m, addr))
    ensures (size == 2 && addr % 2 == 1) || (size == 4 && addr % 4 != 0) ==>
              Mem.Translate(m.map_, addr, size, false) == Mem.Err(Mem.AddressError)
  {
    hide Mem.Touched, Mem.Locate;
  }

  /** LB and LBU load the byte at the address as an int or as a word, or trap as the translation
      does. */
  lemma LoadByteLaw(i: Instr, a: word, b: word, merge: word, x: Specials, m: Mem.State)
    requires |m.bytes| == Mem.MemorySize && i.op in {LB, LBU}
    ensures var e, addr := Execute(i, a, b, merge, x, m), (a + i.extra) % Word;
            var r := Mem.Translate(m.map_, addr, 1, false);
            && (r.Err? ==> e == Trap(r.exception, addr, m))
            && (r.Ok? ==>
                  && Loads(e, i.rt, x, Seen(m, addr)) && Mem.Mapped(m.map_, addr)
                  && var d := Mem.VByte(m, addr) as int;
                     if i.op == LBU then e.loadValue == d else Signed(e.loadValue) == if d < 0x80 then d else d - 0x100)
  {
    hide Add, Signed, Mem.Translate, Mem.Touched, Mem.Read, Mem.Mapped, Mem.VByte;
    var addr := Add(a, i.extra);
    NextPc(x);
    SumWraps(a, i.extra);
    ReadFails(m, addr, 1);
    if Mem.Translate(m.map_, addr, 1, false).Ok? {
      Mem.ByteRead(m, addr);
      ByteExtends(Mem.VByte(m, addr) as int);
    }
  }

  lemma ByteExtends(d: int)
    requires 0 <= d < 0x100
    ensures var v := if d < 0x80 then d else d + 0xffff_ff00;
            && v % 0x100 == d && (v / 0x80 % 2 == 1 <==> d >= 0x80)
            && (d >= 0x80 ==> Signed(d + 0xffff_ff00) == d - 0x100) && (d < 0x80 ==> Signed(d) == d)
  {
  }

  /** LH and LHU do the same for two bytes. */
  lemma LoadHalfLaw(i: Instr, a: word, b: word, merge: word, x: Specials, m: Mem.State)
    requires |m.bytes| == Mem.MemorySize && i.op in {LH, LHU}
    ensures var e, addr := Execute(i, a, b, merge, x, m), (a + i.extra) % Word;
            var r := Mem.Translate(m.map_, addr, 2, false);
            && (r.Err? ==> e == Trap(r.exception, addr, m))
            && (r.Ok? ==>
                  && Loads(e, i.rt, x, Seen(m, addr)) && Mem.Mapped(m.map_, addr) && Mem.Mapped(m.map_, addr + 1)
                  && var d := Mem.VByte(m, addr) as int + Mem.VByte(m, addr + 1) as int * 0x100;
                     if i.op == LHU then e.loadValue == d else Signed(e.loadValue) == if d < 0x8000 then d else d - 0x1_0000)
  {
    hide Add, Signed, Mem.Translate, Mem.Touched, Mem.Read, Mem.Mapped, Mem.VByte;
    var addr := Add(a, i.extra);
    NextPc(x);
    SumWraps(a, i.extra);
    ReadFails(m, addr, 2);
    if Mem.Translate(m.map_, addr, 2, false).Ok? {
      Mem.ShortRead(m, addr);
      HalfExtends(Mem.VByte(m, addr) as int + Mem.VByte(m, addr + 1) as int * 0x100);
    }
  }

  lemma HalfExtends(d: int)
    requires 0 <= d < 0x1_0000
    ensures d % 0x1_0000 == d && (d / 0x8000 % 2 == 1 <==> d >= 0x8000)
    ensures (d >= 0x8000 ==> Signed(d + 0xffff_0000) == d - 0x1_0000) && (d < 0x8000 ==> Signed(d) == d)
  {
  }

  /** LW loads four bytes. */
  lemma LoadWordLaw(i: Instr, a: word, b: word, merge: word, x: Specials, m: Mem.State)
    requires |m.bytes| == Mem.MemorySize && i.op == LW
    ensures var e, addr := Execute(i, a, b, merge, x, m), (a + i.extra) % Word;
            var r := Mem.Translate(m.map_, addr, 4, false);
            && (r.Err? ==> e == Trap(r.exception, addr, m))
            && (r.Ok? ==>
                  && Loads(e, i.rt, x, Seen(m, addr)) && (forall n | addr <= n < addr + 4 :: Mem.Mapped(m.map_, n))
                  && e.loadValue ==
                     DecodeUnsigned([Mem.VByte(m, addr), Mem.VByte(m, addr + 1), Mem.VByte(m, addr + 2), Mem.VByte(m, addr + 3)]))
  {
    hide Add, DecodeUnsigned, Mem.Translate, Mem.Touched, Mem.Read, Mem.Mapped, Mem.VByte;
    var addr := Add(a, i.extra);
    NextPc(x);
    SumWraps(a, i.extra);
    ReadFails(m, addr, 4);
    if Mem.Translate(m.map_, addr, 4, false).Ok? {
      Mem.WordRead(m, addr);
    }
  }

  function StoreSize(op: Op): int {
    if op == SB then 1 else if op == SH then 2 else 4
  }

  /** SB, SH and SW change the bytes at the address to the register's low bytes, least significant
      first, and no other byte, or trap as the translation does; when no page frame is mapped
      twice. */
  lemma StoreLaw(i: Instr, a: word, b: word, merge: word, x: Specials, m: Mem.State)
    requires |m.bytes| == Mem.MemorySize && i.op in {SB, SH, SW} && Mem.Injective(m.map_)
    ensures var e, addr, size := Execute(i, a, b, merge, x, m), (a + i.extra) % Word, StoreSize(i.op);
            var r := Mem.Translate(m.map_, addr, size, true);
            && (r.Err? ==> e == Trap(r.exception, addr, m))
            && (r.Ok? ==>
                  && Plain(e, x, e.mem) && e.dest == None && |e.mem.bytes| == Mem.MemorySize
                  && (forall n :: Mem.Mapped(e.mem.map_, n) <==> Mem.Mapped(m.map_, n))
                  && (forall n | addr <= n < addr + size :: Mem.Mapped(m.map_, n))
                  && (forall n | Mem.Mapped(e.mem.map_, n) :: Mem.VByte(e.mem, n) ==
                        if addr <= n < addr + size then EncodeUnsigned(b)[n - addr] else Mem.VByte(m, n)))
  {
    hide Add, EncodeUnsigned, Mem.Translate, Mem.Write, Mem.Mapped, Mem.VByte, Mem.SameMap, Mem.Injective;
    var addr := Add(a, i.extra);
    NextPc(x);
    SumWraps(a, i.extra);
    WriteFails(m, addr, StoreSize(i.op), b);
    if Mem.Translate(m.map_, addr, StoreSize(i.op), true).Ok? {
      Mem.Written(m, addr, StoreSize(i.op), b);
    }
  }

  lemma WriteFails(m: Mem.State, addr: word, size: int, v: word)
    requires |m.bytes| == Mem.MemorySize && Mem.IsSize(size)
    ensures var w, r := Mem.Write(m, addr, size, v), Mem.Translate(m.map_, addr, size, true);
            (r.Err? ==> w == Mem.Err(r.exception)) && (r.Ok? ==> w.Ok?)
  {
    hide Mem.Touched, Mem.Locate, Mem.Encoded;
  }

  // -------------------------------------------------------------- other traps

  lemma TrapLaw(i: Instr, a: word, b: word, merge: word, x: Specials, m: Mem.State)
    requires |m.bytes| == Mem.MemorySize && i.op in {SYSCALL, UNIMP, RES}
    ensures Execute(i, a, b, merge, x, m) == Trap(if i.op == SYSCALL then Mem.Syscall else Mem.IllegalInstr, 0, m)
  {
  }

  // -------------------------------------------------------------- opcode numbers

  /** Where the architecture puts an instruction: by its primary opcode, by the function field
      under opcode 0, or by the rt field under opcode 1. */
  datatype Code = Primary(n: nat) | Special(n: nat) | Regimm(n: nat) | Nowhere

  function CodeOf(op: Op): Code {
    match op
    // jumps and branches
    case J => Primary(2)     case JAL => Primary(3)
    case JR => Special(8)    case JALR => Special(9)
    case BEQ => Primary(4)   case BNE => Primary(5)
    case BLEZ => Primary(6)  case BGTZ => Primary(7)
    case BLTZ => Regimm(0)   case BGEZ => Regimm(1)
    case BLTZAL => Regimm(16) case BGEZAL => Regimm(17)
    // arithmetic and logic, with an immediate and between registers
    case ADDI => Primary(8)  case ADDIU => Primary(9)
    case SLTI => Primary(10) case SLTIU => Primary(11)
    case ANDI => Primary(12) case ORI => Primary(13)
    case XORI => Primary(14) case LUI => Primary(15)
    case ADD => Special(32)  case ADDU => Special(33)
    case SUB => Special(34)  case SUBU => Special(35)
    case AND => Special(36)  case OR => Special(37)
    case XOR => Special(38)  case NOR => Special(39)
    case SLT => Special(42)  case SLTU => Special(43)
    // shifts, by a constant and by a register
    case SLL => Special(0)   case SRL => Special(2)   case SRA => Special(3)
    case SLLV => Special(4)  case SRLV => Special(6)  case SRAV => Special(7)
    // multiplication and division
    case MFHI => Special(16) case MTHI => Special(17) case MFLO => Special(18) case MTLO => Special(19)
    case MULT => Special(24) case MULTU => Special(25) case DIV => Special(26) case DIVU => Special(27)
    // loads and stores
    case LB => Primary(32)   case LH => Primary(33)   case LWL => Primary(34)  case LW => Primary(35)
    case LBU => Primary(36)  case LHU => Primary(37)  case LWR => Primary(38)
    case SB => Primary(40)   case SH => Primary(41)   case SWL => Primary(42)
    case SW => Primary(43)   case SWR => Primary(46)
    case SYSCALL => Special(12)
    case UNIMP => Nowhere    case RES => Nowhere
  }

  /** The instruction, with its fields, put together in the format that goes with its code. */
  function Assembled(op: Op, rs: nat, rt: nat, rd: nat, shamt: nat, imm: nat, target: nat): word
    requires rs < 32 && rt < 32 && rd < 32 && shamt < 32 && imm < 0x1_0000 && target < 0x400_0000
  {
    match CodeOf(op)
    case Special(n) => RegisterFormat(rs, rt, rd, shamt, n)
    case Regimm(n) => ImmediateFormat(1, rs, n, imm)
    case Primary(n) => if n < 4 then JumpFormat(n, target) else ImmediateFormat(n, rs, rt, imm)
    case Nowhere => 0
  }

  /** Decoding finds every instruction under the architecture's number for it, with its fields. */
  lemma Disassembled(op: Op, rs: nat, rt: nat, rd: nat, shamt: nat, imm: nat, target: nat)
    requires rs < 32 && rt < 32 && rd < 32 && shamt < 32 && imm < 0x1_0000 && target < 0x400_0000
    requires CodeOf(op) != Nowhere
    ensures var i := Decode(Assembled(op, rs, rt, rd, shamt, imm, target));
            && i.op == op
            && match CodeOf(op)
               case Special(_) => i.rs == rs && i.rt == rt && i.rd == rd && i.extra == shamt
               case Regimm(_) => i.rs == rs && i.extra == SignExtended(imm)
               case Primary(n) => if n < 4 then i.extra == target else i.rs == rs && i.rt == rt && i.extra == SignExtended(imm)
               case Nowhere => true
  {
    CodeNumbers(op);
    hide Decode, SpecialOp, PrimaryOp, BranchOp, SignExtended, RegisterFormat, ImmediateFormat, JumpFormat, CodeOf;
    match CodeOf(op)
    case Special(n) => DecodesRegisterFormat(rs, rt, rd, shamt, n);
    case Regimm(n) => DecodesImmediateFormat(1, rs, n, imm);
    case Primary(n) =>
      if n < 4 {
        DecodesJumpFormat(n, target);
      } else {
        DecodesImmediateFormat(n, rs, rt, imm);
      }
  }

  lemma CodeNumbers(op: Op)
    ensures match CodeOf(op)
            case Special(n) => n < 64 && SpecialOp(n) == op
            case Regimm(n) => n < 32 && BranchOp(n) == op
            case Primary(n) => 2 <= n < 64 && PrimaryOp(n) == op
            case Nowhere => op == UNIMP || op == RES
  {
    hide SpecialOp, BranchOp, PrimaryOp;
    SpecialCode(op);
    BranchCode(op);
    PrimaryCode(op);
  }

  lemma SpecialCode(op: Op)
    ensures CodeOf(op).Special? ==> CodeOf(op).n < 64 && SpecialOp(CodeOf(op).n) == op
  {
  }

  lemma BranchCode(op: Op)
    ensures CodeOf(op).Regimm? ==> CodeOf(op).n < 32 && BranchOp(CodeOf(op).n) == op
  {
  }

  lemma PrimaryCode(op: Op)
    ensures CodeOf(op).Primary? ==> 2 <= CodeOf(op).n < 64 && PrimaryOp(CodeOf(op).n) == op
  {
  }

  /** Conversely, a word decodes to an instruction only if it has that instruction's number. */
  lemma DecodedCode(v: word)
    ensures var op := Decode(v).op;
            match CodeOf(op)
            case Special(n) => v / 0x400_0000 == 0 && v % 64 == n
            case Regimm(n) => v / 0x400_0000 == 1 && v / 0x1_0000 % 32 == n
            case Primary(n) => v / 0x400_0000 == n
            case Nowhere => op == UNIMP || op == RES
  {
    hide SpecialOp, PrimaryOp, BranchOp, CodeOf;
    NoNumber();
    SpecialNumber(v % 64);
    BranchNumber(v / 0x1_0000 % 32);
    PrimaryNumber(v / 0x400_0000);
  }

  lemma SpecialNumber(n: nat)
    ensures SpecialOp(n) != UNIMP && SpecialOp(n) != RES ==> CodeOf(SpecialOp(n)) == Special(n)
  {
  }

  lemma NoNumber()
    ensures CodeOf(UNIMP) == CodeOf(RES) == Nowhere
  {
  }

  lemma BranchNumber(n: nat)
    ensures BranchOp(n) != UNIMP ==> CodeOf(BranchOp(n)) == Regimm(n)
  {
  }

  lemma PrimaryNumber(n: nat)
    ensures PrimaryOp(n) != UNIMP && PrimaryOp(n) != RES ==> CodeOf(PrimaryOp(n)) == Primary(n)
  {
  }
}
