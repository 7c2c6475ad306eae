/** The simulated R2000: decoding, executing one instruction, and delayed loads.

    Registers hold 32-bit patterns, written as numbers below 2^32. */
module Mips {
  import opened Options
  import opened Bytes
  import opened Words
  import opened Multiply
  import Mem = Memory

  // Indices of the special registers.
  const HiReg := 32
  const LoReg := 33
  const PCReg := 34
  const NextPCReg := 35
  const PrevPCReg := 36
  const LoadReg := 37
  const LoadValueReg := 38
  const BadVAddrReg := 39
  const NumTotalRegs := 40

  // -------------------------------------------------------------- words

  function Nor(x: word, y: word): word {
    Not(Or(x, y))
  }

  /** The quotient and the remainder of C, rounding towards zero. */
  function Quotient(x: int, y: int): int
    requires y != 0
  {
    if (x < 0) == (y < 0) then Magnitude(x) / Magnitude(y) else -(Magnitude(x) / Magnitude(y))
  }

  function Remainder(x: int, y: int): int
    requires y != 0
  {
    x - Quotient(x, y) * y
  }

  function UnsignedQuotient(x: word, y: word): word
    requires y != 0
  {
    Quotient(x, y) % Word
  }

  function UnsignedRemainder(x: word, y: word): word
    requires y != 0
  {
    Remainder(x, y) % Word
  }

  /** Both quotients are the ones of division with remainder: the remainder is smaller than the
      divisor and has the sign of the dividend.  Only the most negative int divided by -1 has a
      quotient that is not an int, and it wraps. */
  lemma DivisionExact(x: int, y: int)
    requires y != 0
    ensures x == Quotient(x, y) * y + Remainder(x, y)
    ensures Magnitude(Remainder(x, y)) < Magnitude(y)
    ensures Remainder(x, y) != 0 ==> (Remainder(x, y) < 0 <==> x < 0)
  {
    var q, r := Magnitude(x) / Magnitude(y), Magnitude(x) % Magnitude(y);
    assert Magnitude(x) == q * Magnitude(y) + r;
    SignedProduct(q, y);
    assert Remainder(x, y) == if x < 0 then -r else r;
  }

  lemma SignedProduct(q: int, y: int)
    ensures (-q) * y == -(q * y) && q * Magnitude(y) == if y < 0 then -(q * y) else q * y
  {
  }

  /** The high and the low word of a product. */
  function Product(x: word, y: word, signedArith: bool): (word, word) {
    var p := if signedArith then Signed(x) * Signed(y) else x * y;
    (p / Word % Word, p % Word)
  }

  /** What LWL keeps of the register and takes from memory, for an address ending in byte. */
  function LeftMerged(kept: word, value: word, low: nat): word
    requires low < 4
  {
    match 3 - low
    case 0 => value
    case 1 => kept % 0x100 + value % 0x100_0000 * 0x100
    case 2 => kept % 0x1_0000 + value % 0x1_0000 * 0x1_0000
    case _ => kept % 0x100_0000 + value % 0x100 * 0x100_0000
  }

  function RightMerged(kept: word, value: word, low: nat): word
    requires low < 4
  {
    match 3 - low
    case 0 => kept / 0x100 * 0x100 + value / 0x100_0000
    case 1 => kept / 0x1_0000 * 0x1_0000 + value / 0x1_0000
    case 2 => kept / 0x100_0000 * 0x100_0000 + value / 0x100
    case _ => value
  }

  /** What SWL and SWR put in place of the word in memory. */
  function LeftStored(value: word, reg: word, low: nat): word
    requires low < 4
  {
    match 3 - low
    case 0 => reg
    case 1 => value / 0x100_0000 * 0x100_0000 + reg / 0x100
    case 2 => value / 0x1_0000 * 0x1_0000 + reg / 0x1_0000
    case _ => value / 0x100 * 0x100 + reg / 0x100_0000
  }

  function RightStored(value: word, reg: word, low: nat): word
    requires low < 4
  {
    match 3 - low
    case 0 => value % 0x100_0000 + reg % 0x100 * 0x100_0000
    case 1 => value % 0x1_0000 + reg % 0x1_0000 * 0x1_0000
    case 2 => value % 0x100 + reg % 0x100_0000 * 0x100
    case _ => reg
  }

  // -------------------------------------------------------------- instructions

  datatype Op =
    | ADD | ADDI | ADDIU | ADDU | AND | ANDI | BEQ | BGEZ | BGEZAL | BGTZ | BLEZ | BLTZ | BLTZAL | BNE
    | DIV | DIVU | J | JAL | JALR | JR | LB | LBU | LH | LHU | LUI | LW | LWL | LWR
    | MFHI | MFLO | MTHI | MTLO | MULT | MULTU | NOR | OR | ORI | SB | SH | SLL | SLLV | SLT | SLTI | SLTIU | SLTU
    | SRA | SRAV | SRL | SRLV | SUB | SUBU | SW | SWL | SWR | XOR | XORI | SYSCALL | UNIMP | RES

  /** A decoded instruction; extra is the sign-extended immediate, the shift amount or the target. */
  datatype Instr = Instr(op: Op, rs: nat, rt: nat, rd: nat, extra: word)

  predicate GoodInstr(i: Instr) {
    && i.rs < 32 && i.rt < 32 && i.rd < 32
    && (i.op == J || i.op == JAL ==> i.extra < 0x400_0000)
  }

  function PrimaryOp(n: nat): Op {
    match n
    case 2 => J      case 3 => JAL    case 4 => BEQ    case 5 => BNE
    case 6 => BLEZ   case 7 => BGTZ   case 8 => ADDI   case 9 => ADDIU
    case 10 => SLTI  case 11 => SLTIU case 12 => ANDI  case 13 => ORI
    case 14 => XORI  case 15 => LUI   case 32 => LB    case 33 => LH
    case 34 => LWL   case 35 => LW    case 36 => LBU   case 37 => LHU
    case 38 => LWR   case 40 => SB    case 41 => SH    case 42 => SWL
    case 43 => SW    case 46 => SWR
    case _ => if 16 <= n < 20 || 48 <= n < 52 || 56 <= n < 60 then UNIMP else RES
  }

  function SpecialOp(n: nat): Op {
    match n
    case 0 => SLL    case 2 => SRL    case 3 => SRA    case 4 => SLLV
    case 6 => SRLV   case 7 => SRAV   case 8 => JR     case 9 => JALR
    case 12 => SYSCALL case 13 => UNIMP case 16 => MFHI case 17 => MTHI
    case 18 => MFLO  case 19 => MTLO  case 24 => MULT  case 25 => MULTU
    case 26 => DIV   case 27 => DIVU  case 32 => ADD   case 33 => ADDU
    case 34 => SUB   case 35 => SUBU  case 36 => AND   case 37 => OR
    case 38 => XOR   case 39 => NOR   case 42 => SLT   case 43 => SLTU
    case _ => RES
  }

  function BranchOp(n: nat): Op {
    match n
    case 0 => BLTZ   case 1 => BGEZ   case 16 => BLTZAL case 17 => BGEZAL
    case _ => UNIMP
  }

  function SignExtended(h: nat): word
    requires h < 0x1_0000
  {
    if h >= 0x8000 then h + 0xffff_0000 else h
  }

  function Decode(value: word): (i: Instr)
    ensures GoodInstr(i)
  {
    var primary, rt := value / 0x400_0000, value / 0x1_0000 % 32;
    var extra :=
      if primary == 0 then value / 64 % 32
      else if primary == 2 || primary == 3 then value % 0x400_0000
      else SignExtended(value % 0x1_0000);
    var op :=
      if primary == 0 then SpecialOp(value % 64)
      else if primary == 1 then BranchOp(rt)
      else PrimaryOp(primary);
    Instr(op, value / 0x20_0000 % 32, rt, value / 0x800 % 32, extra)
  }

  /** The three instruction formats, as the assembler writes them. */
  function RegisterFormat(rs: nat, rt: nat, rd: nat, shamt: nat, funct: nat): word
    requires rs < 32 && rt < 32 && rd < 32 && shamt < 32 && funct < 64
  {
    rs * 0x20_0000 + rt * 0x1_0000 + rd * 0x800 + shamt * 64 + funct
  }

  function ImmediateFormat(primary: nat, rs: nat, rt: nat, imm: nat): word
    requires primary < 64 && rs < 32 && rt < 32 && imm < 0x1_0000
  {
    primary * 0x400_0000 + rs * 0x20_0000 + rt * 0x1_0000 + imm
  }

  function JumpFormat(primary: nat, target: nat): word
    requires primary < 64 && target < 0x400_0000
  {
    primary * 0x400_0000 + target
  }

  /** Decoding takes each format apart into the fields it was put together from. */
  lemma DecodesRegisterFormat(rs: nat, rt: nat, rd: nat, shamt: nat, funct: nat)
    requires rs < 32 && rt < 32 && rd < 32 && shamt < 32 && funct < 64
    ensures Decode(RegisterFormat(rs, rt, rd, shamt, funct)) == Instr(SpecialOp(funct), rs, rt, rd, shamt)
  {
    hide SpecialOp, BranchOp, PrimaryOp;
    var value := RegisterFormat(rs, rt, rd, shamt, funct);
    Unique(value, 0, rs * 0x20_0000 + rt * 0x1_0000 + rd * 0x800 + shamt * 64 + funct, 0x400_0000);
    Unique(value, rs, rt * 0x1_0000 + rd * 0x800 + shamt * 64 + funct, 0x20_0000);
    Unique(value, rs * 32 + rt, rd * 0x800 + shamt * 64 + funct, 0x1_0000);
    Unique(value, (rs * 32 + rt) * 32 + rd, shamt * 64 + funct, 0x800);
    Unique(value, ((rs * 32 + rt) * 32 + rd) * 32 + shamt, funct, 64);
    Unique(rs * 32 + rt, rs, rt, 32);
    Unique((rs * 32 + rt) * 32 + rd, rs * 32 + rt, rd, 32);
    Unique(((rs * 32 + rt) * 32 + rd) * 32 + shamt, (rs * 32 + rt) * 32 + rd, shamt, 32);
    Unique(rs, 0, rs, 32);
  }

  lemma DecodesImmediateFormat(primary: nat, rs: nat, rt: nat, imm: nat)
    requires 1 <= primary < 64 && primary != 2 && primary != 3 && rs < 32 && rt < 32 && imm < 0x1_0000
    ensures var i := Decode(ImmediateFormat(primary, rs, rt, imm));
            && i.op == (if primary == 1 then BranchOp(rt) else PrimaryOp(primary))
            && i.rs == rs && i.rt == rt && i.extra == SignExtended(imm)
  {
    hide SpecialOp, BranchOp, PrimaryOp, SignExtended;
    var value := ImmediateFormat(primary, rs, rt, imm);
    Unique(value, primary, rs * 0x20_0000 + rt * 0x1_0000 + imm, 0x400_0000);
    Unique(value, primary * 32 + rs, rt * 0x1_0000 + imm, 0x20_0000);
    Unique(value, (primary * 32 + rs) * 32 + rt, imm, 0x1_0000);
    Unique(primary * 32 + rs, primary, rs, 32);
    Unique((primary * 32 + rs) * 32 + rt, primary * 32 + rs, rt, 32);
  }

  lemma DecodesJumpFormat(primary: nat, target: nat)
    requires 2 <= primary <= 3 && target < 0x400_0000
    ensures var i := Decode(JumpFormat(primary, target)); i.op == PrimaryOp(primary) && i.extra == target
  {
    hide SpecialOp, BranchOp, PrimaryOp;
    Unique(JumpFormat(primary, target), primary, target, 0x400_0000);
  }

  // -------------------------------------------------------------- one instruction's effect

  /** The special registers an instruction may read.  Its other operands are the values a of
      rs and b of rt, and the register that LWL and LWR merge with, counting a pending load. */
  datatype Specials = Specials(hi: word, lo: word, npc: word)

  datatype Effect =
    | Done(dest: Option<nat>, value: word, hi: word, lo: word, pcAfter: word, loadReg: nat, loadValue: word, mem: Mem.State)
    | Trap(exception: Mem.Exception, badVAddr: word, mem: Mem.State)

  function Nothing(x: Specials, m: Mem.State): (e: Effect)
    ensures e.Done?
  {
    Done(None, 0, x.hi, x.lo, Add(x.npc, 4), 0, 0, m)
  }

  function Set(r: nat, v: word, x: Specials, m: Mem.State): (e: Effect)
    ensures e.Done?
  {
    Done(Some(r), v, x.hi, x.lo, Add(x.npc, 4), 0, 0, m)
  }

  function Branch(taken: bool, i: Instr, x: Specials, m: Mem.State): (e: Effect)
    ensures e.Done?
  {
    Done(None, 0, x.hi, x.lo, if taken then Add(x.npc, ShiftLeft(i.extra, 2)) else Add(x.npc, 4), 0, 0, m)
  }

  function HiLo(hi: word, lo: word, x: Specials, m: Mem.State): (e: Effect)
    ensures e.Done?
  {
    Done(None, 0, hi, lo, Add(x.npc, 4), 0, 0, m)
  }

  function Loading(r: nat, v: word, x: Specials, m: Mem.State): (e: Effect)
    ensures e.Done?
  {
    Done(None, 0, x.hi, x.lo, Add(x.npc, 4), r, v, m)
  }

  function LinkAddress(x: Specials): word {
    Add(x.npc, 4)
  }

  /** The value of rs after the link has been written, when the two are one register. */
  function AfterLink(rs: nat, link: nat, a: word, x: Specials): word {
    if rs == link then LinkAddress(x) else a
  }

  function Target(i: Instr, x: Specials): word {
    (Add(x.npc, 4) / 0x1000_0000 * 0x1000_0000 + ShiftLeft(i.extra, 2)) % Word
  }

  predicate FitsInt(v: int) {
    -0x8000_0000 <= v < 0x8000_0000
  }

  /** The sums and differences that have no int to represent them. */
  predicate SumOverflows(x: word, y: word) {
    !FitsInt(Signed(x) + Signed(y))
  }

  predicate DifferenceOverflows(x: word, y: word) {
    !FitsInt(Signed(x) - Signed(y))
  }

  lemma SignsOfSum(x: word, y: word)
    ensures SumOverflows(x, y) <==> Sign(x) == Sign(y) && Sign(y) != Sign(Add(x, y))
    ensures !SumOverflows(x, y) ==> Signed(Add(x, y)) == Signed(x) + Signed(y)
  {
    assert Add(x, y) == if x + y < Word then x + y else x + y - Word;
    hide Add;
  }

  lemma SignsOfDifference(x: word, y: word)
    ensures DifferenceOverflows(x, y) <==> Sign(x) != Sign(y) && Sign(x) != Sign(Sub(x, y))
    ensures !DifferenceOverflows(x, y) ==> Signed(Sub(x, y)) == Signed(x) - Signed(y)
  {
    assert Sub(x, y) == if x < y then x - y + Word else x - y;
    hide Sub;
  }

  /** The tests of sign bits detect exactly those, and all others are computed exactly. */
  lemma OverflowExact(x: word, y: word)
    ensures SumOverflows(x, y) <==>
            And(Xor(x, y), 0x8000_0000) == 0 && And(Xor(x, Add(x, y)), 0x8000_0000) != 0
    ensures SumOverflows(x, y) <==>
            And(Xor(x, y), 0x8000_0000) == 0 && And(Xor(y, Add(x, y)), 0x8000_0000) != 0
    ensures DifferenceOverflows(x, y) <==>
            And(Xor(x, y), 0x8000_0000) != 0 && And(Xor(x, Sub(x, y)), 0x8000_0000) != 0
    ensures !SumOverflows(x, y) ==> Signed(Add(x, y)) == Signed(x) + Signed(y)
    ensures !DifferenceOverflows(x, y) ==> Signed(Sub(x, y)) == Signed(x) - Signed(y)
  {
    SignsOfSum(x, y);
    SignsOfDifference(x, y);
    hide And, Xor, Add, Sub, SumOverflows, DifferenceOverflows, Signed, Sign;
    SignsDiffer(x, y);
    SignsDiffer(x, Add(x, y));
    SignsDiffer(y, Add(x, y));
    SignsDiffer(x, Sub(x, y));
  }

  /** What SRL and SRLV shift in: they keep their name exactly when no sign bit would be copied. */
  lemma ShiftRightLogical(i: Instr, a: word, b: word, merge: word, x: Specials, m: Mem.State)
    requires |m.bytes| == Mem.MemorySize && ((i.op == SRL && i.extra < 32) || i.op == SRLV)
    ensures var n := if i.op == SRL then i.extra else a % 32;
            var e := Execute(i, a, b, merge, x, m);
            e.Done? && e.dest == Some(i.rd) && (e.value == ShiftRightUnsigned(b, n) <==> !Sign(b) || n == 0)
  {
    hide ShiftRight, ShiftRightUnsigned;
    LogicalIffNoSign(b, if i.op == SRL then i.extra else a % 32);
  }

  /** SRL of 0x80000000 by one place gives 0xc0000000. */
  lemma ShiftRightCopiesSign()
    ensures ShiftRight(0x8000_0000, 1) == 0xc000_0000 && ShiftRightUnsigned(0x8000_0000, 1) == 0x4000_0000
  {
    Powers();
  }

  function LoadByte(i: Instr, a: word, x: Specials, m: Mem.State): Effect
    requires |m.bytes| == Mem.MemorySize
  {
    var addr := Add(a, i.extra);
    match Mem.Read(m, addr, 1)
    case (Err(e), _) => Trap(e, addr, m)
    case (Ok(v), m') => Loading(i.rt, if v / 0x80 % 2 == 1 && i.op == LB then v % 0x100 + 0xffff_ff00 else v % 0x100, x, m')
  }

  function LoadHalf(i: Instr, a: word, x: Specials, m: Mem.State): Effect
    requires |m.bytes| == Mem.MemorySize
  {
    var addr := Add(a, i.extra);
    if addr % 2 == 1 then Trap(Mem.AddressError, addr, m)
    else
      match Mem.Read(m, addr, 2)
      case (Err(e), _) => Trap(e, addr, m)
      case (Ok(v), m') => Loading(i.rt, if v / 0x8000 % 2 == 1 && i.op == LH then v % 0x1_0000 + 0xffff_0000 else v % 0x1_0000, x, m')
  }

  function LoadWord(i: Instr, a: word, x: Specials, m: Mem.State): Effect
    requires |m.bytes| == Mem.MemorySize
  {
    var addr := Add(a, i.extra);
    if addr % 4 != 0 then Trap(Mem.AddressError, addr, m)
    else
      match Mem.Read(m, addr, 4)
      case (Err(e), _) => Trap(e, addr, m)
      case (Ok(v), m') => Loading(i.rt, v, x, m')
  }

  /** LWL and LWR: an aligned read, part of which replaces part of the register. */
  function LoadPart(i: Instr, a: word, merge: word, x: Specials, m: Mem.State): Effect
    requires |m.bytes| == Mem.MemorySize
  {
    var addr := Add(a, i.extra);
    var low := addr % 4;
    match Mem.Read(m, addr - low, 4)
    case (Err(e), _) => Trap(e, addr - low, m)
    case (Ok(v), m') =>
      Loading(i.rt, if i.op == LWL then LeftMerged(merge, v, low) else RightMerged(merge, v, low), x, m')
  }

  function Storing(size: int, i: Instr, a: word, b: word, x: Specials, m: Mem.State): Effect
    requires |m.bytes| == Mem.MemorySize && Mem.IsSize(size)
  {
    var addr := Add(a, i.extra);
    match Mem.Write(m, addr, size, b)
    case Err(e) => Trap(e, addr, m)
    case Ok(m') => Nothing(x, m')
  }

  /** SWL and SWR: an aligned read, changed in part and written back. */
  function StorePart(i: Instr, a: word, b: word, x: Specials, m: Mem.State): Effect
    requires |m.bytes| == Mem.MemorySize
  {
    var addr := Add(a, i.extra);
    var low := addr % 4;
    match Mem.Read(m, addr - low, 4)
    case (Err(e), _) => Trap(e, addr - low, m)
    case (Ok(v), m') =>
      match Mem.Write(m', addr - low, 4, if i.op == SWL then LeftStored(v, b, low) else RightStored(v, b, low))
      case Err(e) => Trap(e, addr - low, m')
      case Ok(m'') => Nothing(x, m'')
  }

  function Bit(b: bool): word {
    if b then 1 else 0
  }

  /** What one instruction does, from the operands it reads. */
  function Execute(i: Instr, a: word, b: word, merge: word, x: Specials, m: Mem.State): Effect
    requires |m.bytes| == Mem.MemorySize
  {
    var low16 := i.extra % 0x1_0000;
    match i.op
    case ADD => if SumOverflows(a, b) then Trap(Mem.Overflow, 0, m) else Set(i.rd, Add(a, b), x, m)
    case ADDI => if SumOverflows(a, i.extra) then Trap(Mem.Overflow, 0, m) else Set(i.rt, Add(a, i.extra), x, m)
    case ADDIU => Set(i.rt, Add(a, i.extra), x, m)
    case ADDU => Set(i.rd, Add(a, b), x, m)
    case AND => Set(i.rd, And(a, b), x, m)
    case ANDI => Set(i.rt, And(a, low16), x, m)
    case BEQ => Branch(a == b, i, x, m)
    case BGEZ => Branch(!Sign(a), i, x, m)
    case BGEZAL => Branch(!Sign(AfterLink(i.rs, 31, a, x)), i, x, m).(dest := Some(31), value := LinkAddress(x))
    case BGTZ => Branch(Signed(a) > 0, i, x, m)
    case BLEZ => Branch(Signed(a) <= 0, i, x, m)
    case BLTZ => Branch(Sign(a), i, x, m)
    case BLTZAL => Branch(Sign(AfterLink(i.rs, 31, a, x)), i, x, m).(dest := Some(31), value := LinkAddress(x))
    case BNE => Branch(a != b, i, x, m)
    case DIV =>
      if b == 0 then HiLo(0, 0, x, m)
      else HiLo(Remainder(Signed(a), Signed(b)) % Word, Quotient(Signed(a), Signed(b)) % Word, x, m)
    case DIVU => if b == 0 then HiLo(0, 0, x, m) else HiLo(UnsignedRemainder(a, b), UnsignedQuotient(a, b), x, m)
    case J => Nothing(x, m).(pcAfter := Target(i, x))
    case JAL => Set(31, LinkAddress(x), x, m).(pcAfter := Target(i, x))
    case JALR => Set(i.rd, LinkAddress(x), x, m).(pcAfter := AfterLink(i.rs, i.rd, a, x))
    case JR => Nothing(x, m).(pcAfter := a)
    case LB => LoadByte(i, a, x, m)
    case LBU => LoadByte(i, a, x, m)
    case LH => LoadHalf(i, a, x, m)
    case LHU => LoadHalf(i, a, x, m)
    case LUI => Set(i.rt, ShiftLeft(i.extra, 16), x, m)
    case LW => LoadWord(i, a, x, m)
    case LWL => LoadPart(i, a, merge, x, m)
    case LWR => LoadPart(i, a, merge, x, m)
    case MFHI => Set(i.rd, x.hi, x, m)
    case MFLO => Set(i.rd, x.lo, x, m)
    case MTHI => HiLo(a, x.lo, x, m)
    case MTLO => HiLo(x.hi, a, x, m)
    case MULT => HiLo(Product(a, b, true).0, Product(a, b, true).1, x, m)
    case MULTU => HiLo(Product(a, b, false).0, Product(a, b, false).1, x, m)
    case NOR => Set(i.rd, Nor(a, b), x, m)
    case OR => Set(i.rd, Or(a, b), x, m)
    case ORI => Set(i.rt, Or(a, low16), x, m)
    case SB => Storing(1, i, a, b, x, m)
    case SH => Storing(2, i, a, b, x, m)
    case SLL => Set(i.rd, ShiftLeft(b, i.extra), x, m)
    case SLLV => Set(i.rd, ShiftLeft(b, a % 32), x, m)
    case SLT => Set(i.rd, Bit(Signed(a) < Signed(b)), x, m)
    case SLTI => Set(i.rt, Bit(Signed(a) < Signed(i.extra)), x, m)
    case SLTIU => Set(i.rt, Bit(a < i.extra), x, m)
    case SLTU => Set(i.rd, Bit(a < b), x, m)
    case SRA => Set(i.rd, ShiftRight(b, i.extra), x, m)
    case SRAV => Set(i.rd, ShiftRight(b, a % 32), x, m)
    case SRL => Set(i.rd, ShiftRight(b, i.extra), x, m)
    case SRLV => Set(i.rd, ShiftRight(b, a % 32), x, m)
    case SUB => if DifferenceOverflows(a, b) then Trap(Mem.Overflow, 0, m) else Set(i.rd, Sub(a, b), x, m)
    case SUBU => Set(i.rd, Sub(a, b), x, m)
    case SW => Storing(4, i, a, b, x, m)
    case SWL => StorePart(i, a, b, x, m)
    case SWR => StorePart(i, a, b, x, m)
    case XOR => Set(i.rd, Xor(a, b), x, m)
    case XORI => Set(i.rt, Xor(a, low16), x, m)
    case SYSCALL => Trap(Mem.Syscall, 0, m)
    case UNIMP => Trap(Mem.IllegalInstr, 0, m)
    case RES => Trap(Mem.IllegalInstr, 0, m)
  }

  // -------------------------------------------------------------- what is read and written

  predicate ReadsRs(op: Op) {
    match op
    case J => false case JAL => false case LUI => false case MFHI => false case MFLO => false
    case SLL => false case SRA => false case SRL => false
    case SYSCALL => false case UNIMP => false case RES => false
    case _ => true
  }

  predicate ReadsRt(op: Op) {
    match op
    case ADD => true case ADDU => true case AND => true case BEQ => true case BNE => true case DIV => true
    case DIVU => true case MULT => true case MULTU => true case NOR => true case OR => true case SB => true
    case SH => true case SLL => true case SLLV => true case SLT => true case SLTU => true case SRA => true
    case SRAV => true case SRL => true case SRLV => true case SUB => true case SUBU => true case SW => true
    case SWL => true case SWR => true case XOR => true
    case _ => false
  }

  predicate Merges(op: Op) {
    op == LWL || op == LWR
  }

  /** The general register an instruction writes at once, as opposed to loading it. */
  function Writes(i: Instr): Option<nat> {
    match i.op
    case ADDI => Some(i.rt) case ADDIU => Some(i.rt) case ANDI => Some(i.rt) case ORI => Some(i.rt)
    case XORI => Some(i.rt) case LUI => Some(i.rt) case SLTI => Some(i.rt) case SLTIU => Some(i.rt)
    case BGEZAL => Some(31) case BLTZAL => Some(31) case JAL => Some(31)
    case ADD => Some(i.rd) case ADDU => Some(i.rd) case AND => Some(i.rd) case JALR => Some(i.rd)
    case MFHI => Some(i.rd) case MFLO => Some(i.rd) case NOR => Some(i.rd) case OR => Some(i.rd)
    case SLL => Some(i.rd) case SLLV => Some(i.rd) case SLT => Some(i.rd) case SLTU => Some(i.rd)
    case SRA => Some(i.rd) case SRAV => Some(i.rd) case SRL => Some(i.rd) case SRLV => Some(i.rd)
    case SUB => Some(i.rd) case SUBU => Some(i.rd) case XOR => Some(i.rd)
    case _ => None
  }

  lemma IgnoresRs(i: Instr, a: word, b: word, merge: word, v: word, x: Specials, m: Mem.State)
    requires |m.bytes| == Mem.MemorySize && !ReadsRs(i.op)
    ensures Execute(i, v, b, merge, x, m) == Execute(i, a, b, merge, x, m)
  {
    hide Add, Sub, And, Or, Xor, Nor, ShiftLeft, ShiftRight, Quotient, Remainder, Product, Pow2, Signed, Sign;
    hide Nothing, Set, Branch, HiLo, Loading, LeftMerged, RightMerged, LeftStored, RightStored, Mem.Read, Mem.Write;
  }

  lemma IgnoresRt(i: Instr, a: word, b: word, merge: word, v: word, x: Specials, m: Mem.State)
    requires |m.bytes| == Mem.MemorySize && !ReadsRt(i.op)
    ensures Execute(i, a, v, merge, x, m) == Execute(i, a, b, merge, x, m)
  {
    hide Add, Sub, And, Or, Xor, Nor, ShiftLeft, ShiftRight, Quotient, Remainder, Product, Pow2, Signed, Sign;
    hide Nothing, Set, Branch, HiLo, Loading, LeftMerged, RightMerged, LeftStored, RightStored, Mem.Read, Mem.Write;
  }

  lemma IgnoresMerge(i: Instr, a: word, b: word, merge: word, v: word, x: Specials, m: Mem.State)
    requires |m.bytes| == Mem.MemorySize && !Merges(i.op)
    ensures Execute(i, a, b, v, x, m) == Execute(i, a, b, merge, x, m)
  {
    hide Add, Sub, And, Or, Xor, Nor, ShiftLeft, ShiftRight, Quotient, Remainder, Product, Pow2, Signed, Sign;
    hide Nothing, Set, Branch, HiLo, Loading, LeftMerged, RightMerged, LeftStored, RightStored, Mem.Read, Mem.Write;
  }

  /** An instruction's effect depends only on the operands it is said to read. */
  lemma ReadsOnly(i: Instr, a: word, b: word, merge: word, a': word, b': word, merge': word, x: Specials, m: Mem.State)
    requires |m.bytes| == Mem.MemorySize
    requires (ReadsRs(i.op) ==> a' == a) && (ReadsRt(i.op) ==> b' == b) && (Merges(i.op) ==> merge' == merge)
    ensures Execute(i, a', b', merge', x, m) == Execute(i, a, b, merge, x, m)
  {
    hide Execute;
    if !ReadsRs(i.op) { IgnoresRs(i, a, b, merge, a', x, m); }
    if !ReadsRt(i.op) { IgnoresRt(i, a', b, merge, b', x, m); }
    if !Merges(i.op) { IgnoresMerge(i, a', b', merge, merge', x, m); }
  }

  /** An instruction writes only the register it is said to write, and loads only rt. */
  lemma WritesOnly(i: Instr, a: word, b: word, merge: word, x: Specials, m: Mem.State)
    requires |m.bytes| == Mem.MemorySize && Execute(i, a, b, merge, x, m).Done?
    ensures var e := Execute(i, a, b, merge, x, m);
            e.dest == Writes(i) && (e.loadReg == 0 || e.loadReg == i.rt)
  {
    hide Add, Sub, And, Or, Xor, Nor, ShiftLeft, ShiftRight, Quotient, Remainder, Product, Pow2, Signed, Sign;
    hide LeftMerged, RightMerged, LeftStored, RightStored, Mem.Read, Mem.Write, Target;
    hide SumOverflows, DifferenceOverflows, UnsignedQuotient, UnsignedRemainder, AfterLink, LinkAddress;
  }
}
