/** The machine as an object: registers, memory and translation table updated in place. */
module Machines {
  import opened Options
  import opened Bytes
  import opened Words
  import opened Multiply
  import opened Mips
  import opened Cpu
  import Mem = Memory

  /** The registers an instruction leaves before any delayed load is applied. */
  ghost function Wrote(regs: seq<word>, e: Effect): (r: seq<word>)
    requires |regs| == NumTotalRegs && e.Done? && (e.dest.Some? ==> e.dest.value < 32)
    ensures |r| == NumTotalRegs
  {
    Written(regs, e.dest, e.value)[HiReg := e.hi][LoReg := e.lo]
  }

  /** What executing an instruction in place has to leave, for the effect it should have. */
  ghost predicate Matches(e: Effect, regs: seq<word>, regs': seq<word>, m: Mem.State,
                          trap: Option<Mem.Exception>, pcAfter: word, nextReg: word, nextValue: word)
    requires |regs| == NumTotalRegs && regs[LoadReg] < 32 && (e.Done? && e.dest.Some? ==> e.dest.value < 32)
  {
    && m == e.mem
    && if e.Trap? then
         trap == Some(e.exception) && regs' == Cpu.DelayedLoad(regs[BadVAddrReg := e.badVAddr], 0, 0)
       else
         trap == None && regs' == Wrote(regs, e) && pcAfter == e.pcAfter && nextReg == e.loadReg && nextValue == e.loadValue
  }

  predicate IsJump(op: Op) {
    match op
    case BEQ => true case BGEZ => true case BGEZAL => true case BGTZ => true case BLEZ => true case BLTZ => true
    case BLTZAL => true case BNE => true case J => true case JAL => true case JALR => true case JR => true
    case _ => false
  }

  predicate IsAccess(op: Op) {
    match op
    case LB => true case LBU => true case LH => true case LHU => true case LW => true case LWL => true case LWR => true
    case SB => true case SH => true case SW => true case SWL => true case SWR => true
    case _ => false
  }

  predicate IsMultiply(op: Op) {
    op == MULT || op == MULTU || op == DIV || op == DIVU || op == MTHI || op == MTLO
  }

  predicate MayTrap(op: Op) {
    op == ADD || op == ADDI || op == SUB || op == SYSCALL || op == UNIMP || op == RES
  }

  /** The two words Mult returns are the product's. */
  lemma MultIsProduct(x: word, y: word, signedArith: bool, hi: int32, lo: int32)
    requires signedArith ==> SignedDouble(hi, lo) == Signed(x) * Signed(y)
    requires !signedArith ==> UnsignedDouble(hi, lo) == Unsigned(Signed(x)) * Unsigned(Signed(y))
    ensures Product(x, y, signedArith) == (Unsigned(hi), Unsigned(lo))
  {
    var p := if signedArith then Signed(x) * Signed(y) else x * y;
    assert p == (if signedArith then hi as int else Unsigned(hi)) * Word + Unsigned(lo);
    SplitProduct(if signedArith then hi as int else Unsigned(hi), Unsigned(lo));
  }

  lemma SplitProduct(hi: int, lo: uint32)
    ensures (hi * Word + lo) / Word == hi && (hi * Word + lo) % Word == lo
  {
  }

  // -------------------------------------------------------------- shifts and masks

  /** The fields of an instruction word, selected by shifts and masks. */
  method DecodeBits(value: word) returns (i: Instr)
    ensures i == Decode(value)
  {
    hide And, Or, SpecialOp, PrimaryOp, BranchOp, Pow2;
    FieldBits(value);
    ImmediateBits(value);
    var rs, rt, rd := And(ShiftRightUnsigned(value, 21), 0x1f), And(ShiftRightUnsigned(value, 16), 0x1f),
                      And(ShiftRightUnsigned(value, 11), 0x1f);
    var primary := And(ShiftRightUnsigned(value, 26), 0x3f);
    var op, extra := PrimaryOp(primary), And(value, 0xffff);
    if primary == 0 {
      op, extra := SpecialOp(And(value, 0x3f)), And(ShiftRightUnsigned(value, 6), 0x1f);
    } else if primary == 2 || primary == 3 {
      extra := And(value, 0x3ff_ffff);
    } else if And(extra, 0x8000) != 0 {
      extra := Or(extra, 0xffff_0000);
    }
    if primary == 1 {
      op := BranchField(value);
    }
    i := Instr(op, rs, rt, rd, extra);
  }

  method BranchField(value: word) returns (op: Op)
    ensures op == BranchOp(value / 0x1_0000 % 32)
  {
    Powers();
    hide And, Pow2;
    AndBand(value, 16, 5, 0x1_0000, 32);
    var i := And(value, 0x1f_0000);
    if i == 0 {
      op := BLTZ;
    } else if i == 0x1_0000 {
      op := BGEZ;
    } else if i == 0x10_0000 {
      op := BLTZAL;
    } else if i == 0x11_0000 {
      op := BGEZAL;
    } else {
      op := UNIMP;
    }
  }

  lemma FieldBits(value: word)
    ensures And(ShiftRightUnsigned(value, 26), 0x3f) == value / 0x400_0000
    ensures And(ShiftRightUnsigned(value, 21), 0x1f) == value / 0x20_0000 % 32
    ensures And(ShiftRightUnsigned(value, 16), 0x1f) == value / 0x1_0000 % 32
    ensures And(ShiftRightUnsigned(value, 11), 0x1f) == value / 0x800 % 32
    ensures And(ShiftRightUnsigned(value, 6), 0x1f) == value / 64 % 32
    ensures And(value, 0x3f) == value % 64
  {
    Powers();
    hide And, Pow2;
    AndLow(ShiftRightUnsigned(value, 26), 6, 64);
    AndLow(ShiftRightUnsigned(value, 21), 5, 32);
    AndLow(ShiftRightUnsigned(value, 16), 5, 32);
    AndLow(ShiftRightUnsigned(value, 11), 5, 32);
    AndLow(ShiftRightUnsigned(value, 6), 5, 32);
    AndLow(value, 6, 64);
  }

  lemma ImmediateBits(value: word)
    ensures And(value, 0x3ff_ffff) == value % 0x400_0000
    ensures And(value, 0xffff) == value % 0x1_0000
    ensures And(value % 0x1_0000, 0x8000) != 0 <==> value % 0x1_0000 >= 0x8000
    ensures Or(value % 0x1_0000, 0xffff_0000) == value % 0x1_0000 + 0xffff_0000
  {
    Powers();
    hide And, Or, Pow2;
    AndLow(value, 26, 0x400_0000);
    AndLow(value, 16, 0x1_0000);
    SingleBit(value % 0x1_0000, 15, 0x8000);
    OrHigh(value % 0x1_0000, 16, 0x1_0000);
  }

  lemma MaskedFields(extra: word, a: word)
    ensures And(extra, 0xffff) == extra % 0x1_0000 && And(a, 0x1f) == a % 32
  {
    Powers();
    hide And, Pow2;
    AndLow(extra, 16, 0x1_0000);
    AndLow(a, 5, 32);
  }

  lemma LowBits(tmp: word)
    ensures And(tmp, 1) == tmp % 2 && And(tmp, 3) == tmp % 4
  {
    Powers();
    hide And, Pow2;
    AndLow(tmp, 1, 2);
    AndLow(tmp, 2, 4);
  }

  /** The target of a jump: the top four bits of the delay slot's address over the index. */
  lemma TargetBits(i: Instr, pc: word)
    requires i.op == J || i.op == JAL ==> i.extra < 0x400_0000
    ensures i.op == J || i.op == JAL ==>
              Or(And(pc, 0xf000_0000), ShiftLeft(i.extra, 2)) == (pc / 0x1000_0000 * 0x1000_0000 + ShiftLeft(i.extra, 2)) % Word
  {
    Powers();
    hide And, Or, Pow2, ShiftLeft;
    if i.op == J || i.op == JAL {
      AndHigh(pc, 28, 0x1000_0000);
      ShiftedLeft(i.extra, 2, 4, 0x4000_0000);
      OrDisjoint(pc - pc % 0x1000_0000, ShiftLeft(i.extra, 2), 28, 0x1000_0000);
    }
  }

  /** The bits loaded for a byte or a short, extended by their sign or by zeros. */
  function Extended(value: word, size: int, signed: bool): word {
    if size == 1 then
      if And(value, 0x80) != 0 && signed then Or(value, 0xffff_ff00) else And(value, 0xff)
    else if size == 2 then
      if And(value, 0x8000) != 0 && signed then Or(value, 0xffff_0000) else And(value, 0xffff)
    else
      value
  }

  lemma ExtendedIs(value: word, size: int, signed: bool)
    ensures size == 1 ==>
              Extended(value, size, signed) ==
              if value / 0x80 % 2 == 1 && signed then value % 0x100 + 0xffff_ff00 else value % 0x100
    ensures size == 2 ==>
              Extended(value, size, signed) ==
              if value / 0x8000 % 2 == 1 && signed then value % 0x1_0000 + 0xffff_0000 else value % 0x1_0000
    ensures size == 4 ==> Extended(value, size, signed) == value
  {
    Powers();
    hide And, Or, Pow2;
    SingleBit(value, 7, 0x80);
    AndLow(value, 8, 0x100);
    OrHigh(value, 8, 0x100);
    SingleBit(value, 15, 0x8000);
    AndLow(value, 16, 0x1_0000);
    OrHigh(value, 16, 0x1_0000);
  }

  method MergeLeft(kept: word, value: word, byte: nat) returns (r: word)
    requires byte < 4
    ensures r == LeftMerged(kept, value, byte)
  {
    Powers();
    hide And, Or, Pow2, ShiftLeft;
    match 3 - byte
    case 0 => r := value;
    case 1 =>
      KeepLow(kept, value, 8, 0x100, 0x100_0000);
      r := Or(And(kept, 0xff), ShiftLeft(value, 8));
    case 2 =>
      KeepLow(kept, value, 16, 0x1_0000, 0x1_0000);
      r := Or(And(kept, 0xffff), ShiftLeft(value, 16));
    case _ =>
      KeepLow(kept, value, 24, 0x100_0000, 0x100);
      r := Or(And(kept, 0xff_ffff), ShiftLeft(value, 24));
  }

  method MergeRight(kept: word, value: word, byte: nat) returns (r: word)
    requires byte < 4
    ensures r == RightMerged(kept, value, byte)
  {
    Powers();
    hide And, Or, Pow2, ShiftRight;
    match 3 - byte
    case 0 =>
      KeepHigh(kept, value, 24, 0x100_0000, 0x100);
      r := Or(And(kept, 0xffff_ff00), And(ShiftRight(value, 24), 0xff));
    case 1 =>
      KeepHigh(kept, value, 16, 0x1_0000, 0x1_0000);
      r := Or(And(kept, 0xffff_0000), And(ShiftRight(value, 16), 0xffff));
    case 2 =>
      KeepHigh(kept, value, 8, 0x100, 0x100_0000);
      r := Or(And(kept, 0xff00_0000), And(ShiftRight(value, 8), 0xff_ffff));
    case _ => r := value;
  }

  method StoreLeft(value: word, reg: word, byte: nat) returns (r: word)
    requires byte < 4
    ensures r == LeftStored(value, reg, byte)
  {
    Powers();
    hide And, Or, Pow2, ShiftRight;
    match 3 - byte
    case 0 => r := reg;
    case 1 =>
      KeepHigh(value, reg, 8, 0x100, 0x100_0000);
      r := Or(And(value, 0xff00_0000), And(ShiftRight(reg, 8), 0xff_ffff));
    case 2 =>
      KeepHigh(value, reg, 16, 0x1_0000, 0x1_0000);
      r := Or(And(value, 0xffff_0000), And(ShiftRight(reg, 16), 0xffff));
    case _ =>
      KeepHigh(value, reg, 24, 0x100_0000, 0x100);
      r := Or(And(value, 0xffff_ff00), And(ShiftRight(reg, 24), 0xff));
  }

  method StoreRight(value: word, reg: word, byte: nat) returns (r: word)
    requires byte < 4
    ensures r == RightStored(value, reg, byte)
  {
    Powers();
    hide And, Or, Pow2, ShiftLeft;
    match 3 - byte
    case 0 =>
      KeepLow(value, reg, 24, 0x100_0000, 0x100);
      r := Or(And(value, 0xff_ffff), ShiftLeft(reg, 24));
    case 1 =>
      KeepLow(value, reg, 16, 0x1_0000, 0x1_0000);
      r := Or(And(value, 0xffff), ShiftLeft(reg, 16));
    case 2 =>
      KeepLow(value, reg, 8, 0x100, 0x100_0000);
      r := Or(And(value, 0xff), ShiftLeft(reg, 8));
    case _ => r := reg;
  }

  class Machine {
    var registers: seq<word>          // an array held inside the object itself
    const mainMemory: array<byte>
    const table: array<Mem.Entry>     // the page table, or the TLB if there is one
    const hasTlb: bool

    ghost predicate Valid()
      reads this
    {
      |registers| == NumTotalRegs && mainMemory.Length == Mem.MemorySize && (table as object) != mainMemory
    }

    ghost function Mapping(): Mem.Mapping
      reads table
    {
      if hasTlb then Mem.Tlb(table[..]) else Mem.PageTable(table[..])
    }

    ghost function Memory(): Mem.State
      reads mainMemory, table
    {
      Mem.State(mainMemory[..], Mapping())
    }

    ghost function Value(): State
      reads this, mainMemory, table
    {
      State(registers, Memory())
    }

    constructor (hasTlb: bool, table: array<Mem.Entry>)
      ensures Valid() && fresh(mainMemory) && this.table == table && this.hasTlb == hasTlb
      ensures Boundary(Value())
    {
      this.hasTlb, this.table := hasTlb, table;
      registers := seq(NumTotalRegs, i => 0);
      mainMemory := new byte[Mem.MemorySize](i => 0);
    }

    // ------------------------------------------------------------ translation

    method Translate(virtAddr: word, size: int, writing: bool) returns (physAddr: nat, exception: Option<Mem.Exception>)
      requires Valid() && Mem.IsSize(size)
      modifies table
      ensures var r := Mem.Translate(old(Mapping()), virtAddr, size, writing);
              if r.Err? then exception == Some(r.exception) && table[..] == old(table[..])
              else exception == None && physAddr == r.value && Mapping() == Mem.Touched(old(Mapping()), virtAddr, writing)
      ensures exception.None? ==> physAddr + size <= Mem.MemorySize
    {
      hide And;
      physAddr := 0;
      LowBits(virtAddr);
      if (size == 4 && And(virtAddr, 3) != 0) || (size == 2 && And(virtAddr, 1) != 0) {
        return physAddr, Some(Mem.AddressError);
      }
      var vpn, offset := virtAddr / Mem.PageSize, virtAddr % Mem.PageSize;
      var entry := 0;
      if !hasTlb {
        if vpn >= table.Length {
          return physAddr, Some(Mem.AddressError);
        } else if !table[vpn].valid {
          return physAddr, Some(Mem.PageFault);
        }
        entry := vpn;
      } else {
        while entry < table.Length
          invariant 0 <= entry <= table.Length
          invariant Mem.Search(table[..], vpn, 0) == Mem.Search(table[..], vpn, entry)
        {
          if table[entry].valid && table[entry].virtualPage == vpn {
            break;
          }
          entry := entry + 1;
        }
        if entry == table.Length {
          return physAddr, Some(Mem.PageFault);
        }
      }
      assert Mem.Locate(Mapping(), Mem.Page(virtAddr)) == Mem.Ok(entry);
      if table[entry].readOnly && writing {
        return physAddr, Some(Mem.ReadOnly);
      }
      var pageFrame := table[entry].physicalPage;
      if pageFrame < 0 || pageFrame >= Mem.NumPhysPages {
        return physAddr, Some(Mem.BusError);
      }
      Mem.StaysInPage(Mapping(), virtAddr, size, writing);
      table[entry] := Mem.Touch(table[entry], writing);
      physAddr := pageFrame * Mem.PageSize + offset;
      exception := None;
    }

    // ------------------------------------------------------------ exceptions and delayed loads

    method DelayedLoad(nextReg: word, nextValue: word)
      requires Valid() && registers[LoadReg] < 32
      modifies this`registers
      ensures registers == Cpu.DelayedLoad(old(registers), nextReg, nextValue)
    {
      registers := registers[registers[LoadReg] := registers[LoadValueReg]];
      registers := registers[LoadReg := nextReg];
      registers := registers[LoadValueReg := nextValue];
      registers := registers[0 := 0];
    }

    /** RaiseException up to the call of the kernel's handler. */
    method RaiseException(badVAddr: word)
      requires Valid() && registers[LoadReg] < 32
      modifies this`registers
      ensures registers == Cpu.DelayedLoad(old(registers)[BadVAddrReg := badVAddr], 0, 0)
    {
      registers := registers[BadVAddrReg := badVAddr];
      DelayedLoad(0, 0);
    }

    // ------------------------------------------------------------ memory

    method ReadMem(addr: word, size: int) returns (value: word, trap: Option<Mem.Exception>)
      requires Valid() && registers[LoadReg] < 32 && Mem.IsSize(size)
      modifies this`registers, table
      ensures Valid()
      ensures var (r, m) := Mem.Read(old(Memory()), addr, size);
              && Memory() == m
              && if r.Err? then
                   trap == Some(r.exception) && Memory() == old(Memory())
                   && registers == Cpu.DelayedLoad(old(registers)[BadVAddrReg := addr], 0, 0)
                 else trap == None && value == r.value && registers == old(registers)
    {
      value := 0;
      var physicalAddress;
      physicalAddress, trap := Translate(addr, size, false);
      if trap.Some? {
        RaiseException(addr);
        return;
      }
      value := Mem.Load(mainMemory[..], physicalAddress, size);
    }

    /** Bytes written in place. */
    method Poke(p: nat, bytes: seq<byte>)
      requires p + |bytes| <= mainMemory.Length
      modifies mainMemory
      ensures mainMemory[..] == old(mainMemory[..p]) + bytes + old(mainMemory[p + |bytes|..])
    {
      forall k | 0 <= k < |bytes| {
        mainMemory[p + k] := bytes[k];
      }
    }

    method WriteMem(addr: word, size: int, value: word) returns (trap: Option<Mem.Exception>)
      requires Valid() && registers[LoadReg] < 32 && Mem.IsSize(size)
      modifies this`registers, table, mainMemory
      ensures Valid()
      ensures var r := Mem.Write(old(Memory()), addr, size, value);
              if r.Err? then
                trap == Some(r.exception) && Memory() == old(Memory())
                && registers == Cpu.DelayedLoad(old(registers)[BadVAddrReg := addr], 0, 0)
              else trap == None && Memory() == r.value && registers == old(registers)
    {
      hide Mem.Translate, Mem.Touched, Mem.Encoded, Cpu.DelayedLoad;
      var physicalAddress;
      physicalAddress, trap := Translate(addr, size, true);
      if trap.Some? {
        RaiseException(addr);
        return;
      }
      Poke(physicalAddress, Mem.Encoded(size, value));
    }

    // ------------------------------------------------------------ instructions

    method Put(r: nat, v: word)
      requires Valid() && r < 32
      modifies this`registers
      ensures registers == old(registers)[r := v]
      ensures registers == Written(old(registers), Some(r), v)[HiReg := old(registers)[HiReg]][LoReg := old(registers)[LoReg]]
    {
      registers := registers[r := v];
      assert registers[HiReg := old(registers)[HiReg]][LoReg := old(registers)[LoReg]] == registers;
    }

    /** The instructions that may, or always do, trap without touching memory. */
    method Checked(i: Instr) returns (trap: Option<Mem.Exception>)
      requires Valid() && registers[LoadReg] < 32 && GoodInstr(i) && MayTrap(i.op)
      modifies this`registers
      ensures Valid()
      ensures var e := EffectOf(i, old(registers), Memory());
              && (e.Done? && e.dest.Some? ==> e.dest.value < 32)
              && Matches(e, old(registers), registers, Memory(), trap, Add(old(registers)[NextPCReg], 4), 0, 0)
    {
      hide EffectOf, Add, Sub, And, Xor, SumOverflows, DifferenceOverflows, Set, Wrote;
      EffectBounds(i, registers, Memory());
      CheckedEffect(i, registers, Memory());
      ghost var x, m := Specials(registers[HiReg], registers[LoReg], registers[NextPCReg]), Memory();
      var a, b := registers[i.rs], registers[i.rt];
      var d, v := 0, 0;
      trap := None;
      match i.op {
        case ADD =>
          d, v := i.rd, Add(a, b);
          OverflowExact(a, b);
          if And(Xor(a, b), 0x8000_0000) == 0 && And(Xor(a, v), 0x8000_0000) != 0 { trap := Some(Mem.Overflow); }
        case ADDI =>
          d, v := i.rt, Add(a, i.extra);
          OverflowExact(a, i.extra);
          if And(Xor(a, i.extra), 0x8000_0000) == 0 && And(Xor(i.extra, v), 0x8000_0000) != 0 { trap := Some(Mem.Overflow); }
        case SUB =>
          d, v := i.rd, Sub(a, b);
          OverflowExact(a, b);
          if And(Xor(a, b), 0x8000_0000) != 0 && And(Xor(a, v), 0x8000_0000) != 0 { trap := Some(Mem.Overflow); }
        case SYSCALL => trap := Some(Mem.Syscall);
        case UNIMP => trap := Some(Mem.IllegalInstr);
        case RES => trap := Some(Mem.IllegalInstr);
      }
      ghost var e := EffectOf(i, registers, m);
      assert e == if trap.Some? then Trap(trap.value, 0, m) else Set(d, v, x, m);
      SetWrites(registers, d, v, x, m);
      if trap.Some? {
        RaiseException(0);
      } else {
        Put(d, v);
      }
    }

    method Arithmetic(i: Instr)
      requires Valid() && registers[LoadReg] < 32 && GoodInstr(i)
      requires !IsJump(i.op) && !IsAccess(i.op) && !IsMultiply(i.op) && !MayTrap(i.op)
      modifies this`registers
      ensures Valid()
      ensures var e := EffectOf(i, old(registers), Memory());
              && (e.Done? && e.dest.Some? ==> e.dest.value < 32)
              && Matches(e, old(registers), registers, Memory(), None, Add(old(registers)[NextPCReg], 4), 0, 0)
    {
      hide Add, Sub, And, Or, Xor, Nor, ShiftLeft, ShiftRight, Pow2, Signed, Sign, Set, Wrote;
      EffectBounds(i, registers, Memory());
      ghost var x, m := Specials(registers[HiReg], registers[LoReg], registers[NextPCReg]), Memory();
      var a, b := registers[i.rs], registers[i.rt];
      var d, v;
      var imm, amount := And(i.extra, 0xffff), And(a, 0x1f);
      MaskedFields(i.extra, a);
      match i.op {
        case ADDIU => d, v := i.rt, Add(a, i.extra);
        case ADDU => d, v := i.rd, Add(a, b);
        case AND => d, v := i.rd, And(a, b);
        case ANDI => d, v := i.rt, And(a, imm);
        case LUI => d, v := i.rt, ShiftLeft(i.extra, 16);
        case MFHI => d, v := i.rd, registers[HiReg];
        case MFLO => d, v := i.rd, registers[LoReg];
        case NOR => d, v := i.rd, Nor(a, b);
        case OR => d, v := i.rd, Or(a, b);
        case ORI => d, v := i.rt, Or(a, imm);
        case SLL => d, v := i.rd, ShiftLeft(b, i.extra);
        case SLLV => d, v := i.rd, ShiftLeft(b, amount);
        case SLT => d, v := i.rd, Bit(Signed(a) < Signed(b));
        case SLTI => d, v := i.rt, Bit(Signed(a) < Signed(i.extra));
        case SLTIU => d, v := i.rt, Bit(a < i.extra);
        case SLTU => d, v := i.rd, Bit(a < b);
        case SRA => d, v := i.rd, ShiftRight(b, i.extra);
        case SRAV => d, v := i.rd, ShiftRight(b, amount);
        case SRL => d, v := i.rd, ShiftRight(b, i.extra);
        case SRLV => d, v := i.rd, ShiftRight(b, amount);
        case SUBU => d, v := i.rd, Sub(a, b);
        case XOR => d, v := i.rd, Xor(a, b);
        case XORI => d, v := i.rt, Xor(a, imm);
      }
      assert EffectOf(i, registers, m) == Set(d, v, x, m);
      hide EffectOf;
      SetWrites(registers, d, v, x, m);
      Put(d, v);
    }

    method PutHiLo(hi: word, lo: word)
      requires Valid()
      modifies this`registers
      ensures registers == Written(old(registers), None, 0)[HiReg := hi][LoReg := lo]
    {
      registers := registers[LoReg := lo];
      registers := registers[HiReg := hi];
      assert registers == old(registers)[HiReg := hi][LoReg := lo];
    }

    method MultiplyDivide(i: Instr)
      requires Valid() && registers[LoadReg] < 32 && GoodInstr(i) && IsMultiply(i.op)
      modifies this`registers
      ensures Valid()
      ensures var e := EffectOf(i, old(registers), Memory());
              && (e.Done? && e.dest.Some? ==> e.dest.value < 32)
              && Matches(e, old(registers), registers, Memory(), None, Add(old(registers)[NextPCReg], 4), 0, 0)
    {
      hide Add, Pow2, Sign, Product, Quotient, Remainder, UnsignedQuotient, UnsignedRemainder, HiLo, Wrote;
      EffectBounds(i, registers, Memory());
      ghost var x, m := Specials(registers[HiReg], registers[LoReg], registers[NextPCReg]), Memory();
      var a, b := registers[i.rs], registers[i.rt];
      var hi, lo := 0, 0;
      match i.op {
        case DIV =>
          if b != 0 {
            hi, lo := Remainder(Signed(a), Signed(b)) % Word, Quotient(Signed(a), Signed(b)) % Word;
          }
        case DIVU =>
          if b != 0 {
            hi, lo := UnsignedRemainder(a, b), UnsignedQuotient(a, b);
          }
        case MTHI => hi, lo := a, registers[LoReg];
        case MTLO => hi, lo := registers[HiReg], a;
        case MULT =>
          var h, l := Mult(Signed(a), Signed(b), true);
          MultIsProduct(a, b, true, h, l);
          hi, lo := Unsigned(h), Unsigned(l);
        case MULTU =>
          var h, l := Mult(Signed(a), Signed(b), false);
          MultIsProduct(a, b, false, h, l);
          hi, lo := Unsigned(h), Unsigned(l);
      }
      assert EffectOf(i, registers, m) == HiLo(hi, lo, x, m);
      hide EffectOf;
      HiLoWrites(registers, hi, lo, x, m);
      PutHiLo(hi, lo);
    }

    method Jump(i: Instr) returns (pcAfter: word)
      requires Valid() && registers[LoadReg] < 32 && GoodInstr(i) && IsJump(i.op)
      modifies this`registers
      ensures Valid()
      ensures var e := EffectOf(i, old(registers), Memory());
              && (e.Done? && e.dest.Some? ==> e.dest.value < 32)
              && Matches(e, old(registers), registers, Memory(), None, pcAfter, 0, 0)
    {
      hide Add, ShiftLeft, Pow2, Signed, Sign, And, Or;
      EffectBounds(i, registers, Memory());
      NoChange(registers);
      TargetBits(i, Add(registers[NextPCReg], 4));
      SignBit(registers[i.rs]);
      SignBit(Add(registers[NextPCReg], 4));
      ghost var x := Specials(registers[HiReg], registers[LoReg], registers[NextPCReg]);
      pcAfter := Add(registers[NextPCReg], 4);
      var branch := Add(registers[NextPCReg], ShiftLeft(i.extra, 2));
      match i.op
      case BEQ => if registers[i.rs] == registers[i.rt] { pcAfter := branch; }
      case BGEZ => if And(registers[i.rs], 0x8000_0000) == 0 { pcAfter := branch; }
      case BGEZAL =>
        Put(31, Add(registers[NextPCReg], 4));
        if And(registers[i.rs], 0x8000_0000) == 0 { pcAfter := branch; }
      case BGTZ => if Signed(registers[i.rs]) > 0 { pcAfter := branch; }
      case BLEZ => if Signed(registers[i.rs]) <= 0 { pcAfter := branch; }
      case BLTZ => if And(registers[i.rs], 0x8000_0000) != 0 { pcAfter := branch; }
      case BLTZAL =>
        Put(31, Add(registers[NextPCReg], 4));
        if And(registers[i.rs], 0x8000_0000) != 0 { pcAfter := branch; }
      case BNE => if registers[i.rs] != registers[i.rt] { pcAfter := branch; }
      case J => pcAfter := Or(And(pcAfter, 0xf000_0000), ShiftLeft(i.extra, 2));
      case JAL =>
        Put(31, Add(registers[NextPCReg], 4));
        pcAfter := Or(And(pcAfter, 0xf000_0000), ShiftLeft(i.extra, 2));
      case JALR =>
        Put(i.rd, Add(registers[NextPCReg], 4));
        pcAfter := registers[i.rs];
      case JR => pcAfter := registers[i.rs];
    }

    /** LB, LBU, LH, LHU and LW leave a delayed load to do. */
    method Load(i: Instr) returns (trap: Option<Mem.Exception>, nextReg: word, nextValue: word)
      requires Valid() && registers[LoadReg] < 32 && GoodInstr(i) && i.op in {LB, LBU, LH, LHU, LW}
      modifies this`registers, table
      ensures Valid()
      ensures var e := EffectOf(i, old(registers), old(Memory()));
              && (e.Done? && e.dest.Some? ==> e.dest.value < 32)
              && Matches(e, old(registers), registers, Memory(), trap, Add(old(registers)[NextPCReg], 4), nextReg, nextValue)
    {
      hide EffectOf, Add, And, Mem.Read, Matches, Extended, Cpu.DelayedLoad, Loading;
      ghost var s, m, x := registers, Memory(), Specials(registers[HiReg], registers[LoReg], registers[NextPCReg]);
      ghost var e := EffectOf(i, s, m);
      LoadEffect(i, s, m);
      nextReg, nextValue := 0, 0;
      var tmp := Add(registers[i.rs], i.extra);
      var size := if i.op == LW then 4 else if i.op == LH || i.op == LHU then 2 else 1;
      LowBits(tmp);
      if (size == 2 && And(tmp, 1) != 0) || (size == 4 && And(tmp, 3) != 0) {
        RaiseException(tmp);
        trap := Some(Mem.AddressError);
        TrapMatches(s, e, 0, 0);
        return;
      }
      var value;
      value, trap := ReadMem(tmp, size);
      if trap.None? {
        nextReg, nextValue := i.rt, Extended(value, size, i.op == LB || i.op == LH);
        ExtendedIs(value, size, i.op == LB || i.op == LH);
        LoadMatches(s, nextReg, nextValue, x, Memory());
      } else {
        TrapMatches(s, e, 0, 0);
      }
    }

    method Store(i: Instr) returns (trap: Option<Mem.Exception>)
      requires Valid() && registers[LoadReg] < 32 && GoodInstr(i) && i.op in {SB, SH, SW}
      modifies this`registers, table, mainMemory
      ensures Valid()
      ensures var e := EffectOf(i, old(registers), old(Memory()));
              && (e.Done? && e.dest.Some? ==> e.dest.value < 32)
              && Matches(e, old(registers), registers, Memory(), trap, Add(old(registers)[NextPCReg], 4), 0, 0)
    {
      hide EffectOf, Add, Mem.Write, Matches, Cpu.DelayedLoad, Loading, Nothing;
      ghost var s, m, x := registers, Memory(), Specials(registers[HiReg], registers[LoReg], registers[NextPCReg]);
      ghost var e := EffectOf(i, s, m);
      StoreEffect(i, s, m);
      trap := WriteMem(Add(registers[i.rs], i.extra), if i.op == SB then 1 else if i.op == SH then 2 else 4, registers[i.rt]);
      if trap.None? {
        LoadMatches(s, 0, 0, x, Memory());
      } else {
        TrapMatches(s, e, 0, 0);
      }
    }

    method PartialLoad(i: Instr) returns (trap: Option<Mem.Exception>, nextReg: word, nextValue: word)
      requires Valid() && registers[LoadReg] < 32 && GoodInstr(i) && i.op in {LWL, LWR}
      modifies this`registers, table
      ensures Valid()
      ensures var e := EffectOf(i, old(registers), old(Memory()));
              && (e.Done? && e.dest.Some? ==> e.dest.value < 32)
              && Matches(e, old(registers), registers, Memory(), trap, Add(old(registers)[NextPCReg], 4), nextReg, nextValue)
    {
      hide EffectOf, Add, And, Mem.Read, Matches, LeftMerged, RightMerged, Cpu.DelayedLoad, Loading, LoadPart;
      ghost var s, m, x := registers, Memory(), Specials(registers[HiReg], registers[LoReg], registers[NextPCReg]);
      ghost var e := EffectOf(i, s, m);
      PartialLoadEffect(i, s, m);
      nextReg, nextValue := 0, 0;
      var tmp := Add(registers[i.rs], i.extra);
      var byte := And(tmp, 3);
      LoadPartIs(i, s[i.rs], Merge(s, i.rt), x, m, byte);
      var value;
      value, trap := ReadMem(tmp - byte, 4);
      if trap.None? {
        nextReg := i.rt;
        nextValue := if registers[LoadReg] == i.rt then registers[LoadValueReg] else registers[i.rt];
        if i.op == LWL {
          nextValue := MergeLeft(nextValue, value, byte);
        } else {
          nextValue := MergeRight(nextValue, value, byte);
        }
        LoadMatches(s, nextReg, nextValue, x, Memory());
      } else {
        TrapMatches(s, e, 0, 0);
      }
    }

    method PartialStore(i: Instr) returns (trap: Option<Mem.Exception>)
      requires Valid() && registers[LoadReg] < 32 && GoodInstr(i) && i.op in {SWL, SWR}
      modifies this`registers, table, mainMemory
      ensures Valid()
      ensures var e := EffectOf(i, old(registers), old(Memory()));
              && (e.Done? && e.dest.Some? ==> e.dest.value < 32)
              && Matches(e, old(registers), registers, Memory(), trap, Add(old(registers)[NextPCReg], 4), 0, 0)
    {
      hide EffectOf, Add, And, Mem.Read, Mem.Write, Matches, LeftStored, RightStored, Cpu.DelayedLoad, Loading, Nothing, StorePart;
      ghost var s, m, x := registers, Memory(), Specials(registers[HiReg], registers[LoReg], registers[NextPCReg]);
      ghost var e := EffectOf(i, s, m);
      PartialStoreEffect(i, s, m);
      var tmp := Add(registers[i.rs], i.extra);
      var byte := And(tmp, 3);
      StorePartIs(i, s[i.rs], s[i.rt], x, m, byte);
      var value;
      value, trap := ReadMem(tmp - byte, 4);
      if trap.None? {
        var reg := registers[i.rt];
        if i.op == SWL {
          value := StoreLeft(value, reg, byte);
        } else {
          value := StoreRight(value, reg, byte);
        }
        trap := WriteMem(tmp - byte, 4, value);
      }
      if trap.None? {
        LoadMatches(s, 0, 0, x, Memory());
      } else {
        TrapMatches(s, e, 0, 0);
      }
    }

    /** One instruction of the user program, up to the call of the kernel's handler if it traps. */
    method OneInstruction() returns (trap: Option<Mem.Exception>)
      requires Valid() && Boundary(Value())
      modifies this`registers, table, mainMemory
      ensures Valid() && (Value(), trap) == Attempt(old(Value()))
    {
      hide EffectOf, Mem.Read, Decode;
      ghost var s := Value();
      var raw;
      raw, trap := ReadMem(registers[PCReg], 4);
      if trap.Some? {
        return;
      }
      var i := DecodeBits(raw);
      ghost var e := EffectOf(i, registers, Memory());
      EffectBounds(i, registers, Memory());
      var pcAfter := Add(registers[NextPCReg], 4);
      var nextLoadReg, nextLoadValue := 0, 0;
      if IsJump(i.op) {
        pcAfter := Jump(i);
      } else if i.op in {LB, LBU, LH, LHU, LW} {
        trap, nextLoadReg, nextLoadValue := Load(i);
      } else if i.op in {SB, SH, SW} {
        trap := Store(i);
      } else if i.op in {LWL, LWR} {
        trap, nextLoadReg, nextLoadValue := PartialLoad(i);
      } else if i.op in {SWL, SWR} {
        trap := PartialStore(i);
      } else if IsMultiply(i.op) {
        MultiplyDivide(i);
      } else if MayTrap(i.op) {
        trap := Checked(i);
      } else {
        Arithmetic(i);
      }
      assert Matches(e, s.regs, registers, Memory(), trap, pcAfter, nextLoadReg, nextLoadValue);
      if trap.Some? {
        return;
      }
      DelayedLoad(nextLoadReg, nextLoadValue);
      registers := registers[PrevPCReg := registers[PCReg]];
      registers := registers[PCReg := registers[NextPCReg]];
      registers := registers[NextPCReg := pcAfter];
    }
  }

  /** The effect of each kind of memory access. */
  lemma LoadEffect(i: Instr, regs: seq<word>, m: Mem.State)
    requires |regs| == NumTotalRegs && |m.bytes| == Mem.MemorySize && GoodInstr(i) && i.op in {LB, LBU, LH, LHU, LW}
    ensures var x, a := Specials(regs[HiReg], regs[LoReg], regs[NextPCReg]), regs[i.rs];
            EffectOf(i, regs, m) ==
            if i.op == LW then LoadWord(i, a, x, m)
            else if i.op == LH || i.op == LHU then LoadHalf(i, a, x, m)
            else LoadByte(i, a, x, m)
  {
    hide LoadByte, LoadHalf, LoadWord, LoadPart, Storing, StorePart, Merge;
    hide Add, Sub, And, Or, Xor, Nor, ShiftLeft, ShiftRight, Quotient, Remainder, Product, Pow2, Signed, Sign, Set, Branch, HiLo;
  }

  lemma StoreEffect(i: Instr, regs: seq<word>, m: Mem.State)
    requires |regs| == NumTotalRegs && |m.bytes| == Mem.MemorySize && GoodInstr(i) && i.op in {SB, SH, SW}
    ensures var x, a, b := Specials(regs[HiReg], regs[LoReg], regs[NextPCReg]), regs[i.rs], regs[i.rt];
            EffectOf(i, regs, m) == Storing(if i.op == SB then 1 else if i.op == SH then 2 else 4, i, a, b, x, m)
  {
    hide LoadByte, LoadHalf, LoadWord, LoadPart, Storing, StorePart, Merge;
    hide Add, Sub, And, Or, Xor, Nor, ShiftLeft, ShiftRight, Quotient, Remainder, Product, Pow2, Signed, Sign, Set, Branch, HiLo;
  }

  lemma PartialLoadEffect(i: Instr, regs: seq<word>, m: Mem.State)
    requires |regs| == NumTotalRegs && |m.bytes| == Mem.MemorySize && GoodInstr(i) && i.op in {LWL, LWR}
    ensures var x, a := Specials(regs[HiReg], regs[LoReg], regs[NextPCReg]), regs[i.rs];
            EffectOf(i, regs, m) == LoadPart(i, a, Merge(regs, i.rt), x, m)
  {
    hide LoadByte, LoadHalf, LoadWord, LoadPart, Storing, StorePart, Merge;
    hide Add, Sub, And, Or, Xor, Nor, ShiftLeft, ShiftRight, Quotient, Remainder, Product, Pow2, Signed, Sign, Set, Branch, HiLo;
  }

  lemma PartialStoreEffect(i: Instr, regs: seq<word>, m: Mem.State)
    requires |regs| == NumTotalRegs && |m.bytes| == Mem.MemorySize && GoodInstr(i) && i.op in {SWL, SWR}
    ensures var x, a, b := Specials(regs[HiReg], regs[LoReg], regs[NextPCReg]), regs[i.rs], regs[i.rt];
            EffectOf(i, regs, m) == StorePart(i, a, b, x, m)
  {
    hide LoadByte, LoadHalf, LoadWord, LoadPart, Storing, StorePart, Merge;
    hide Add, Sub, And, Or, Xor, Nor, ShiftLeft, ShiftRight, Quotient, Remainder, Product, Pow2, Signed, Sign, Set, Branch, HiLo;
  }

  /** The parts of a partial access, with the byte offset found by a mask. */
  lemma LoadPartIs(i: Instr, a: word, kept: word, x: Specials, m: Mem.State, byte: nat)
    requires |m.bytes| == Mem.MemorySize && byte == And(Add(a, i.extra), 3)
    ensures byte < 4 && byte <= Add(a, i.extra)
    ensures var (v, m') := Mem.Read(m, Add(a, i.extra) - byte, 4);
            LoadPart(i, a, kept, x, m) ==
            if v.Err? then Trap(v.exception, Add(a, i.extra) - byte, m)
            else Loading(i.rt, if i.op == LWL then LeftMerged(kept, v.value, byte) else RightMerged(kept, v.value, byte), x, m')
  {
    LowBits(Add(a, i.extra));
    hide And, Add, Mem.Read, LeftMerged, RightMerged, Loading;
  }

  lemma StorePartIs(i: Instr, a: word, b: word, x: Specials, m: Mem.State, byte: nat)
    requires |m.bytes| == Mem.MemorySize && byte == And(Add(a, i.extra), 3)
    ensures byte < 4 && byte <= Add(a, i.extra)
    ensures var (v, m') := Mem.Read(m, Add(a, i.extra) - byte, 4);
            && |m'.bytes| == Mem.MemorySize
            && StorePart(i, a, b, x, m) ==
               if v.Err? then Trap(v.exception, Add(a, i.extra) - byte, m)
               else
                 var w := Mem.Write(m', Add(a, i.extra) - byte, 4,
                                    if i.op == SWL then LeftStored(v.value, b, byte) else RightStored(v.value, b, byte));
                 if w.Err? then Trap(w.exception, Add(a, i.extra) - byte, m') else Nothing(x, w.value)
  {
    LowBits(Add(a, i.extra));
    hide And, Add, Mem.Translate, Mem.Load, Mem.Touched, Mem.Write, LeftStored, RightStored, Nothing;
  }

  /** The effect of an instruction that may trap without touching memory. */
  lemma CheckedEffect(i: Instr, regs: seq<word>, m: Mem.State)
    requires |regs| == NumTotalRegs && |m.bytes| == Mem.MemorySize && GoodInstr(i) && MayTrap(i.op)
    ensures var x, a, b := Specials(regs[HiReg], regs[LoReg], regs[NextPCReg]), regs[i.rs], regs[i.rt];
            EffectOf(i, regs, m) ==
            match i.op
            case ADD => if SumOverflows(a, b) then Trap(Mem.Overflow, 0, m) else Set(i.rd, Add(a, b), x, m)
            case ADDI => if SumOverflows(a, i.extra) then Trap(Mem.Overflow, 0, m) else Set(i.rt, Add(a, i.extra), x, m)
            case SUB => if DifferenceOverflows(a, b) then Trap(Mem.Overflow, 0, m) else Set(i.rd, Sub(a, b), x, m)
            case SYSCALL => Trap(Mem.Syscall, 0, m)
            case _ => Trap(Mem.IllegalInstr, 0, m)
  {
    hide LoadByte, LoadHalf, LoadWord, LoadPart, Storing, StorePart, Merge, SumOverflows, DifferenceOverflows;
    hide Add, Sub, And, Or, Xor, Nor, ShiftLeft, ShiftRight, Quotient, Remainder, Product, Pow2, Signed, Sign, Set, Branch, HiLo;
  }

  lemma SetWrites(regs: seq<word>, d: nat, v: word, x: Specials, m: Mem.State)
    requires |regs| == NumTotalRegs && d < 32 && x == Specials(regs[HiReg], regs[LoReg], regs[NextPCReg])
    ensures var e := Set(d, v, x, m);
            && e.dest == Some(d) && e.mem == m && e.pcAfter == Add(regs[NextPCReg], 4) && e.loadReg == 0 && e.loadValue == 0
            && Wrote(regs, e) == regs[d := v]
  {
    hide Add;
  }

  lemma HiLoWrites(regs: seq<word>, hi: word, lo: word, x: Specials, m: Mem.State)
    requires |regs| == NumTotalRegs && x == Specials(regs[HiReg], regs[LoReg], regs[NextPCReg])
    ensures var e := HiLo(hi, lo, x, m);
            && e.dest == None && e.mem == m && e.pcAfter == Add(regs[NextPCReg], 4) && e.loadReg == 0 && e.loadValue == 0
            && Wrote(regs, e) == Written(regs, None, 0)[HiReg := hi][LoReg := lo]
  {
    hide Add;
  }

  /** What is left by an access that traps, and by one that does not: a load is then pending
      for r, or none, when r and v are zero. */
  lemma TrapMatches(regs: seq<word>, e: Effect, nextReg: word, nextValue: word)
    requires |regs| == NumTotalRegs && regs[LoadReg] < 32 && e.Trap?
    ensures Matches(e, regs, Cpu.DelayedLoad(regs[BadVAddrReg := e.badVAddr], 0, 0), e.mem, Some(e.exception),
                    Add(regs[NextPCReg], 4), nextReg, nextValue)
  {
  }

  lemma LoadMatches(regs: seq<word>, r: word, v: word, x: Specials, m: Mem.State)
    requires |regs| == NumTotalRegs && regs[LoadReg] < 32 && x == Specials(regs[HiReg], regs[LoReg], regs[NextPCReg])
    ensures Loading(r, v, x, m).dest == None
    ensures Matches(Loading(r, v, x, m), regs, regs, m, None, Add(regs[NextPCReg], 4), r, v)
    ensures Loading(0, 0, x, m) == Nothing(x, m)
  {
    hide Add;
    NoChange(regs);
  }

  lemma NoChange(regs: seq<word>)
    requires |regs| == NumTotalRegs
    ensures Written(regs, None, 0)[HiReg := regs[HiReg]][LoReg := regs[LoReg]] == regs
  {
  }
}
