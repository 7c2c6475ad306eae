/** Running instructions: delayed loads, exceptions, and what an interrupt between two
    instructions does to them. */
module Cpu {
  import opened Options
  import opened Bytes
  import opened Words
  import opened Multiply
  import opened Mips
  import Mem = Memory

  datatype State = State(regs: seq<word>, mem: Mem.State)

  /** What holds at every instruction boundary: R0 is zero, and a load is pending for a
      general register. */
  predicate Boundary(s: State) {
    && |s.regs| == NumTotalRegs && |s.mem.bytes| == Mem.MemorySize
    && s.regs[0] == 0 && s.regs[LoadReg] < 32
  }

  function DelayedLoad(regs: seq<word>, nextReg: word, nextValue: word): (r: seq<word>)
    requires |regs| == NumTotalRegs && regs[LoadReg] < 32
    ensures |r| == NumTotalRegs
  {
    regs[regs[LoadReg] := regs[LoadValueReg]][LoadReg := nextReg][LoadValueReg := nextValue][0 := 0]
  }

  /** What an interrupt does to the registers before its handler runs. */
  function Flush(s: State): (t: State)
    requires Boundary(s)
    ensures Boundary(t)
  {
    s.(regs := DelayedLoad(s.regs, 0, 0))
  }

  /** The kernel's exception handler: any change of state that leaves a proper boundary. */
  type Handler = (Mem.Exception, State) -> State

  ghost predicate KeepsBoundary(h: Handler) {
    forall e, s | Boundary(s) :: Boundary(h(e, s))
  }

  function Merge(regs: seq<word>, rt: nat): word
    requires |regs| == NumTotalRegs && rt < 32
  {
    if regs[LoadReg] == rt then regs[LoadValueReg] else regs[rt]
  }

  function EffectOf(i: Instr, regs: seq<word>, m: Mem.State): Effect
    requires |regs| == NumTotalRegs && |m.bytes| == Mem.MemorySize && GoodInstr(i)
  {
    Execute(i, regs[i.rs], regs[i.rt], Merge(regs, i.rt), Specials(regs[HiReg], regs[LoReg], regs[NextPCReg]), m)
  }

  function Written(regs: seq<word>, dest: Option<nat>, value: word): (r: seq<word>)
    requires |regs| == NumTotalRegs && (dest.Some? ==> dest.value < 32)
    ensures |r| == NumTotalRegs
  {
    if dest.Some? then regs[dest.value := value] else regs
  }

  function Advance(regs: seq<word>, pcAfter: word): (r: seq<word>)
    requires |regs| == NumTotalRegs
    ensures |r| == NumTotalRegs
  {
    regs[PrevPCReg := regs[PCReg]][PCReg := regs[NextPCReg]][NextPCReg := pcAfter]
  }

  predicate GoodEffect(e: Effect) {
    && |e.mem.bytes| == Mem.MemorySize
    && (e.Done? ==> e.loadReg < 32 && (e.dest.Some? ==> e.dest.value < 32))
  }

  /** The registers after an instruction that did not trap. */
  function Retire(regs: seq<word>, e: Effect): (r: seq<word>)
    requires |regs| == NumTotalRegs && regs[LoadReg] < 32 && e.Done? && GoodEffect(e)
    ensures |r| == NumTotalRegs
  {
    var r := Written(regs, e.dest, e.value)[HiReg := e.hi][LoReg := e.lo];
    Advance(DelayedLoad(r, e.loadReg, e.loadValue), e.pcAfter)
  }

  lemma EffectBounds(i: Instr, regs: seq<word>, m: Mem.State)
    requires |regs| == NumTotalRegs && |m.bytes| == Mem.MemorySize && GoodInstr(i)
    ensures GoodEffect(EffectOf(i, regs, m))
  {
    hide Execute;
    var x := Specials(regs[HiReg], regs[LoReg], regs[NextPCReg]);
    KeepsMemory(i, regs[i.rs], regs[i.rt], Merge(regs, i.rt), x, m);
    if EffectOf(i, regs, m).Done? {
      WritesOnly(i, regs[i.rs], regs[i.rt], Merge(regs, i.rt), x, m);
    }
  }

  lemma KeepsMemory(i: Instr, a: word, b: word, merge: word, x: Specials, m: Mem.State)
    requires |m.bytes| == Mem.MemorySize
    ensures |Execute(i, a, b, merge, x, m).mem.bytes| == Mem.MemorySize
  {
    hide Add, Sub, And, Or, Xor, Nor, ShiftLeft, ShiftRight, Quotient, Remainder, Product, Pow2, Signed, Sign;
    hide LeftMerged, RightMerged, LeftStored, RightStored, Mem.Translate, Mem.Touched;
  }

  /** The state as RaiseException hands it to the kernel. */
  function Trapped(s: State, badVAddr: word): State
    requires Boundary(s)
  {
    s.(regs := DelayedLoad(s.regs[BadVAddrReg := badVAddr], 0, 0))
  }

  /** The registers and memory once the effect of an instruction is known. */
  function Finish(s: State, e: Effect): (State, Option<Mem.Exception>)
    requires Boundary(s) && GoodEffect(e)
  {
    if e.Trap? then (Trapped(s.(mem := e.mem), e.badVAddr), Some(e.exception))
    else (State(Retire(s.regs, e), e.mem), None)
  }

  /** One instruction, up to the call of the kernel's handler if it traps. */
  function Attempt(s: State): (State, Option<Mem.Exception>)
    requires Boundary(s)
  {
    hide Execute;
    match Mem.Read(s.mem, s.regs[PCReg], 4)
    case (Err(e), _) => (Trapped(s, s.regs[PCReg]), Some(e))
    case (Ok(raw), m) =>
      EffectBounds(Decode(raw), s.regs, m);
      Finish(s, EffectOf(Decode(raw), s.regs, m))
  }

  /** One instruction, and the kernel's handler if it traps. */
  function Step(s: State, h: Handler): State
    requires Boundary(s)
  {
    match Attempt(s)
    case (t, None) => t
    case (t, Some(e)) => h(e, t)
  }

  // -------------------------------------------------------------- hazards

  /** The instruction about to execute, unless fetching it faults. */
  function Fetch(s: State): Option<Instr>
    requires Boundary(s)
  {
    match Mem.Read(s.mem, s.regs[PCReg], 4)
    case (Err(_), _) => None
    case (Ok(raw), _) => Some(Decode(raw))
  }

  /** The instruction only computes a value for R0, which stays zero. */
  predicate Discards(i: Instr) {
    && Writes(i) == Some(0)
    && i.op !in {ADD, ADDI, SUB, JAL, JALR, BGEZAL, BLTZAL}
  }

  /** The instruction combines a register with itself so that its value does not matter. */
  predicate Cancels(i: Instr) {
    i.rs == i.rt && i.op in {SUB, SUBU, XOR, SLT, SLTU, BEQ, BNE}
  }

  predicate ReadsRegister(i: Instr, r: nat) {
    (ReadsRs(i.op) && i.rs == r) || (ReadsRt(i.op) && i.rt == r)
  }

  /** The instruction does not depend on a register whose load is still pending, except to
      merge with it, and does not write it other than by a load. */
  predicate Tolerates(i: Instr, pending: nat) {
    || pending == 0
    || Discards(i)
    || ((ReadsRegister(i, pending) ==> Cancels(i)) && Writes(i) != Some(pending))
  }

  predicate HazardFree(s: State)
    requires Boundary(s)
  {
    Fetch(s).Some? ==> Tolerates(Fetch(s).value, s.regs[LoadReg])
  }

  /** The state with the value of a load pending for R0, which is never seen, erased. */
  function Normal(s: State): State
    requires Boundary(s)
  {
    if s.regs[LoadReg] == 0 then s.(regs := s.regs[LoadValueReg := 0]) else s
  }

  lemma FlushBoundary(s: State)
    requires Boundary(s)
    ensures Boundary(Flush(s)) && Flush(s).mem == s.mem && Flush(s).regs[LoadReg] == 0
    ensures forall r | 0 <= r < NumTotalRegs && r != s.regs[LoadReg] && r != LoadReg && r != LoadValueReg ::
              Flush(s).regs[r] == s.regs[r]
    ensures s.regs[LoadReg] != 0 ==> Flush(s).regs[s.regs[LoadReg]] == s.regs[LoadValueReg]
    ensures Flush(Flush(s)) == Flush(s) && Normal(Flush(s)) == Flush(s)
  {
  }

  lemma FinishBoundary(s: State, e: Effect)
    requires Boundary(s) && GoodEffect(e)
    ensures Boundary(Finish(s, e).0)
  {
  }

  lemma AttemptBoundary(s: State)
    requires Boundary(s)
    ensures Boundary(Attempt(s).0)
  {
    hide EffectOf, Finish, GoodEffect;
    match Mem.Read(s.mem, s.regs[PCReg], 4)
    case (Err(e), _) =>
    case (Ok(raw), m) =>
      EffectBounds(Decode(raw), s.regs, m);
      FinishBoundary(s, EffectOf(Decode(raw), s.regs, m));
  }

  /** The instruction fetched, before and after a flush, and its effect on the memory that
      fetching it leaves. */
  lemma AttemptIs(s: State, i: Instr, m: Mem.State)
    requires Boundary(s) && Fetch(s) == Some(i) && m == Mem.Read(s.mem, s.regs[PCReg], 4).1
    ensures GoodInstr(i) && |m.bytes| == Mem.MemorySize
    ensures GoodEffect(EffectOf(i, s.regs, m)) && Attempt(s) == Finish(s, EffectOf(i, s.regs, m))
    ensures GoodEffect(EffectOf(i, Flush(s).regs, m)) && Attempt(Flush(s)) == Finish(Flush(s), EffectOf(i, Flush(s).regs, m))
  {
    FlushBoundary(s);
    assert |m.bytes| == Mem.MemorySize;
    hide EffectOf, Finish, GoodEffect, Mem.Read;
    EffectBounds(i, s.regs, m);
    EffectBounds(i, Flush(s).regs, m);
  }

  lemma StepBoundary(s: State, h: Handler)
    requires Boundary(s) && KeepsBoundary(h)
    ensures Boundary(Step(s, h))
  {
    hide Attempt, Boundary;
    AttemptBoundary(s);
  }

  /** An interrupt just before the next instruction makes no difference to where it leads. */
  predicate Invisible(s: State)
    requires Boundary(s)
  {
    AttemptBoundary(s);
    AttemptBoundary(Flush(s));
    var (t, e), (t', e') := Attempt(s), Attempt(Flush(s));
    e' == e && Normal(t') == Normal(t)
  }

  /** A trap flushes the pending load, so a flush just before it makes no difference. */
  lemma TrapAfterFlush(s: State, badVAddr: word)
    requires Boundary(s)
    ensures Trapped(Flush(s), badVAddr) == Trapped(s, badVAddr)
  {
    assert Trapped(Flush(s), badVAddr).regs == Trapped(s, badVAddr).regs;
  }

  /** Effects that differ at most in what they put into R0. */
  predicate AlmostSame(e: Effect, f: Effect) {
    || f == e
    || (&& e.Done? && f.Done? && f == e.(value := f.value, loadValue := f.loadValue)
        && (f.value == e.value || e.dest == Some(0)) && (f.loadValue == e.loadValue || e.loadReg == 0))
  }

  /** Flushing does not change the effect of an instruction that tolerates the pending load,
      except perhaps what goes into R0. */
  lemma EffectAfterFlush(s: State, i: Instr, m: Mem.State)
    requires Boundary(s) && |m.bytes| == Mem.MemorySize && GoodInstr(i) && Tolerates(i, s.regs[LoadReg])
    ensures AlmostSame(EffectOf(i, s.regs, m), EffectOf(i, Flush(s).regs, m))
  {
    hide Execute;
    FlushBoundary(s);
    var r, r' := s.regs, Flush(s).regs;
    var x := Specials(r[HiReg], r[LoReg], r[NextPCReg]);
    if Discards(i) {
      DiscardedEffect(i, r[i.rs], r[i.rt], Merge(r, i.rt), r'[i.rs], r'[i.rt], Merge(r', i.rt), x, m);
    } else if Cancels(i) {
      CancelledEffect(i, r[i.rs], Merge(r, i.rt), r'[i.rs], Merge(r', i.rt), x, m);
    } else if Merges(i.op) && i.rt == 0 {
      MergeIntoZero(i, r[i.rs], r[i.rt], Merge(r, i.rt), Merge(r', i.rt), x, m);
      ReadsOnly(i, r[i.rs], r[i.rt], Merge(r', i.rt), r'[i.rs], r'[i.rt], Merge(r', i.rt), x, m);
    } else {
      ReadsOnly(i, r[i.rs], r[i.rt], Merge(r, i.rt), r'[i.rs], r'[i.rt], Merge(r', i.rt), x, m);
    }
  }

  lemma DiscardedEffect(i: Instr, a: word, b: word, merge: word, a': word, b': word, merge': word, x: Specials, m: Mem.State)
    requires |m.bytes| == Mem.MemorySize && Discards(i)
    ensures AlmostSame(Execute(i, a, b, merge, x, m), Execute(i, a', b', merge', x, m))
  {
    hide Execute;
    OnlyDiscards(i, a, b, merge, x, m);
    OnlyDiscards(i, a', b', merge', x, m);
  }

  lemma OnlyDiscards(i: Instr, a: word, b: word, merge: word, x: Specials, m: Mem.State)
    requires |m.bytes| == Mem.MemorySize && Discards(i)
    ensures var e := Execute(i, a, b, merge, x, m); e.Done? && e == Set(0, e.value, x, m)
  {
    hide Add, Sub, And, Or, Xor, Nor, ShiftLeft, ShiftRight, Pow2, Signed, Sign;
    hide Nothing, Branch, HiLo, SumOverflows, DifferenceOverflows, Mem.Read, Mem.Write, LoadByte, LoadHalf, LoadWord, LoadPart;
    hide Storing, StorePart, Quotient, Remainder, Product, Target;
  }

  lemma CancelledEffect(i: Instr, a: word, merge: word, a': word, merge': word, x: Specials, m: Mem.State)
    requires |m.bytes| == Mem.MemorySize && Cancels(i)
    ensures Execute(i, a', a', merge', x, m) == Execute(i, a, a, merge, x, m)
  {
    WithItself(a);
    WithItself(a');
    hide Add, Sub, And, Or, Xor, Nor, ShiftLeft, ShiftRight, Quotient, Remainder, Product, Pow2, Signed, Sign;
    hide Nothing, Set, Branch, HiLo, SumOverflows, DifferenceOverflows, Mem.Read, Mem.Write, LoadByte, LoadHalf, LoadWord, LoadPart;
  }

  lemma WithItself(a: word)
    ensures Sub(a, a) == 0 && !DifferenceOverflows(a, a) && Xor(a, a) == 0
  {
    XorCancels(a, 0);
    hide Xor;
  }

  lemma MergeIntoZero(i: Instr, a: word, b: word, merge: word, merge': word, x: Specials, m: Mem.State)
    requires |m.bytes| == Mem.MemorySize && Merges(i.op) && i.rt == 0
    ensures AlmostSame(Execute(i, a, b, merge, x, m), Execute(i, a, b, merge', x, m))
  {
    hide Add, LeftMerged, RightMerged, Mem.Read;
  }

  /** Two effects, one of them after a flush, lead to the same state up to a load into R0, or to
      the same trap. */
  predicate SameFinish(s: State, e: Effect, f: Effect)
    requires Boundary(s) && GoodEffect(e) && GoodEffect(f)
  {
    FinishBoundary(s, e);
    FinishBoundary(Flush(s), f);
    Finish(Flush(s), f).1 == Finish(s, e).1 && Normal(Finish(Flush(s), f).0) == Normal(Finish(s, e).0)
  }

  lemma FinishAfterFlush(s: State, e: Effect, f: Effect)
    requires Boundary(s) && GoodEffect(e) && GoodEffect(f) && AlmostSame(e, f)
    requires e.Done? ==> s.regs[LoadReg] == 0 || e.dest != Some(s.regs[LoadReg])
    ensures SameFinish(s, e, f) && (e.Trap? ==> Finish(Flush(s), f).0 == Finish(s, e).0)
  {
    if e.Trap? {
      TrapAfterFlush(s.(mem := e.mem), e.badVAddr);
    } else {
      RetireAfterFlush(s, e, f);
      hide Retire, AlmostSame, Flush;
    }
  }

  lemma RetireAfterFlush(s: State, e: Effect, f: Effect)
    requires Boundary(s) && e.Done? && f.Done? && GoodEffect(e) && GoodEffect(f) && AlmostSame(e, f)
    requires s.regs[LoadReg] == 0 || e.dest != Some(s.regs[LoadReg])
    ensures var t, t' := Retire(s.regs, e), Retire(Flush(s).regs, f);
            f.mem == e.mem && (t' == t || (t[LoadReg] == t'[LoadReg] == 0 && t' == t[LoadValueReg := t'[LoadValueReg]]))
  {
    var t, t' := Retire(s.regs, e), Retire(Flush(s).regs, f);
    FlushBoundary(s);
    assert forall r | 0 <= r < NumTotalRegs && r != LoadValueReg :: t'[r] == t[r];
  }

  /** One instruction from a state and from its flush: the same trap in the same state, or no
      trap and the same state up to a load into R0. */
  lemma AttemptAfterFlush(s: State)
    requires Boundary(s) && HazardFree(s)
    ensures Invisible(s)
    ensures Attempt(s).1.Some? ==> Attempt(Flush(s)).0 == Attempt(s).0
  {
    if Fetch(s).None? {
      FlushBoundary(s);
      TrapAfterFlush(s, s.regs[PCReg]);
    } else {
      var i, m := Fetch(s).value, Mem.Read(s.mem, s.regs[PCReg], 4).1;
      assert |m.bytes| == Mem.MemorySize;
      hide EffectOf, Attempt, Finish, GoodEffect, Mem.Read, AlmostSame, Decode;
      AttemptIs(s, i, m);
      EffectAfterFlush(s, i, m);
      if EffectOf(i, s.regs, m).Done? {
        DestIs(i, s.regs, m);
      }
      DiscardsZero(i);
      FinishAfterFlush(s, EffectOf(i, s.regs, m), EffectOf(i, Flush(s).regs, m));
      FinishTraps(s, EffectOf(i, s.regs, m));
    }
  }

  lemma DiscardsZero(i: Instr)
    ensures Discards(i) ==> Writes(i) == Some(0)
  {
  }

  lemma FinishTraps(s: State, e: Effect)
    requires Boundary(s) && GoodEffect(e)
    ensures Finish(s, e).1.Some? <==> e.Trap?
  {
  }

  lemma StepAfterFlush(s: State, h: Handler)
    requires Boundary(s) && KeepsBoundary(h) && HazardFree(s)
    ensures Boundary(Step(s, h)) && Boundary(Step(Flush(s), h))
    ensures Normal(Step(Flush(s), h)) == Normal(Step(s, h))
  {
    hide Attempt, HazardFree, Normal, Flush, Boundary;
    AttemptAfterFlush(s);
    StepBoundary(s, h);
    StepBoundary(Flush(s), h);
  }

  lemma DestIs(i: Instr, regs: seq<word>, m: Mem.State)
    requires |regs| == NumTotalRegs && |m.bytes| == Mem.MemorySize && GoodInstr(i) && EffectOf(i, regs, m).Done?
    ensures EffectOf(i, regs, m).dest == Writes(i)
  {
    hide Execute;
    WritesOnly(i, regs[i.rs], regs[i.rt], Merge(regs, i.rt), Specials(regs[HiReg], regs[LoReg], regs[NextPCReg]), m);
  }

  // -------------------------------------------------------------- runs

  /** n instructions, with no interrupts. */
  function Run(s: State, h: Handler, n: nat): (t: State)
    requires Boundary(s) && KeepsBoundary(h)
    ensures Boundary(t)
  {
    if n == 0 then s
    else
      hide Step;
      StepBoundary(Run(s, h, n - 1), h);
      Step(Run(s, h, n - 1), h)
  }

  /** The same, with an interrupt before the k-th instruction wherever at[k] says so. */
  function Interrupted(s: State, h: Handler, at: seq<bool>): (t: State)
    requires Boundary(s) && KeepsBoundary(h)
    ensures Boundary(t)
  {
    if at == [] then s
    else
      hide Step;
      var t := Interrupted(s, h, at[..|at| - 1]);
      FlushBoundary(t);
      var t' := if at[|at| - 1] then Flush(t) else t;
      StepBoundary(t', h);
      Step(t', h)
  }

  lemma NormalSame(s: State, t: State)
    requires Boundary(s) && Boundary(t) && Normal(t) == Normal(s)
    ensures Flush(t) == Flush(s) && (HazardFree(s) ==> HazardFree(t))
  {
    hide Mem.Read;
    forall r | 0 <= r < NumTotalRegs && r != LoadValueReg ensures t.regs[r] == s.regs[r] {
      assert Normal(t).regs[r] == Normal(s).regs[r];
    }
    assert s.regs[LoadReg] != 0 ==> t.regs == s.regs;
    assert Flush(t).regs == Flush(s).regs;
  }

  /** Where interrupts land is invisible to a program without load hazards: whatever the
      handler of its exceptions does, interrupts before any of its instructions leave the
      same registers and memory once the last pending load has been applied. */
  lemma {:induction false} InterruptsInvisible(s: State, h: Handler, at: seq<bool>)
    requires Boundary(s) && KeepsBoundary(h)
    requires forall k | 0 <= k < |at| :: HazardFree(Run(s, h, k))
    ensures Flush(Interrupted(s, h, at)) == Flush(Run(s, h, |at|))
    ensures Normal(Interrupted(s, h, at)) == Normal(Run(s, h, |at|))
  {
    hide Step, HazardFree, Flush, Normal, Boundary;
    if at != [] {
      var n := |at| - 1;
      InterruptsInvisible(s, h, at[..n]);
      var p, q := Run(s, h, n), Interrupted(s, h, at[..n]);
      NormalSame(p, q);
      StepAfterFlush(p, h);
      StepAfterFlush(q, h);
    }
    NormalSame(Run(s, h, |at|), Interrupted(s, h, at));
  }

  // -------------------------------------------------------------- what an instruction leaves

  /** The pending load is applied, over anything the instruction itself writes; its own load is
      left pending; the program counters move on through the delay slot. */
  lemma RegistersAfter(s: State, e: Effect)
    requires Boundary(s) && GoodEffect(e) && e.Done?
    ensures var t := Finish(s, e).0;
            && Finish(s, e).1 == None && Boundary(t) && t.mem == e.mem
            && t.regs[PrevPCReg] == s.regs[PCReg] && t.regs[PCReg] == s.regs[NextPCReg] && t.regs[NextPCReg] == e.pcAfter
            && t.regs[HiReg] == e.hi && t.regs[LoReg] == e.lo && t.regs[BadVAddrReg] == s.regs[BadVAddrReg]
            && t.regs[LoadReg] == e.loadReg && t.regs[LoadValueReg] == e.loadValue && t.regs[0] == 0
            && forall r | 0 < r < 32 ::
                 t.regs[r] == if r == s.regs[LoadReg] then s.regs[LoadValueReg]
                              else if e.dest == Some(r) then e.value
                              else s.regs[r]
  {
  }

  /** A trap changes nothing but to apply the pending load and record the address. */
  lemma RegistersAfterTrap(s: State, e: Effect)
    requires Boundary(s) && GoodEffect(e) && e.Trap?
    ensures var t := Finish(s, e).0;
            && Finish(s, e).1 == Some(e.exception) && Boundary(t) && t.mem == e.mem
            && t.regs[BadVAddrReg] == e.badVAddr && t.regs[LoadReg] == 0 && t.regs[LoadValueReg] == 0 && t.regs[0] == 0
            && (forall r | r in {HiReg, LoReg, PCReg, NextPCReg, PrevPCReg} :: t.regs[r] == s.regs[r])
            && forall r | 0 < r < 32 :: t.regs[r] == if r == s.regs[LoadReg] then s.regs[LoadValueReg] else s.regs[r]
  {
  }

  /** A load reaches its register one instruction late: not at once, but before the instruction
      after the next, whatever the next one does. */
  lemma LoadIsDelayed(s: State, e: Effect, f: Effect)
    requires Boundary(s) && GoodEffect(e) && e.Done? && 0 < e.loadReg && e.dest != Some(e.loadReg)
    requires GoodEffect(f) && Boundary(Finish(s, e).0)
    ensures var t := Finish(s, e).0; var u := Finish(t, f).0;
            && |u.regs| == NumTotalRegs
            && t.regs[e.loadReg] == (if e.loadReg == s.regs[LoadReg] then s.regs[LoadValueReg] else s.regs[e.loadReg])
            && u.regs[e.loadReg] == e.loadValue
  {
    hide Finish, GoodEffect, Boundary;
    EffectFacts(e);
    RegistersAfter(s, e);
    if f.Done? {
      RegistersAfter(Finish(s, e).0, f);
    } else {
      RegistersAfterTrap(Finish(s, e).0, f);
    }
    BoundaryFacts(s);
    BoundaryFacts(Finish(s, e).0);
    BoundaryFacts(Finish(Finish(s, e).0, f).0);
  }

  lemma EffectFacts(e: Effect)
    requires GoodEffect(e) && e.Done?
    ensures e.loadReg < 32
  {
  }

  lemma BoundaryFacts(s: State)
    requires Boundary(s)
    ensures |s.regs| == NumTotalRegs && s.regs[LoadReg] < 32
  {
  }

  // -------------------------------------------------------------- when a hazard shows

  /** A write to a register with a load pending shows exactly when it differs from what was
      loaded: without the interrupt the load comes last, with it the write does. */
  lemma WriteHazard(s: State, i: Instr)
    requires Boundary(s) && Fetch(s) == Some(i) && s.regs[LoadReg] != 0
    requires Writes(i) == Some(s.regs[LoadReg]) && !ReadsRegister(i, s.regs[LoadReg])
    ensures GoodInstr(i) && !HazardFree(s)
    ensures var e := EffectOf(i, s.regs, Mem.Read(s.mem, s.regs[PCReg], 4).1);
            Invisible(s) <==> (e.Done? ==> e.value == s.regs[LoadValueReg])
  {
    var m := Mem.Read(s.mem, s.regs[PCReg], 4).1;
    hide EffectOf, Attempt, Finish, GoodEffect, Mem.Read, AlmostSame, Decode, SameFinish;
    hide Flush, Tolerates, Discards, Invisible;
    WritesHazard(i, s.regs[LoadReg]);
    InvisibleIs(s, i, m);
    SameEffect(s, i, m);
    var e := EffectOf(i, s.regs, m);
    hide ReadsRegister, Writes;
    if e.Trap? {
      Same(e);
      FinishAfterFlush(s, e, e);
    } else {
      DestIs(i, s.regs, m);
      LastWrite(s, e);
    }
  }

  lemma WritesHazard(i: Instr, p: nat)
    requires p != 0 && Writes(i) == Some(p)
    ensures !Tolerates(i, p) && !Merges(i.op)
  {
  }

  lemma Same(e: Effect)
    ensures AlmostSame(e, e)
  {
  }

  lemma InvisibleIs(s: State, i: Instr, m: Mem.State)
    requires Boundary(s) && Fetch(s) == Some(i) && m == Mem.Read(s.mem, s.regs[PCReg], 4).1
    ensures GoodInstr(i) && |m.bytes| == Mem.MemorySize
    ensures GoodEffect(EffectOf(i, s.regs, m)) && GoodEffect(EffectOf(i, Flush(s).regs, m))
    ensures Invisible(s) <==> SameFinish(s, EffectOf(i, s.regs, m), EffectOf(i, Flush(s).regs, m))
  {
    AttemptIs(s, i, m);
    hide EffectOf, Attempt, Finish, GoodEffect, Mem.Read, Normal, Decode, Flush;
  }

  /** An instruction that does not use the pending register has the same effect after a flush. */
  lemma SameEffect(s: State, i: Instr, m: Mem.State)
    requires Boundary(s) && GoodInstr(i) && |m.bytes| == Mem.MemorySize && !Merges(i.op)
    requires s.regs[LoadReg] == 0 || s.regs[s.regs[LoadReg]] == s.regs[LoadValueReg] || !ReadsRegister(i, s.regs[LoadReg])
    ensures EffectOf(i, Flush(s).regs, m) == EffectOf(i, s.regs, m)
  {
    hide Execute;
    FlushBoundary(s);
    var r, r' := s.regs, Flush(s).regs;
    var x := Specials(r[HiReg], r[LoReg], r[NextPCReg]);
    ReadsOnly(i, r[i.rs], r[i.rt], Merge(r, i.rt), r'[i.rs], r'[i.rt], Merge(r', i.rt), x, m);
  }

  lemma LastWrite(s: State, e: Effect)
    requires Boundary(s) && e.Done? && GoodEffect(e) && s.regs[LoadReg] != 0 && e.dest == Some(s.regs[LoadReg])
    ensures SameFinish(s, e, e) <==> e.value == s.regs[LoadValueReg]
  {
    var t, t', p := Retire(s.regs, e), Retire(Flush(s).regs, e), s.regs[LoadReg];
    FlushBoundary(s);
    assert t[p] == s.regs[LoadValueReg] && t'[p] == e.value;
    assert forall r | 0 <= r < NumTotalRegs && r != p :: t'[r] == t[r];
    hide Retire, Flush;
    NormalAt(Finish(s, e).0, Finish(Flush(s), e).0, p);
    if e.value == s.regs[LoadValueReg] {
      assert t' == t;
    }
  }

  /** States that are the same up to a load into R0 have the same general registers. */
  lemma NormalAt(s: State, t: State, r: nat)
    requires Boundary(s) && Boundary(t) && r < NumTotalRegs && r != LoadValueReg
    ensures Normal(t) == Normal(s) ==> t.regs[r] == s.regs[r]
  {
    assert Normal(s).regs[r] == s.regs[r] && Normal(t).regs[r] == t.regs[r];
  }

  /** Instructions that pass on the value of one register unchanged or moved by a bijection, and
      where they leave the result. */
  predicate Shows(i: Instr, p: nat) {
    || (i.op in {ADDU, SUBU, XOR} && (i.rs == p) != (i.rt == p) && i.rd != 0 && i.rd != p)
    || (i.op in {ADDIU, XORI} && i.rs == p && i.rt != 0 && i.rt != p)
    || (i.op == JALR && i.rs == p && i.rd != p)
    || (i.op in {JR, MTHI, MTLO} && i.rs == p)
  }

  function Place(i: Instr): nat {
    match i.op
    case JR => NextPCReg
    case JALR => NextPCReg
    case MTHI => HiReg
    case MTLO => LoReg
    case ADDIU => i.rt
    case XORI => i.rt
    case _ => i.rd
  }

  function Shown(i: Instr, e: Effect): word
    requires e.Done?
  {
    match i.op
    case JR => e.pcAfter
    case JALR => e.pcAfter
    case MTHI => e.hi
    case MTLO => e.lo
    case _ => e.value
  }

  /** Such a read of a register with a load pending shows exactly when the load changes it. */
  lemma ReadHazard(s: State, i: Instr)
    requires Boundary(s) && Fetch(s) == Some(i) && s.regs[LoadReg] != 0 && Shows(i, s.regs[LoadReg])
    ensures !HazardFree(s)
    ensures Invisible(s) <==> s.regs[s.regs[LoadReg]] == s.regs[LoadValueReg]
  {
    var m := Mem.Read(s.mem, s.regs[PCReg], 4).1;
    hide EffectOf, Attempt, Finish, GoodEffect, Mem.Read, AlmostSame, Decode, SameFinish;
    hide Flush, Writes, Shows, Shown, Tolerates, Discards, Invisible, ReadsRegister;
    ShowsHazard(i, s.regs[LoadReg]);
    InvisibleIs(s, i, m);
    ShownEffect(s, i, m);
    var e, f := EffectOf(i, s.regs, m), EffectOf(i, Flush(s).regs, m);
    ShownFinish(s, i, e, f);
    if s.regs[s.regs[LoadReg]] == s.regs[LoadValueReg] {
      SameEffect(s, i, m);
      Same(e);
      FinishAfterFlush(s, e, f);
    }
  }

  lemma ShowsHazard(i: Instr, p: nat)
    requires p != 0 && Shows(i, p)
    ensures !Tolerates(i, p) && Writes(i) != Some(p) && !Merges(i.op)
  {
  }

  lemma ShownFinish(s: State, i: Instr, e: Effect, f: Effect)
    requires Boundary(s) && GoodInstr(i) && e.Done? && f.Done? && GoodEffect(e) && GoodEffect(f)
    requires s.regs[LoadReg] != 0 && Shows(i, s.regs[LoadReg]) && e.dest == f.dest == Writes(i)
    ensures SameFinish(s, e, f) ==> Shown(i, e) == Shown(i, f)
  {
    FlushBoundary(s);
    ShownRegister(s.regs, i, e, s.regs[LoadReg]);
    ShownRegister(Flush(s).regs, i, f, s.regs[LoadReg]);
    FinishBoundary(s, e);
    FinishBoundary(Flush(s), f);
    hide Retire, Flush, Boundary, GoodEffect, Shown, Shows;
    NormalAt(Finish(s, e).0, Finish(Flush(s), f).0, Place(i));
  }

  lemma ShownEffect(s: State, i: Instr, m: Mem.State)
    requires Boundary(s) && GoodInstr(i) && |m.bytes| == Mem.MemorySize
    requires s.regs[LoadReg] != 0 && Shows(i, s.regs[LoadReg])
    ensures var e, f := EffectOf(i, s.regs, m), EffectOf(i, Flush(s).regs, m);
            && e.Done? && f.Done? && e.dest == f.dest == Writes(i)
            && (Shown(i, e) == Shown(i, f) <==> s.regs[s.regs[LoadReg]] == s.regs[LoadValueReg])
  {
    FlushBoundary(s);
    var r, r' := s.regs, Flush(s).regs;
    var x := Specials(r[HiReg], r[LoReg], r[NextPCReg]);
    ShownValue(i, r[i.rs], r[i.rt], Merge(r, i.rt), x, m);
    ShownValue(i, r'[i.rs], r'[i.rt], Merge(r', i.rt), x, m);
    hide Execute, Moved;
    MovedApart(i, r[i.rs], r'[i.rs], r[i.rt]);
    MovedApart(i, r[i.rs], r[i.rs], r[i.rt]);
    if i.rt == s.regs[LoadReg] && i.op in {ADDU, SUBU, XOR} {
      MovedSecond(i, r[i.rs], r[i.rt], r'[i.rt]);
    }
  }

  /** What those instructions make of the values of rs and rt. */
  function Moved(i: Instr, a: word, b: word): word {
    match i.op
    case ADDU => Add(a, b)
    case SUBU => Sub(a, b)
    case XOR => Xor(a, b)
    case ADDIU => Add(a, i.extra)
    case XORI => Xor(a, i.extra % 0x1_0000)
    case _ => a
  }

  lemma ShownValue(i: Instr, a: word, b: word, merge: word, x: Specials, m: Mem.State)
    requires |m.bytes| == Mem.MemorySize
    requires i.op in {ADDU, SUBU, XOR, ADDIU, XORI, JR, MTHI, MTLO} || (i.op == JALR && i.rs != i.rd)
    ensures var e := Execute(i, a, b, merge, x, m);
            e.Done? && e.dest == Writes(i) && Shown(i, e) == Moved(i, a, b)
  {
    hide Add, Sub, And, Or, Xor, Nor, ShiftLeft, ShiftRight, Pow2, Signed, Sign;
    hide SumOverflows, DifferenceOverflows, Mem.Read, Mem.Write, LoadByte, LoadHalf, LoadWord, LoadPart;
    hide Storing, StorePart, Quotient, Remainder, Product, Target;
  }

  lemma MovedApart(i: Instr, a: word, a': word, b: word)
    ensures Moved(i, a, b) == Moved(i, a', b) <==> a == a'
  {
    hide Xor, Add, Sub;
    SumApart(a, a', b);
    SumApart(a, a', i.extra);
    XorApart(a, a', b);
    XorApart(a, a', i.extra % 0x1_0000);
  }

  lemma XorApart(a: word, a': word, c: word)
    ensures Xor(a, c) == Xor(a', c) <==> a == a'
  {
    XorCancels(a, c);
    XorCancels(a', c);
    hide Xor;
  }

  lemma SumApart(a: word, a': word, b: word)
    ensures (Add(a, b) == Add(a', b) <==> a == a') && (Sub(a, b) == Sub(a', b) <==> a == a')
    ensures (Add(b, a) == Add(b, a') <==> a == a') && (Sub(b, a) == Sub(b, a') <==> a == a')
  {
    Wrapped(a, b);
    Wrapped(a', b);
    Wrapped(b, a);
    Wrapped(b, a');
    hide Add, Sub;
  }

  lemma Wrapped(a: word, b: word)
    ensures Add(a, b) == Add(b, a) == if a + b < Word then a + b else a + b - Word
    ensures Sub(a, b) == if a < b then a - b + Word else a - b
  {
  }

  lemma MovedSecond(i: Instr, a: word, b: word, b': word)
    requires i.op in {ADDU, SUBU, XOR}
    ensures Moved(i, a, b) == Moved(i, a, b') <==> b == b'
  {
    XorCommutes(a, b);
    XorCommutes(a, b');
    XorCancels(b, a);
    XorCancels(b', a);
    SumApart(b, b', a);
    hide Xor, Add, Sub;
  }

  lemma ShownRegister(regs: seq<word>, i: Instr, e: Effect, p: nat)
    requires |regs| == NumTotalRegs && regs[LoadReg] < 32 && GoodInstr(i) && e.Done? && GoodEffect(e) && e.dest == Writes(i)
    requires 0 < p < 32 && Shows(i, p) && (regs[LoadReg] == 0 || regs[LoadReg] == p)
    ensures Retire(regs, e)[Place(i)] == Shown(i, e)
  {
  }
}
