/** Preemption is invisible to user code that respects load delay slots.

    A timer interrupt between two instructions applies the pending load early
    (machine/interrupt.cc:326-329), saves all registers, lets other processes run and restores
    the registers (threads/thread.cc:408-429). */
module Preemption {
  import opened Words
  import opened Memory
  import opened Mips

  // ---- Which registers an instruction reads and writes ----

  predicate ReadsRs(op: Op) {
    !(op.J? || op.JAL? || op.LUI? || op.MFHI? || op.MFLO? || op.SLL? || op.SRA? || op.SRL? ||
      op.SYSCALL? || op.UNIMP? || op.RES?)
  }

  predicate ReadsRt(op: Op) {
    op.ADD? || op.ADDU? || op.AND? || op.BEQ? || op.BNE? || op.DIV? || op.DIVU? || op.MULT? || op.MULTU? || op.NOR? ||
    op.OR? || op.SB? || op.SH? || op.SLL? || op.SLLV? || op.SLT? || op.SLTU? || op.SRA? || op.SRAV? || op.SRL? ||
    op.SRLV? || op.SUB? || op.SUBU? || op.SW? || op.SWL? || op.SWR? || op.XOR?
  }

  /** The general register written at once, as opposed to loaded later; 0 if there is none. */
  function Destination(i: Instruction): Reg {
    match i.op
    case ADDI | ADDIU | ANDI | LUI | ORI | SLTI | SLTIU | XORI => i.rt
    case ADD | ADDU | AND | JALR | MFHI | MFLO | NOR | OR | SLT | SLTU | SUB | SUBU | XOR => i.rd
    case SLL | SLLV | SRA | SRAV | SRL | SRLV => i.rd
    case BGEZAL | BLTZAL | JAL => R31
    case _ => 0
  }

  /** Operands that agree wherever the instruction looks. */
  predicate Agree(i: Instruction, x: Operands, y: Operands) {
    && (ReadsRs(i.op) ==> x.a == y.a)
    && (ReadsRt(i.op) ==> x.b == y.b)
    && (i.op.LWR? ==> x.forwarded == y.forwarded)
    && x.hi == y.hi && x.lo == y.lo && x.npc == y.npc && x.mem == y.mem && x.pt == y.pt
  }

  /** The read sets are complete: nothing else influences what an instruction does. */
  lemma ReadSetsComplete(i: Instruction, x: Operands, y: Operands)
    requires Agree(i, x, y)
    ensures Execute(i, x) == Execute(i, y)
  {
    match KindOf(i.op)
    case Load => LoadReads(i, x, y);
    case Store => StoreReads(i, x, y);
    case _ => OtherReads(i, x, y);
  }

  lemma LoadReads(i: Instruction, x: Operands, y: Operands)
    requires Agree(i, x, y) && KindOf(i.op).Load?
    ensures LoadOp(i, x) == LoadOp(i, y)
  {
    assert ReadsRs(i.op);
    assert forall v :: Converted(i.op, x.forwarded, v) == Converted(i.op, y.forwarded, v);
  }

  /** A store looks at a and b, and never at the forwarded value. */
  lemma StoreReads(i: Instruction, x: Operands, y: Operands)
    requires Agree(i, x, y) && KindOf(i.op).Store?
    ensures StoreOp(i, x) == StoreOp(i, y)
  {
    var addr := Wrap(x.a + i.extra);
    assert ReadsRs(i.op) && ReadsRt(i.op);
    assert y == x.(forwarded := y.forwarded);
    if PartialWord(i.op) {
      PartialStoreIgnoresForwarded(i, x, y.forwarded, addr);
    } else {
      StoreIgnoresForwarded(x, y.forwarded, addr, SizeOf(i.op), x.b);
    }
  }

  lemma StoreIgnoresForwarded(x: Operands, f: Word, addr: Word, size: nat, v: Word)
    requires ValidSize(size)
    ensures ExecuteStore(x.(forwarded := f), addr, size, v) == ExecuteStore(x, addr, size, v)
  {}

  lemma PartialStoreIgnoresForwarded(i: Instruction, x: Operands, f: Word, addr: Word)
    ensures ExecutePartialStore(i, x.(forwarded := f), addr) == ExecutePartialStore(i, x, addr)
  {
    var l := ReadMem(x.mem, x.pt, addr, 4);
    if l.Value? {
      StoreIgnoresForwarded(x.(pt := l.table), f, addr, 4, Merged(i.op, l.value, x.b));
    }
  }

  lemma OtherReads(i: Instruction, x: Operands, y: Operands)
    requires Agree(i, x, y) && !KindOf(i.op).Load? && !KindOf(i.op).Store?
    ensures Execute(i, x) == Execute(i, y)
  {
    ComputeReads(i, x.a, x.b, y.a, y.b, x.hi, x.lo, x.npc);
    ApplyIgnores(x, y, Compute(i, y.a, y.b, x.hi, x.lo, x.npc));
  }

  lemma ApplyIgnores(x: Operands, y: Operands, r: Result)
    requires x.hi == y.hi && x.lo == y.lo && x.npc == y.npc && x.mem == y.mem && x.pt == y.pt
    ensures Apply(x, r) == Apply(y, r)
  {}

  lemma ComputeReads(i: Instruction, a: Word, b: Word, a': Word, b': Word, hi: Word, lo: Word, npc: Word)
    requires (ReadsRs(i.op) ==> a == a') && (ReadsRt(i.op) ==> b == b') && !KindOf(i.op).Load? && !KindOf(i.op).Store?
    ensures Compute(i, a, b, hi, lo, npc) == Compute(i, a', b', hi, lo, npc)
  {
    match KindOf(i.op)
    case Register => assert a == a' && b == b';
    case Immediate => assert ImmediateOp(i, a) == ImmediateOp(i, a');
    case Shift => assert ShiftOp(i, a, b) == ShiftOp(i, a', b');
    case HiLo => assert HiLoOp(i, a, b, hi, lo) == HiLoOp(i, a', b', hi, lo);
    case Branch => assert BranchOp(i, a, b, npc) == BranchOp(i, a', b', npc);
    case Jump => assert JumpOp(i, a, npc) == JumpOp(i, a', npc);
    case _ =>
  }

  /** The write set is right. */
  lemma WriteSetRight(i: Instruction, x: Operands)
    ensures Execute(i, x).Done? ==> Execute(i, x).dst == Destination(i)
  {
    match KindOf(i.op)
    case Load =>
    case Store =>
    case Register => RegisterWrites(i, x.a, x.b);
    case Immediate => ImmediateWrites(i, x.a);
    case Shift => ShiftWrites(i, x.a, x.b);
    case HiLo => HiLoWrites(i, x.a, x.b, x.hi, x.lo);
    case Branch => BranchWrites(i, x.a, x.b, x.npc);
    case Jump => JumpWrites(i, x.a, x.npc);
    case Illegal =>
  }

  predicate Targets(r: Result, d: Reg) {
    match r
    case Write(dst, _) => dst == d
    case GotoAndLink(dst, _) => dst == d
    case Raised(_) => true
    case _ => d == 0
  }

  lemma RegisterWrites(i: Instruction, a: Word, b: Word)
    requires KindOf(i.op).Register?
    ensures Targets(RegisterOp(i, a, b), Destination(i))
  {}

  lemma ImmediateWrites(i: Instruction, a: Word)
    requires KindOf(i.op).Immediate?
    ensures Targets(ImmediateOp(i, a), Destination(i))
  {}

  lemma ShiftWrites(i: Instruction, a: Word, b: Word)
    requires KindOf(i.op).Shift?
    ensures Targets(ShiftOp(i, a, b), Destination(i))
  {}

  lemma HiLoWrites(i: Instruction, a: Word, b: Word, hi: Word, lo: Word)
    requires KindOf(i.op).HiLo?
    ensures Targets(HiLoOp(i, a, b, hi, lo), Destination(i))
  {}

  lemma BranchWrites(i: Instruction, a: Word, b: Word, npc: Word)
    requires KindOf(i.op).Branch?
    ensures Targets(BranchOp(i, a, b, npc), Destination(i))
  {}

  lemma JumpWrites(i: Instruction, a: Word, npc: Word)
    requires KindOf(i.op).Jump?
    ensures Targets(JumpOp(i, a, npc), Destination(i))
  {}

  // ---- Applying the pending load early ----

  function Flush(c: Cpu): Cpu
    requires WellFormed(c.regs)
  {
    c.(regs := DelayedLoad(c.regs, 0, 0))
  }

  /** The instruction respects the delay slot of a load into r. */
  predicate Respects(i: Instruction, r: Word) {
    && (r != 0 ==> (ReadsRs(i.op) ==> i.rs != r) && (ReadsRt(i.op) ==> i.rt != r) && Destination(i) != r)
    && (i.op.LWR? ==> i.rt != 0)
  }

  predicate DelaySlotOk(c: Cpu) {
    var f := ReadMem(c.mem, c.pt, c.regs[PCReg], 4);
    f.Value? ==> Respects(DecodeInstruction(f.value), c.regs[LoadReg])
  }

  lemma FlushedOperands(r: Registers, i: Instruction, mem: Ram, pt: PageTable)
    requires WellFormed(r) && Respects(i, r[LoadReg])
    ensures Agree(i, OperandsOf(r, i, mem, pt), OperandsOf(DelayedLoad(r, 0, 0), i, mem, pt))
  {}

  lemma CommitAfterFlush(r: Registers, e: Effect)
    requires WellFormed(r) && e.Done? && (r[LoadReg] == 0 || e.dst != r[LoadReg])
    ensures Commit(DelayedLoad(r, 0, 0), e) == Commit(r, e)
  {
    var p, q := Commit(DelayedLoad(r, 0, 0), e), Commit(r, e);
    assert forall k :: 0 <= k < 40 ==> p[k] == q[k];
  }

  lemma RaiseAfterFlush(r: Registers, e: Exception, bad: Word, mem: Ram, pt: PageTable)
    requires WellFormed(r)
    ensures Raise(DelayedLoad(r, 0, 0), e, bad, mem, pt) == Raise(r, e, bad, mem, pt)
  {
    var p, q := DelayedLoad(DelayedLoad(r, 0, 0)[BadVAddrReg := bad], 0, 0), DelayedLoad(r[BadVAddrReg := bad], 0, 0);
    assert forall k :: 0 <= k < 40 ==> p[k] == q[k];
  }

  /** One instruction cannot tell whether the pending load was applied early: registers, memory,
      program counters and exceptions are exactly the same. */
  lemma FlushInvisible(c: Cpu)
    requires WellFormed(c.regs) && DelaySlotOk(c)
    ensures WellFormed(Flush(c).regs)
    ensures OneInstruction(Flush(c)) == OneInstruction(c)
  {
    match ReadMem(c.mem, c.pt, c.regs[PCReg], 4)
    case LoadFault(e) => RaiseAfterFlush(c.regs, e, c.regs[PCReg], c.mem, c.pt);
    case Value(raw, pt) =>
      var i := DecodeInstruction(raw);
      var x := OperandsOf(c.regs, i, c.mem, pt);
      FlushedOperands(c.regs, i, c.mem, pt);
      ReadSetsComplete(i, x, OperandsOf(Flush(c).regs, i, c.mem, pt));
      WriteSetRight(i, x);
      match Execute(i, x)
      case Trap(e, bad, pt2) => RaiseAfterFlush(c.regs, e, bad, c.mem, pt2);
      case AssertFails =>
      case Done(dst, v, hi, lo, pc, lr, lv, mem, pt2) =>
        CommitAfterFlush(c.regs, Done(dst, v, hi, lo, pc, lr, lv, mem, pt2));
  }

  /** A load into r1 followed by ADDU r2, r1, r0 reads the old r1, and reads the new one if the load
      was applied early. The module DelaySlot says for every instruction when that shows. */
  lemma FlushVisibleInDelaySlot(c: Cpu)
    requires WellFormed(c.regs) && c.regs[LoadReg] == 1 && c.regs[LoadValueReg] != c.regs[1]
    requires var f := ReadMem(c.mem, c.pt, c.regs[PCReg], 4);
      f.Value? && DecodeInstruction(f.value) == Instruction(ADDU, 1, 0, 2, 0)
    ensures OneInstruction(Flush(c)) != OneInstruction(c)
  {
    var f := ReadMem(c.mem, c.pt, c.regs[PCReg], 4);
    hide ReadMem, DecodeInstruction;
    var i := DecodeInstruction(f.value);
    var x, y := OperandsOf(c.regs, i, c.mem, f.table), OperandsOf(Flush(c).regs, i, c.mem, f.table);
    assert x.a == c.regs[1] && y.a == c.regs[LoadValueReg] && x.b == y.b == 0;
    AdduMoves(x);
    AdduMoves(y);
    var e, g := Execute(i, x), Execute(i, y);
    hide Execute;
    assert Commit(c.regs, e)[2] == e.value && Commit(Flush(c).regs, g)[2] == g.value;
  }

  /** ADDU r2, r1, r0 copies r1 to r2. */
  lemma AdduMoves(x: Operands)
    requires x.b == 0
    ensures var e := Execute(Instruction(ADDU, 1, 0, 2, 0), x);
      e.Done? && e.dst == 2 && e.value == x.a && e.loadReg == 0
  {}

  // ---- Other processes run in between ----

  /** The same processor state seen through the page table; frames of others may differ. */
  ghost predicate SameView(c: Cpu, d: Cpu) {
    c.regs == d.regs && c.pt == d.pt && WellMapped(c.pt) && Image(c.mem, c.pt) == Image(d.mem, c.pt)
  }

  ghost predicate SameEffect(e: Effect, f: Effect) {
    match e
    case Trap(_, _, _) => e == f && WellMapped(e.pt)
    case AssertFails => f.AssertFails?
    case Done(_, _, _, _, _, _, _, _, _) =>
      && f.Done?
      && f.(mem := e.mem) == e
      && WellMapped(e.pt)
  }

  ghost predicate SameOutcome(o: Outcome, p: Outcome) {
    match o
    case Normal(c) => p.Normal? && SameView(c, p.cpu) && WellFormed(c.regs)
    case Exception(e, c) => p.Exception? && p.exception == e && SameView(c, p.cpu)
    case Aborted => p.Aborted?
  }

  lemma ReadSameView(mem: Ram, mem2: Ram, pt: PageTable, addr: Word, size: nat)
    requires WellMapped(pt) && ValidSize(size) && Image(mem, pt) == Image(mem2, pt)
    ensures ReadMem(mem, pt, addr, size) == ReadMem(mem2, pt, addr, size)
    ensures ReadMem(mem, pt, addr, size).Value? ==> SameMapping(pt, ReadMem(mem, pt, addr, size).table)
  {
    TranslateSucceeds(pt, addr, size, false);
    if Translate(pt, addr, size, false).Phys? {
      ReadSeesImage(mem, pt, addr, size);
      ReadSeesImage(mem2, pt, addr, size);
    }
  }

  lemma WriteSameView(mem: Ram, mem2: Ram, pt: PageTable, addr: Word, size: nat, v: Word)
    requires WellMapped(pt) && ValidSize(size) && Image(mem, pt) == Image(mem2, pt)
    ensures var p, q := WriteMem(mem, pt, addr, size, v), WriteMem(mem2, pt, addr, size, v);
      && p.Memory? == q.Memory?
      && (p.StoreFault? ==> p == q)
      && (p.Memory? ==> p.table == q.table && SameMapping(pt, p.table) && WellMapped(p.table) &&
                        Image(p.mem, p.table) == Image(q.mem, p.table))
  {
    TranslateSucceeds(pt, addr, size, true);
    if Translate(pt, addr, size, true).Phys? {
      WriteChangesImage(mem, pt, addr, size, v);
      WriteChangesImage(mem2, pt, addr, size, v);
      var p, q := WriteMem(mem, pt, addr, size, v), WriteMem(mem2, pt, addr, size, v);
      SameMappingSameImage(p.mem, pt, p.table);
      SameMappingSameImage(q.mem, pt, p.table);
    }
  }

  /** A table with the same mapping still gives both memories the same image. */
  lemma SameThroughTable(mem: Ram, mem2: Ram, pt: PageTable, pt2: PageTable)
    requires WellMapped(pt) && SameMapping(pt, pt2) && Image(mem, pt) == Image(mem2, pt)
    ensures WellMapped(pt2) && Image(mem, pt2) == Image(mem2, pt2)
  {
    SameMappingSameImage(mem, pt, pt2);
    SameMappingSameImage(mem2, pt, pt2);
  }

  ghost predicate SameOperands(x: Operands, y: Operands) {
    y.(mem := x.mem) == x && WellMapped(x.pt) && Image(x.mem, x.pt) == Image(y.mem, x.pt)
  }

  ghost predicate MatchingEffects(e: Effect, f: Effect) {
    SameEffect(e, f) && (e.Done? ==> Image(e.mem, e.pt) == Image(f.mem, e.pt))
  }

  lemma LoadSameView(i: Instruction, x: Operands, y: Operands, addr: Word)
    requires SameOperands(x, y)
    ensures MatchingEffects(ExecuteLoad(i, x, addr), ExecuteLoad(i, y, addr))
  {
    ReadSameView(x.mem, y.mem, x.pt, addr, SizeOf(i.op));
    var l := ReadMem(x.mem, x.pt, addr, SizeOf(i.op));
    if l.Value? { SameThroughTable(x.mem, y.mem, x.pt, l.table); }
  }

  lemma StoreSameView(x: Operands, y: Operands, addr: Word, size: nat, v: Word)
    requires SameOperands(x, y) && ValidSize(size)
    ensures MatchingEffects(ExecuteStore(x, addr, size, v), ExecuteStore(y, addr, size, v))
  {
    WriteSameView(x.mem, y.mem, x.pt, addr, size, v);
  }

  lemma PartialStoreSameView(i: Instruction, x: Operands, y: Operands, addr: Word)
    requires SameOperands(x, y)
    ensures MatchingEffects(ExecutePartialStore(i, x, addr), ExecutePartialStore(i, y, addr))
  {
    ReadSameView(x.mem, y.mem, x.pt, addr, 4);
    var l := ReadMem(x.mem, x.pt, addr, 4);
    if l.Value? {
      SameThroughTable(x.mem, y.mem, x.pt, l.table);
      StoreSameView(x.(pt := l.table), y.(pt := l.table), addr, 4, Merged(i.op, l.value, x.b));
    }
  }

  lemma ExecuteSameView(i: Instruction, x: Operands, y: Operands)
    requires SameOperands(x, y)
    ensures MatchingEffects(Execute(i, x), Execute(i, y))
  {
    match KindOf(i.op)
    case Load => LoadOpSameView(i, x, y);
    case Store => StoreOpSameView(i, x, y);
    case _ => OtherSameView(i, x, y);
  }

  lemma LoadOpSameView(i: Instruction, x: Operands, y: Operands)
    requires SameOperands(x, y)
    ensures MatchingEffects(LoadOp(i, x), LoadOp(i, y))
  {
    LoadSameView(i, x, y, Wrap(x.a + i.extra));
  }

  lemma StoreOpSameView(i: Instruction, x: Operands, y: Operands)
    requires SameOperands(x, y)
    ensures MatchingEffects(StoreOp(i, x), StoreOp(i, y))
  {
    hide ExecuteStore, ExecutePartialStore;
    var addr := Wrap(x.a + i.extra);
    if PartialWord(i.op) { PartialStoreSameView(i, x, y, addr); } else { StoreSameView(x, y, addr, SizeOf(i.op), x.b); }
  }

  lemma OtherSameView(i: Instruction, x: Operands, y: Operands)
    requires SameOperands(x, y) && !KindOf(i.op).Load? && !KindOf(i.op).Store?
    ensures MatchingEffects(Execute(i, x), Execute(i, y))
  {
    ApplySameView(x, y, Compute(i, x.a, x.b, x.hi, x.lo, x.npc));
  }

  lemma ApplySameView(x: Operands, y: Operands, r: Result)
    requires SameOperands(x, y)
    ensures MatchingEffects(Apply(x, r), Apply(y, r))
  {}

  /** One instruction depends on memory only through the page table. */
  lemma StepSameView(c: Cpu, d: Cpu)
    requires SameView(c, d) && WellFormed(c.regs)
    ensures SameOutcome(OneInstruction(c), OneInstruction(d))
  {
    ReadSameView(c.mem, d.mem, c.pt, c.regs[PCReg], 4);
    match ReadMem(c.mem, c.pt, c.regs[PCReg], 4)
    case LoadFault(e) =>
    case Value(raw, pt) =>
      SameThroughTable(c.mem, d.mem, c.pt, pt);
      var i := DecodeInstruction(raw);
      var x, y := OperandsOf(c.regs, i, c.mem, pt), OperandsOf(c.regs, i, d.mem, pt);
      ExecuteSameView(i, x, y);
      TrapTable(i, x);
      var e := Execute(i, x);
      if e.Trap? { SameThroughTable(c.mem, d.mem, pt, e.pt); }
  }

  /** An exception leaves the mapping alone. */
  lemma TrapTable(i: Instruction, x: Operands)
    requires WellMapped(x.pt)
    ensures Execute(i, x).Trap? ==> SameMapping(x.pt, Execute(i, x).pt)
  {
    if KindOf(i.op).Store? && PartialWord(i.op) {
      ReadSameView(x.mem, x.mem, x.pt, Wrap(x.a + i.extra), 4);
    }
  }

  // ---- Whole runs ----

  /** n instructions without interruption, or up to the first exception. */
  function RunUser(c: Cpu, n: nat): (o: Outcome)
    requires WellFormed(c.regs)
    ensures o.Normal? ==> WellFormed(o.cpu.regs)
  {
    if n == 0 then Normal(c) else
    match RunUser(c, n - 1)
    case Normal(d) => OneInstruction(d)
    case o => o
  }

  datatype Slot = Continue | Preempt(mem: Ram)

  /** What happens before an instruction: nothing, or a context switch after which the machine
      comes back with main memory mem. Other processes write only their own frames. */
  ghost function Switched(c: Cpu, slot: Slot): (d: Cpu)
    requires WellFormed(c.regs)
    ensures WellFormed(d.regs)
  {
    if slot.Preempt? && WellMapped(c.pt) && Image(slot.mem, c.pt) == Image(c.mem, c.pt)
    then Flush(c).(mem := slot.mem) else c
  }

  ghost function PreemptedRun(c: Cpu, slots: seq<Slot>): (o: Outcome)
    requires WellFormed(c.regs)
    ensures o.Normal? ==> WellFormed(o.cpu.regs)
  {
    if slots == [] then Normal(c) else
    match PreemptedRun(c, slots[..|slots| - 1])
    case Normal(d) => OneInstruction(Switched(d, slots[|slots| - 1]))
    case o => o
  }

  lemma DelaySlotSameView(c: Cpu, d: Cpu)
    requires SameView(c, d) && DelaySlotOk(c)
    ensures DelaySlotOk(d)
  {
    ReadSameView(c.mem, d.mem, c.pt, c.regs[PCReg], 4);
  }

  /** The next instruction cannot tell whether the pending load was applied early, whatever the frames
      of other processes hold. */
  ghost predicate FlushHidden(c: Cpu)
    requires WellFormed(c.regs)
  {
    forall e :: SameView(c, e) ==> OneInstruction(Flush(e)) == OneInstruction(e)
  }

  /** One slot and one instruction, from two states that look the same. */
  lemma SlotInvisible(c: Cpu, d: Cpu, slot: Slot)
    requires SameView(c, d) && WellFormed(c.regs) && FlushHidden(c)
    ensures SameOutcome(OneInstruction(c), OneInstruction(Switched(d, slot)))
  {
    if slot.Preempt? && Image(slot.mem, d.pt) == Image(d.mem, d.pt) {
      var e := d.(mem := slot.mem);
      assert SameView(c, e);
      assert Switched(d, slot) == Flush(e);
      StepSameView(c, e);
    } else {
      StepSameView(c, d);
    }
  }

  /** Preemptions leave a run as it is when no instruction of it can tell. */
  lemma {:induction false} HiddenPreemption(c: Cpu, slots: seq<Slot>)
    requires WellFormed(c.regs) && WellMapped(c.pt)
    requires forall k :: 0 <= k < |slots| && RunUser(c, k).Normal? ==> FlushHidden(RunUser(c, k).cpu)
    ensures SameOutcome(RunUser(c, |slots|), PreemptedRun(c, slots))
  {
    if slots != [] {
      hide FlushHidden, OneInstruction, Image;
      var n := |slots| - 1;
      HiddenPreemption(c, slots[..n]);
      var o, p := RunUser(c, n), PreemptedRun(c, slots[..n]);
      if o.Normal? {
        SlotInvisible(o.cpu, p.cpu, slots[n]);
      }
    }
  }

  lemma RuleHides(c: Cpu)
    requires WellFormed(c.regs) && DelaySlotOk(c)
    ensures FlushHidden(c)
  {
    forall e | SameView(c, e) ensures OneInstruction(Flush(e)) == OneInstruction(e) {
      DelaySlotSameView(c, e);
      FlushInvisible(e);
    }
    hide OneInstruction, DelaySlotOk, Flush, SameView;
  }

  /** Any number of preemptions at any instruction boundaries, with any activity of other
      processes in between, leave the registers, the program counters, the memory image and the
      exceptions of a delay-slot-respecting program as they are without preemption. */
  lemma PreemptionInvisible(c: Cpu, slots: seq<Slot>)
    requires WellFormed(c.regs) && WellMapped(c.pt)
    requires forall k :: 0 <= k < |slots| && RunUser(c, k).Normal? ==> DelaySlotOk(RunUser(c, k).cpu)
    ensures SameOutcome(RunUser(c, |slots|), PreemptedRun(c, slots))
  {
    hide FlushHidden, DelaySlotOk, RunUser, PreemptedRun;
    forall k | 0 <= k < |slots| && RunUser(c, k).Normal? ensures FlushHidden(RunUser(c, k).cpu) {
      RuleHides(RunUser(c, k).cpu);
    }
    HiddenPreemption(c, slots);
  }
}
