/** The processor as it is written: a register array and main memory changed in place, proved
    against Mips.OneInstruction; and the two loops of a context switch. */
module MipsCode {
  import opened Words
  import opened Memory
  import opened Multiplier
  import opened Mips
  import opened Preemption
  import opened SpacesCode

  /** How the switch of OneInstruction ends. */
  datatype Completion =
    | Completed(dst: Reg, value: Word, hi: Word, lo: Word, pcAfter: Word, loadReg: Reg, loadValue: Word)
    | Trapped(exception: Exception, badVAddr: Word)
    | AssertFailed

  /** What Run sees of one instruction. */
  datatype Ending = Finished | Faulted(exception: Exception) | Dead

  lemma DoubleWord(hi: Word, lo: Word, p: int)
    requires hi * W + lo == p
    ensures p / W == hi && p % W == lo
  {}

  class Processor {
    const registers: array<Word>
    const machine: Machine

    ghost predicate Valid() {
      registers.Length == NUM_TOTAL_REGS && machine.Valid() && registers as object != machine.mainMemory
    }

    ghost function View(): Cpu
      reads registers, machine, machine.mainMemory
      requires Valid()
    {
      Cpu(registers[..], machine.Mem(), machine.pageTable)
    }

    constructor (machine: Machine)
      requires machine.Valid()
      ensures Valid() && fresh(registers) && this.machine == machine
      ensures forall i :: 0 <= i < NUM_TOTAL_REGS ==> registers[i] == 0
    {
      this.machine := machine;
      this.registers := new Word[NUM_TOTAL_REGS](_ => 0);
    }

    /** Machine::DelayedLoad */
    method ApplyDelayedLoad(nextReg: Reg, nextValue: Word)
      requires Valid() && registers[LoadReg] < 32
      modifies registers
      ensures registers[..] == DelayedLoad(old(registers[..]), nextReg, nextValue)
    {
      registers[registers[LoadReg]] := registers[LoadValueReg];
      registers[LoadReg] := nextReg;
      registers[LoadValueReg] := nextValue;
      registers[0] := 0;
    }

    /** The load and store cases of the switch. */
    method DoLoad(i: Instruction, ghost x: Operands, a: Word, forwarded: Word, hi: Word, lo: Word, npc: Word)
        returns (c: Completion)
      requires Valid() && x == Operands(a, x.b, forwarded, hi, lo, npc, machine.Mem(), machine.pageTable)
      modifies machine`pageTable
      ensures Describes(c, LoadOp(i, x), machine.Mem(), machine.pageTable)
    {
      var addr := Wrap(a + i.extra);
      if addr % SizeOf(i.op) != 0 {
        return if PartialWord(i.op) then AssertFailed else Trapped(AddressErrorException, addr);
      }
      var r := machine.ReadMemory(addr, SizeOf(i.op));
      match r
      case LoadFault(e) => c := Trapped(e, addr);
      case Value(v, _) => c := Completed(0, 0, hi, lo, Wrap(npc + 4), i.rt, Converted(i.op, forwarded, v));
    }

    /** One WriteMem. */
    method DoWrite(ghost x: Operands, addr: Word, size: nat, v: Word, hi: Word, lo: Word, npc: Word)
      returns (c: Completion)
      requires Valid() && ValidSize(size)
        && x == Operands(x.a, x.b, x.forwarded, hi, lo, npc, machine.Mem(), machine.pageTable)
      modifies machine`pageTable, machine.mainMemory
      ensures Describes(c, ExecuteStore(x, addr, size, v), machine.Mem(), machine.pageTable)
      ensures !c.Completed? ==> machine.Mem() == old(machine.Mem())
    {
      var w := machine.WriteMemory(addr, size, v);
      match w
      case StoreFault(e) => c := Trapped(e, addr);
      case Memory(_, _) => c := Completed(0, 0, hi, lo, Wrap(npc + 4), 0, 0);
    }

    method DoPartialStore(i: Instruction, ghost x: Operands, addr: Word, b: Word, hi: Word, lo: Word, npc: Word)
        returns (c: Completion)
      requires Valid() && x == Operands(x.a, b, x.forwarded, hi, lo, npc, machine.Mem(), machine.pageTable)
      modifies machine`pageTable, machine.mainMemory
      ensures Describes(c, ExecutePartialStore(i, x, addr), machine.Mem(), machine.pageTable)
      ensures !c.Completed? ==> machine.Mem() == old(machine.Mem())
    {
      var r := machine.ReadMemory(addr, 4);
      if r.LoadFault? {
        return Trapped(r.exception, addr);
      }
      c := DoWrite(x.(pt := r.table), addr, 4, Merged(i.op, r.value, b), hi, lo, npc);
    }

    method DoStore(i: Instruction, ghost x: Operands, a: Word, b: Word, hi: Word, lo: Word, npc: Word)
        returns (c: Completion)
      requires Valid() && x == Operands(a, b, x.forwarded, hi, lo, npc, machine.Mem(), machine.pageTable)
      modifies machine`pageTable, machine.mainMemory
      ensures Describes(c, StoreOp(i, x), machine.Mem(), machine.pageTable)
      ensures !c.Completed? ==> machine.Mem() == old(machine.Mem())
    {
      hide WriteMem, ReadMem, Merged;
      var addr := Wrap(a + i.extra);
      if !PartialWord(i.op) {
        c := DoWrite(x, addr, SizeOf(i.op), b, hi, lo, npc);
      } else if addr % 4 != 0 {
        c := AssertFailed;
      } else {
        c := DoPartialStore(i, x, addr, b, hi, lo, npc);
      }
    }

    /** The cases that write or read hi and lo; MULT and MULTU run Mult on the two registers. */
    method DoHiLo(i: Instruction, a: Word, b: Word, hi: Word, lo: Word) returns (r: Result)
      ensures r == HiLoOp(i, a, b, hi, lo)
    {
      if !i.op.MULT? && !i.op.MULTU? { return HiLoOp(i, a, b, hi, lo); }
      var hiOut, loOut := Mult(Signed(a), Signed(b), i.op.MULT?);
      DoubleWord(Unsigned(hiOut), Unsigned(loOut), Product(a, b, i.op.MULT?));
      r := WriteHiLo(Unsigned(hiOut), Unsigned(loOut));
    }

    /** The switch of OneInstruction. */
    method Switch(i: Instruction) returns (c: Completion)
      requires Valid()
      modifies machine`pageTable, machine.mainMemory
      ensures Describes(c, Execute(i, old(OperandsOf(registers[..], i, machine.Mem(), machine.pageTable))),
        machine.Mem(), machine.pageTable)
      ensures !c.Completed? ==> machine.Mem() == old(machine.Mem())
    {
      ghost var x := OperandsOf(registers[..], i, machine.Mem(), machine.pageTable);
      var a, b, hi, lo, npc := registers[i.rs], registers[i.rt], registers[HiReg], registers[LoReg],
        registers[NextPCReg];
      var forwarded := if registers[LoadReg] == i.rt then registers[LoadValueReg] else b;
      match KindOf(i.op) {
        case Load => c := DoLoad(i, x, a, forwarded, hi, lo, npc);
        case Store => c := DoStore(i, x, a, b, hi, lo, npc);
        case HiLo =>
          var r := DoHiLo(i, a, b, hi, lo);
          c := FromResult(r, hi, lo, npc);
        case _ => c := FromResult(Compute(i, a, b, hi, lo, npc), hi, lo, npc);
      }
    }

    /** The end of OneInstruction: results, the delayed load, the program counters. */
    method Retire(c: Completion, ghost e: Effect)
      requires Valid() && registers[LoadReg] < 32 && e.Done? && Describes(c, e, e.mem, e.pt)
      modifies registers
      ensures registers[..] == Commit(old(registers[..]), e)
    {
      registers[c.dst] := c.value;
      registers[HiReg] := c.hi;
      registers[LoReg] := c.lo;
      ApplyDelayedLoad(c.loadReg, c.loadValue);
      registers[PrevPCReg] := registers[PCReg];
      registers[PCReg] := registers[NextPCReg];
      registers[NextPCReg] := c.pcAfter;
    }

    /** Machine::OneInstruction */
    method ExecuteOne() returns (ending: Ending)
      requires Valid() && WellFormed(registers[..])
      modifies registers, machine`pageTable, machine.mainMemory
      ensures match OneInstruction(old(View()))
              case Normal(c) => ending == Finished && View() == c
              case Exception(e, c) => ending == Faulted(e) && View() == c
              case Aborted => ending == Dead
    {
      var fetched := machine.ReadMemory(registers[PCReg], 4);
      if fetched.LoadFault? {
        RaiseException(registers[PCReg]);
        return Faulted(fetched.exception);
      }
      var i := DecodeInstruction(fetched.value);
      ghost var e := Execute(i, OperandsOf(registers[..], i, machine.Mem(), machine.pageTable));
      var c := Switch(i);
      match c
      case AssertFailed => ending := Dead;
      case Trapped(exception, bad) =>
        RaiseException(bad);
        ending := Faulted(exception);
      case Completed(_, _, _, _, _, _, _) =>
        Retire(c, e);
        ending := Finished;
    }

    /** Machine::RaiseException, up to the call of the handler. */
    method RaiseException(badVAddr: Word)
      requires Valid() && registers[LoadReg] < 32
      modifies registers
      ensures registers[..] == DelayedLoad(old(registers[..])[BadVAddrReg := badVAddr], 0, 0)
    {
      registers[BadVAddrReg] := badVAddr;
      ApplyDelayedLoad(0, 0);
    }

    /** Thread::SaveUserState */
    method SaveUserState(userRegisters: array<Word>)
      requires Valid() && userRegisters.Length == NUM_TOTAL_REGS && userRegisters != registers
      modifies userRegisters
      ensures userRegisters[..] == registers[..]
    {
      for i := 0 to NUM_TOTAL_REGS
        invariant userRegisters[..i] == registers[..i]
      {
        userRegisters[i] := registers[i];
      }
    }

    /** Thread::RestoreUserState: whatever other threads left in the registers is overwritten. */
    method RestoreUserState(userRegisters: array<Word>)
      requires Valid() && userRegisters.Length == NUM_TOTAL_REGS && userRegisters != registers
      modifies registers
      ensures registers[..] == userRegisters[..]
    {
      for i := 0 to NUM_TOTAL_REGS
        invariant registers[..i] == userRegisters[..i]
      {
        registers[i] := userRegisters[i];
      }
    }

    /** A preemption between two instructions: the pending load is applied, the registers are saved, other threads
        leave theirs behind and write their own frames, and the registers come back. */
    method ContextSwitch(userRegisters: array<Word>, foreign: Registers, mem: Ram)
      requires Valid() && userRegisters.Length == NUM_TOTAL_REGS && userRegisters != registers
      requires WellFormed(registers[..]) && WellMapped(machine.pageTable)
      requires Image(mem, machine.pageTable) == Image(machine.Mem(), machine.pageTable)
      requires userRegisters as object != machine.mainMemory
      modifies registers, userRegisters, machine.mainMemory
      ensures View() == Switched(old(View()), Preempt(mem))
    {
      ApplyDelayedLoad(0, 0);
      SaveUserState(userRegisters);
      forall i | 0 <= i < NUM_TOTAL_REGS { registers[i] := foreign[i]; }
      forall i | 0 <= i < MEMORY_SIZE { machine.mainMemory[i] := mem[i]; }
      RestoreUserState(userRegisters);
      assert machine.Mem() == mem;
    }
  }

  function FromResult(r: Result, hi: Word, lo: Word, npc: Word): Completion {
    var next := Wrap(npc + 4);
    match r
    case Write(dst, v) => Completed(dst, v, hi, lo, next, 0, 0)
    case WriteHiLo(h, l) => Completed(0, 0, h, l, next, 0, 0)
    case Goto(pc) => Completed(0, 0, hi, lo, pc, 0, 0)
    case GotoAndLink(dst, pc) => Completed(dst, next, hi, lo, pc, 0, 0)
    case Raised(e) => Trapped(e, 0)
  }

  /** c and the state of the machine together are the effect e. */
  ghost predicate Describes(c: Completion, e: Effect, mem: Ram, pt: PageTable) {
    match e
    case Trap(x, bad, table) => c == Trapped(x, bad) && pt == table
    case AssertFails => c == AssertFailed
    case Done(dst, v, hi, lo, pc, lr, lv, m, table) =>
      c == Completed(dst, v, hi, lo, pc, lr, lv) && mem == m && pt == table
  }
}
