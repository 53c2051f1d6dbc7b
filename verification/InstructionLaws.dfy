/** What the instructions of machine/mipssim.cc:138-609 do, stated from the fetched word and the
    register array alone. An instruction word is put together from its fields as machine/mipssim.h
    lays them out; each law says which outcome Machine::OneInstruction has for it. */
module InstructionLaws {
  import opened Words
  import opened Memory
  import opened Multiplier
  import opened BitMaps
  import opened Mips

  // ---- Instruction words ----

  type Half = x: int | 0 <= x < 0x1_0000
  type SixBits = x: int | 0 <= x < 64
  type JumpIndex = x: int | 0 <= x < 0x400_0000

  /** SPECIAL: opcode 0, three registers, a shift amount and the function. */
  function RType(rs: Reg, rt: Reg, rd: Reg, shift: Reg, fn: SixBits): Word {
    0x20_0000 * rs + 0x1_0000 * rt + 0x800 * rd + 0x40 * shift + fn
  }

  function IType(op: SixBits, rs: Reg, rt: Reg, imm: Half): Word {
    0x400_0000 * op + 0x20_0000 * rs + 0x1_0000 * rt + imm
  }

  function JType(op: SixBits, target: JumpIndex): Word { 0x400_0000 * op + target }

  /** The 16-bit field as a signed number. */
  function Immediate(imm: Half): int { if imm < 0x8000 then imm else imm - 0x1_0000 }

  /** The page table after the fetch. */
  function AfterFetch(c: Cpu): PageTable {
    match ReadMem(c.mem, c.pt, c.regs[34], 4)
    case LoadFault(_) => c.pt
    case Value(_, table) => table
  }

  // ---- Outcomes, register by register ----
  // 0-31 general, 32 HI, 33 LO, 34 PC, 35 next PC, 36 previous PC, 37 and 38 the pending load, 39 bad address

  /** A general register once the pending load is done: register 0 is zero, the load overwrites whatever
      the instruction wrote, and d is the one register written. */
  function General(was: Registers, d: Reg, v: Word, k: Reg): Word {
    if k == 0 then 0 else if k == was[37] then was[38] else if k == d then v else was[k]
  }

  predicate Retired(c: Cpu, o: Outcome, d: Reg, v: Word, hi: Word, lo: Word, next: Word, load: Reg, loadValue: Word) {
    && o.Normal?
    && var was, now := c.regs, o.cpu.regs;
      && (forall k: Reg :: now[k] == General(was, d, v, k))
      && now[32] == hi && now[33] == lo
      && now[34] == was[35] && now[35] == next && now[36] == was[34]
      && now[37] == load && now[38] == loadValue && now[39] == was[39]
  }

  /** The address behind the delay slot. */
  function Behind(c: Cpu): Word { Wrap(c.regs[35] as int + 4) }

  /** Only the use bit of the page that holds the instruction may have changed. */
  predicate MemoryUntouched(c: Cpu, o: Outcome)
    requires !o.Aborted?
  {
    o.cpu.mem == c.mem && o.cpu.pt == AfterFetch(c)
  }

  predicate Wrote(c: Cpu, o: Outcome, d: Reg, v: Word) {
    Retired(c, o, d, v, c.regs[32], c.regs[33], Behind(c), 0, 0) && MemoryUntouched(c, o)
  }

  predicate WroteHiLo(c: Cpu, o: Outcome, hi: Word, lo: Word) {
    Retired(c, o, 0, 0, hi, lo, Behind(c), 0, 0) && MemoryUntouched(c, o)
  }

  /** The instruction in the delay slot is next, and pc comes after it. */
  predicate WentTo(c: Cpu, o: Outcome, pc: Word) {
    Retired(c, o, 0, 0, c.regs[32], c.regs[33], pc, 0, 0) && MemoryUntouched(c, o)
  }

  predicate Linked(c: Cpu, o: Outcome, d: Reg, pc: Word) {
    Retired(c, o, d, Behind(c), c.regs[32], c.regs[33], pc, 0, 0) && MemoryUntouched(c, o)
  }

  /** The exception leaves the program counters, applies the pending load and records the address. */
  predicate Trapped(c: Cpu, o: Outcome, e: Exception, bad: Word, pt: PageTable) {
    && o.Exception? && o.exception == e && o.cpu.mem == c.mem && o.cpu.pt == pt
    && var was, now := c.regs, o.cpu.regs;
      && (forall k: Reg :: now[k] == General(was, 0, 0, k))
      && (forall k :: 32 <= k < 37 ==> now[k] == was[k])
      && now[37] == 0 && now[38] == 0 && now[39] == bad
  }

  // ---- Fields ----

  lemma IFields(op: SixBits, rs: Reg, rt: Reg, imm: Half)
    ensures var w := IType(op, rs, rt, imm);
      w / 0x400_0000 == op && w / 0x20_0000 % 32 == rs && w / 0x1_0000 % 32 == rt && w % 0x1_0000 == imm
      && w / 0x800 % 32 == imm / 0x800
  {
    var w := IType(op, rs, rt, imm);
    assert w / 0x20_0000 == 32 * op + rs;
    assert w / 0x1_0000 == 1024 * op + 32 * rs + rt;
    assert w / 0x800 == 32 * (1024 * op + 32 * rs + rt) + imm / 0x800;
  }

  lemma RFields(rs: Reg, rt: Reg, rd: Reg, shift: Reg, fn: SixBits)
    ensures var w := RType(rs, rt, rd, shift, fn);
      && w / 0x400_0000 == 0 && w / 0x20_0000 % 32 == rs && w / 0x1_0000 % 32 == rt && w / 0x800 % 32 == rd
      && w / 64 % 32 == shift && w % 64 == fn
  {
    var w := RType(rs, rt, rd, shift, fn);
    assert w / 0x20_0000 == rs;
    assert w / 0x1_0000 == 32 * rs + rt;
    assert w / 0x800 == 32 * (32 * rs + rt) + rd;
    assert w / 64 == 32 * (32 * (32 * rs + rt) + rd) + shift;
  }

  lemma RDecodes(rs: Reg, rt: Reg, rd: Reg, shift: Reg, fn: SixBits)
    ensures DecodeInstruction(RType(rs, rt, rd, shift, fn)) == Instruction(SpecialOp(fn), rs, rt, rd, shift)
  {
    RFields(rs, rt, rd, shift, fn);
    hide RType, SpecialOp;
  }

  lemma IDecodes(op: SixBits, rs: Reg, rt: Reg, imm: Half)
    requires op >= 4
    ensures DecodeInstruction(IType(op, rs, rt, imm))
      == Instruction(PrimaryOp(op), rs, rt, imm / 0x800, SignExtend16(imm))
  {
    IFields(op, rs, rt, imm);
    hide IType, PrimaryOp, SignExtend16;
  }

  /** What follows opcode 1 is selected by the field rt. */
  lemma BDecodes(rs: Reg, rt: Reg, imm: Half)
    ensures DecodeInstruction(IType(1, rs, rt, imm))
      == Instruction(if rt == 0 then BLTZ else if rt == 1 then BGEZ else if rt == 16 then BLTZAL
                     else if rt == 17 then BGEZAL else UNIMP, rs, rt, imm / 0x800, SignExtend16(imm))
  {
    IFields(1, rs, rt, imm);
    hide IType, PrimaryOp, SignExtend16;
  }

  lemma JDecodes(op: SixBits, target: JumpIndex)
    requires op == 2 || op == 3
    ensures var i := DecodeInstruction(JType(op, target)); i.op == PrimaryOp(op) && i.extra == target
  {
    var w := JType(op, target);
    assert w / 0x400_0000 == op && w % 0x400_0000 == target;
    hide JType, PrimaryOp;
  }

  /** Every word is put together from its fields. */
  lemma EveryWordHasFields(w: Word)
    ensures w == IType(w / 0x400_0000, w / 0x20_0000 % 32, w / 0x1_0000 % 32, w % 0x1_0000)
    ensures w == JType(w / 0x400_0000, w % 0x400_0000)
    ensures w < 0x400_0000 ==> w == RType(w / 0x20_0000 % 32, w / 0x1_0000 % 32, w / 0x800 % 32, w / 0x40 % 32, w % 64)
  {
    UpperFields(w);
    assert w == 0x1_0000 * (w / 0x1_0000) + w % 0x1_0000;
    if w < 0x400_0000 {
      SpecialHasFields(w);
    }
  }

  lemma SpecialHasFields(w: Word)
    requires w < 0x400_0000
    ensures w == RType(w / 0x20_0000 % 32, w / 0x1_0000 % 32, w / 0x800 % 32, w / 0x40 % 32, w % 64)
  {
    UpperFields(w);
    var high, low := w / 0x1_0000, w % 0x1_0000;
    LowerFields(high, low);
    assert w == 0x1_0000 * high + low && w / 0x400_0000 == 0;
  }

  lemma UpperFields(w: Word)
    ensures w / 0x1_0000 == 1024 * (w / 0x400_0000) + 32 * (w / 0x20_0000 % 32) + w / 0x1_0000 % 32
    ensures w == 0x400_0000 * (w / 0x400_0000) + w % 0x400_0000
  {
    var d, e := w / 0x1_0000, w / 0x20_0000;
    assert e == d / 32 && w / 0x400_0000 == e / 32;
  }

  lemma Field(high: nat, low: nat)
    ensures (32 * high + low) % 32 == low % 32
  {}

  lemma LowerFields(high: Half, low: Half)
    ensures var w := 0x1_0000 * high + low;
      w / 0x800 % 32 == low / 0x800 && w / 0x40 % 32 == low / 0x40 % 32 && w % 64 == low % 64
    ensures low == 0x800 * (low / 0x800) + 0x40 * (low / 0x40 % 32) + low % 64
  {
    var w := 0x1_0000 * high + low;
    QuotientIs(w, 0x800, 32 * high + low / 0x800);
    QuotientIs(w, 0x40, 32 * (32 * high) + low / 0x40);
    Field(high, low / 0x800);
    Field(32 * high, low / 0x40);
    QuotientIs(low / 0x40, 32, low / 0x800);
  }

  // ---- From the function OneInstruction to the outcomes ----

  /** What an effect looks like from outside. */
  predicate Shows(c: Cpu, o: Outcome, e: Effect) {
    match e
    case Trap(x, bad, pt) => Trapped(c, o, x, bad, pt)
    case AssertFails => o.Aborted?
    case Done(d, v, hi, lo, next, load, loadValue, mem, pt) =>
      Retired(c, o, d, v, hi, lo, next, load, loadValue) && o.cpu.mem == mem && o.cpu.pt == pt
  }

  lemma CommitShows(c: Cpu, e: Effect)
    requires WellFormed(c.regs) && e.Done?
    ensures Shows(c, Normal(Cpu(Commit(c.regs, e), e.mem, e.pt)), e)
  {}

  lemma RaiseShows(c: Cpu, x: Exception, bad: Word, pt: PageTable)
    requires WellFormed(c.regs)
    ensures Trapped(c, Raise(c.regs, x, bad, c.mem, pt), x, bad, pt)
  {}

  lemma Runs(c: Cpu, w: Word)
    requires Fetches(c, w)
    ensures var i := DecodeInstruction(w);
      Shows(c, OneInstruction(c), Execute(i, OperandsOf(c.regs, i, c.mem, AfterFetch(c))))
  {
    hide Execute, DecodeInstruction, ReadMem, OperandsOf, Retired, Trapped, Commit, Raise, DelayedLoad;
    var i := DecodeInstruction(w);
    var e := Execute(i, OperandsOf(c.regs, i, c.mem, AfterFetch(c)));
    match e
    case Trap(x, bad, pt) =>
      RaiseShows(c, x, bad, pt);
    case AssertFails =>
    case Done(_, _, _, _, _, _, _, _, _) =>
      CommitShows(c, e);
  }

  /** What an instruction without memory access looks like. */
  predicate Gives(c: Cpu, o: Outcome, r: Result) {
    match r
    case Write(d, v) => Wrote(c, o, d, v)
    case WriteHiLo(hi, lo) => WroteHiLo(c, o, hi, lo)
    case Goto(pc) => WentTo(c, o, pc)
    case GotoAndLink(d, pc) => Linked(c, o, d, pc)
    case Raised(x) => Trapped(c, o, x, 0, AfterFetch(c))
  }

  predicate Touches(op: Op) { KindOf(op).Load? || KindOf(op).Store? }

  lemma Computes(c: Cpu, w: Word, i: Instruction)
    requires Fetches(c, w) && DecodeInstruction(w) == i && !Touches(i.op)
    ensures Gives(c, OneInstruction(c),
      Compute(i, c.regs[i.rs], c.regs[i.rt], c.regs[32], c.regs[33], c.regs[35]))
  {
    hide OneInstruction, DecodeInstruction, Retired, Trapped, Compute, ReadMem;
    Runs(c, w);
    var x := OperandsOf(c.regs, i, c.mem, AfterFetch(c));
    var r := Compute(i, c.regs[i.rs], c.regs[i.rt], c.regs[32], c.regs[33], c.regs[35]);
    assert Execute(i, x) == Apply(x, r);
    hide Execute, KindOf;
  }

  lemma ComputesR(c: Cpu, rs: Reg, rt: Reg, rd: Reg, shift: Reg, fn: SixBits)
    requires Fetches(c, RType(rs, rt, rd, shift, fn))
    ensures Gives(c, OneInstruction(c), Compute(Instruction(SpecialOp(fn), rs, rt, rd, shift),
      c.regs[rs], c.regs[rt], c.regs[32], c.regs[33], c.regs[35]))
  {
    hide RType, Gives, Fetches, Compute;
    RDecodes(rs, rt, rd, shift, fn);
    Computes(c, RType(rs, rt, rd, shift, fn), Instruction(SpecialOp(fn), rs, rt, rd, shift));
  }

  lemma ComputesI(c: Cpu, op: SixBits, rs: Reg, rt: Reg, imm: Half)
    requires Fetches(c, IType(op, rs, rt, imm)) && op >= 4 && !Touches(PrimaryOp(op))
    ensures Gives(c, OneInstruction(c),
      Compute(Instruction(PrimaryOp(op), rs, rt, imm / 0x800, SignExtend16(imm)),
        c.regs[rs], c.regs[rt], c.regs[32], c.regs[33], c.regs[35]))
  {
    hide IType, Gives, Fetches, Compute, PrimaryOp, SignExtend16;
    IDecodes(op, rs, rt, imm);
    Computes(c, IType(op, rs, rt, imm), Instruction(PrimaryOp(op), rs, rt, imm / 0x800, SignExtend16(imm)));
  }

  // ---- One lemma for each kind of instruction ----

  lemma ComputeIs(i: Instruction, a: Word, b: Word, hi: Word, lo: Word, npc: Word)
    ensures var r := Compute(i, a, b, hi, lo, npc);
      match KindOf(i.op)
      case Register => r == RegisterOp(i, a, b)
      case Immediate => r == ImmediateOp(i, a)
      case Shift => r == ShiftOp(i, a, b)
      case HiLo => r == HiLoOp(i, a, b, hi, lo)
      case Branch => r == BranchOp(i, a, b, npc)
      case Jump => r == JumpOp(i, a, npc)
      case _ => r == Raised(if i.op == SYSCALL then SyscallException else IllegalInstrException)
  {
    hide RegisterOp, ImmediateOp, ShiftOp, HiLoOp, BranchOp, JumpOp;
  }

  lemma SpecialKinds(fn: SixBits)
    ensures var k := KindOf(SpecialOp(fn)); k.Register? || k.Shift? || k.HiLo? || k.Jump? || k.Illegal?
  {}

  lemma PrimaryKinds(op: SixBits)
    requires op >= 4
    ensures var k := KindOf(PrimaryOp(op)); k.Immediate? || k.Branch? || k.Load? || k.Store? || k.Illegal?
    ensures PrimaryOp(op) != SYSCALL
  {}

  lemma SpecialRuns(c: Cpu, rs: Reg, rt: Reg, rd: Reg, shift: Reg, fn: SixBits)
    requires Fetches(c, RType(rs, rt, rd, shift, fn))
    ensures var i, a, b, o := Instruction(SpecialOp(fn), rs, rt, rd, shift), c.regs[rs], c.regs[rt], OneInstruction(c);
      match KindOf(i.op)
      case Register => Gives(c, o, RegisterOp(i, a, b))
      case Shift => Gives(c, o, ShiftOp(i, a, b))
      case HiLo => Gives(c, o, HiLoOp(i, a, b, c.regs[32], c.regs[33]))
      case Jump => Gives(c, o, JumpOp(i, a, c.regs[35]))
      case _ => Gives(c, o, Raised(if i.op == SYSCALL then SyscallException else IllegalInstrException))
  {
    hide RType, Gives, Fetches, Compute, RegisterOp, ShiftOp, HiLoOp, JumpOp, OneInstruction, SpecialOp, KindOf;
    SpecialKinds(fn);
    ComputesR(c, rs, rt, rd, shift, fn);
    ComputeIs(Instruction(SpecialOp(fn), rs, rt, rd, shift),
      c.regs[rs], c.regs[rt], c.regs[32], c.regs[33], c.regs[35]);
  }

  lemma ImmediateRuns(c: Cpu, op: SixBits, rs: Reg, rt: Reg, imm: Half)
    requires Fetches(c, IType(op, rs, rt, imm)) && op >= 4 && !Touches(PrimaryOp(op))
    ensures var i := Instruction(PrimaryOp(op), rs, rt, imm / 0x800, SignExtend16(imm));
      var a, b, o := c.regs[rs], c.regs[rt], OneInstruction(c);
      match KindOf(i.op)
      case Immediate => Gives(c, o, ImmediateOp(i, a))
      case Branch => Gives(c, o, BranchOp(i, a, b, c.regs[35]))
      case _ => Gives(c, o, Raised(IllegalInstrException))
  {
    hide IType, Gives, Fetches, Compute, ImmediateOp, BranchOp, OneInstruction, SignExtend16, PrimaryOp, KindOf;
    PrimaryKinds(op);
    ComputesI(c, op, rs, rt, imm);
    ComputeIs(Instruction(PrimaryOp(op), rs, rt, imm / 0x800, SignExtend16(imm)),
      c.regs[rs], c.regs[rt], c.regs[32], c.regs[33], c.regs[35]);
  }

  lemma SignExtends(imm: Half)
    ensures Signed(SignExtend16(imm)) == Immediate(imm) && SignExtend16(imm) == Wrap(Immediate(imm))
    ensures SignExtend16(imm) % 0x1_0000 == imm
  {}

  // ---- Arithmetic ----

  /** An instruction that traps on overflow. */
  predicate Sums(c: Cpu, o: Outcome, d: Reg, sum: int) {
    if -0x8000_0000 <= sum < 0x8000_0000 then Wrote(c, o, d, Wrap(sum))
    else Trapped(c, o, OverflowException, 0, AfterFetch(c))
  }

  function SumResult(d: Reg, sum: int): Result {
    if -0x8000_0000 <= sum < 0x8000_0000 then Write(d, Wrap(sum)) else Raised(OverflowException)
  }

  lemma WrapNear(x: int)
    ensures -0x1_0000_0000 <= x < 0x2_0000_0000 ==>
      Wrap(x) == if x < 0 then x + 0x1_0000_0000 else if x < 0x1_0000_0000 then x else x - 0x1_0000_0000
  {}

  lemma SumResults(i: Instruction, a: Word, b: Word)
    ensures i.op == ADD ==> RegisterOp(i, a, b) == SumResult(i.rd, Signed(a) as int + Signed(b))
    ensures i.op == SUB ==> RegisterOp(i, a, b) == SumResult(i.rd, Signed(a) as int - Signed(b))
  {
    hide BitAnd, BitOr, BitXor, Flag, Wrap;
    var x, y: int := Signed(a), Signed(b);
    WrapNear(a + b);
    WrapNear(a - b);
    WrapNear(x + y);
    WrapNear(x - y);
  }

  lemma ImmediateSumResult(i: Instruction, a: Word)
    requires i.op == ADDI
    ensures ImmediateOp(i, a) == SumResult(i.rt, Signed(a) as int + Signed(i.extra))
  {
    hide BitAnd, BitOr, BitXor, Flag, Wrap, Signed;
    SumResults(Instruction(ADD, 0, 0, i.rt, 0), a, i.extra);
  }

  lemma AddSignExtended(a: Word, imm: Half)
    ensures Wrap(a + SignExtend16(imm)) == Wrap(a + Immediate(imm))
  {}

  lemma UpperHalf(imm: Half)
    ensures Wrap(SignExtend16(imm) * 0x1_0000) == 0x1_0000 * imm
  {}

  /** ADD and SUB trap exactly when the signed result is no 32-bit integer, ADDU and SUBU compute modulo 2^32,
      SLT compares as signed numbers and SLTU as unsigned ones. */
  lemma RegisterArithmetic(c: Cpu, rs: Reg, rt: Reg, rd: Reg, shift: Reg, fn: SixBits)
    requires Fetches(c, RType(rs, rt, rd, shift, fn))
    ensures var a, b, o := c.regs[rs], c.regs[rt], OneInstruction(c);
      && (fn == 32 ==> Sums(c, o, rd, Signed(a) as int + Signed(b)))
      && (fn == 33 ==> Wrote(c, o, rd, Wrap(a as int + b)))
      && (fn == 34 ==> Sums(c, o, rd, Signed(a) as int - Signed(b)))
      && (fn == 35 ==> Wrote(c, o, rd, Wrap(a as int - b)))
      && (fn == 42 ==> Wrote(c, o, rd, if Signed(a) < Signed(b) then 1 else 0))
      && (fn == 43 ==> Wrote(c, o, rd, if a < b then 1 else 0))
  {
    hide RType, Wrote, Trapped, OneInstruction, Fetches, AfterFetch, Wrap, Signed, Negative;
    hide ShiftOp, HiLoOp, JumpOp, BitAnd, BitOr, BitXor;
    SpecialRuns(c, rs, rt, rd, shift, fn);
    SumResults(Instruction(SpecialOp(fn), rs, rt, rd, shift), c.regs[rs], c.regs[rt]);
  }

  /** The same for ADDI, ADDIU, SLTI and SLTIU, whose field is sign-extended; LUI puts it into the upper half. */
  lemma ImmediateArithmetic(c: Cpu, op: SixBits, rs: Reg, rt: Reg, imm: Half)
    requires Fetches(c, IType(op, rs, rt, imm))
    ensures var a, o := c.regs[rs], OneInstruction(c);
      && (op == 8 ==> Sums(c, o, rt, Signed(a) as int + Immediate(imm)))
      && (op == 9 ==> Wrote(c, o, rt, Wrap(a + Immediate(imm))))
      && (op == 10 ==> Wrote(c, o, rt, if Signed(a) < Immediate(imm) then 1 else 0))
      && (op == 11 ==> Wrote(c, o, rt, if a < Wrap(Immediate(imm)) then 1 else 0))
      && (op == 15 ==> Wrote(c, o, rt, 0x1_0000 * imm))
  {
    hide IType, Wrote, Trapped, OneInstruction, Fetches, AfterFetch, SignExtend16, Immediate, Wrap, Signed, Negative;
    hide BranchOp, BitAnd, BitOr, BitXor;
    SignExtends(imm);
    AddSignExtended(c.regs[rs], imm);
    UpperHalf(imm);
    if 8 <= op < 16 {
      ImmediateRuns(c, op, rs, rt, imm);
      if op == 8 { ImmediateSumResult(Instruction(ADDI, rs, rt, imm / 0x800, SignExtend16(imm)), c.regs[rs]); }
    }
  }

  // ---- Binary digits ----

  lemma {:induction false} BitwiseDigit(g: Gate, a: nat, b: nat, n: nat, k: nat)
    requires k < n
    ensures TestBit(Bitwise(g, a, b, n), k) == OnDigits(g, TestBit(a, k), TestBit(b, k))
  {
    var x := Bitwise(g, a, b, n);
    assert x / 2 == Bitwise(g, a / 2, b / 2, n - 1) && (x % 2 == 1) == OnDigits(g, a % 2 == 1, b % 2 == 1);
    if k > 0 { BitwiseDigit(g, a / 2, b / 2, n - 1, k - 1); }
  }

  lemma {:induction false} ComplementDigit(x: nat, n: nat, k: nat)
    requires k < n && x < Pow2(n)
    ensures TestBit(Pow2(n) - 1 - x, k) == !TestBit(x, k)
  {
    var y := Pow2(n) - 1 - x;
    assert Pow2(n) == 2 * Pow2(n - 1);
    assert y / 2 == Pow2(n - 1) - 1 - x / 2 && y % 2 == 1 - x % 2;
    if k > 0 { ComplementDigit(x / 2, n - 1, k - 1); }
  }

  lemma BitwiseWords(a: Word, b: Word, k: nat)
    requires k < 32
    ensures TestBit(BitAnd(a, b), k) == (TestBit(a, k) && TestBit(b, k))
    ensures TestBit(BitOr(a, b), k) == (TestBit(a, k) || TestBit(b, k))
    ensures TestBit(BitXor(a, b), k) == (TestBit(a, k) != TestBit(b, k))
    ensures TestBit(W - 1 - BitOr(a, b), k) == !(TestBit(a, k) || TestBit(b, k))
  {
    hide TestBit, Bitwise;
    Pow2Values();
    BitwiseDigit(And, a, b, 32, k);
    BitwiseDigit(Or, a, b, 32, k);
    BitwiseDigit(Xor, a, b, 32, k);
    ComplementDigit(BitOr(a, b), 32, k);
  }

  /** AND, OR, XOR and NOR combine binary digit by binary digit. */
  lemma RegisterLogic(c: Cpu, rs: Reg, rt: Reg, rd: Reg, shift: Reg, fn: SixBits) returns (v: Word)
    requires Fetches(c, RType(rs, rt, rd, shift, fn)) && 36 <= fn < 40
    ensures Wrote(c, OneInstruction(c), rd, v)
    ensures forall k: nat | k < 32 ::
      var x, y := TestBit(c.regs[rs], k), TestBit(c.regs[rt], k);
      TestBit(v, k) == match fn case 36 => x && y case 37 => x || y case 38 => x != y case _ => !(x || y)
  {
    hide RType, Wrote, Trapped, OneInstruction, Fetches, AfterFetch, Wrap, Signed, Negative;
    hide ShiftOp, HiLoOp, JumpOp, BitAnd, BitOr, BitXor, TestBit;
    SpecialRuns(c, rs, rt, rd, shift, fn);
    var a, b := c.regs[rs], c.regs[rt];
    v := match fn case 36 => BitAnd(a, b) case 37 => BitOr(a, b) case 38 => BitXor(a, b) case _ => W - 1 - BitOr(a, b);
    forall k: nat | k < 32 ensures
      var x, y := TestBit(a, k), TestBit(b, k);
      TestBit(v, k) == match fn case 36 => x && y case 37 => x || y case 38 => x != y case _ => !(x || y) {
      BitwiseWords(a, b, k);
    }
  }

  /** ANDI, ORI and XORI combine with the field as it is, without its sign. */
  lemma ImmediateLogic(c: Cpu, op: SixBits, rs: Reg, rt: Reg, imm: Half) returns (v: Word)
    requires Fetches(c, IType(op, rs, rt, imm)) && 12 <= op < 15
    ensures Wrote(c, OneInstruction(c), rt, v)
    ensures forall k: nat | k < 32 ::
      var x, y := TestBit(c.regs[rs], k), TestBit(imm, k);
      TestBit(v, k) == match op case 12 => x && y case 13 => x || y case _ => x != y
  {
    hide IType, Wrote, Trapped, OneInstruction, Fetches, AfterFetch, SignExtend16, Wrap, Signed, Negative;
    hide BranchOp, BitAnd, BitOr, BitXor, TestBit;
    SignExtends(imm);
    ImmediateRuns(c, op, rs, rt, imm);
    var a := c.regs[rs];
    v := match op case 12 => BitAnd(a, imm) case 13 => BitOr(a, imm) case _ => BitXor(a, imm);
    forall k: nat | k < 32 ensures
      var x, y := TestBit(a, k), TestBit(imm, k);
      TestBit(v, k) == match op case 12 => x && y case 13 => x || y case _ => x != y {
      BitwiseWords(a, imm, k);
    }
  }

  // ---- Shifts ----

  lemma QuotientBounds(b: int, p: nat)
    requires p >= 1
    ensures b / p * p <= b < b / p * p + p == (b / p + 1) * p
  {
    var q := b / p;
    assert b == p * q + b % p;
    assert (q + 1) * p == q * p + p;
  }

  lemma QuotientInside(b: int, p: nat)
    requires p >= 1
    ensures b >= 0 ==> 0 <= b / p <= b
    ensures b < 0 ==> b <= b / p < 0
  {
    var q := b / p;
    QuotientBounds(b, p);
    if b >= 0 {
      if q < 0 { AtLeast(-q, p); }
      if q > b { AtLeast(p, q); }
    } else {
      if q >= 0 { AtLeast(q + 1, p); }
      if q < b { AtLeast(p, -q - 1); }
    }
  }

  lemma SignedOfWrap(x: Int32)
    ensures Signed(Wrap(x)) == x
  {}

  lemma ShiftFacts(b: Word, n: nat)
    ensures var p: int := Pow2(n);
      && ShiftLeft(b, n) == Wrap(b * p)
      && ShiftRight(b, n) * p <= b < (ShiftRight(b, n) + 1) * p
      && var v: int := Signed(ShiftRightArithmetic(b, n));
        v * p <= Signed(b) < (v + 1) * p
  {
    hide Wrap, Signed, Pow2;
    Pow2Monotone(n, n);
    var p := Pow2(n);
    QuotientBounds(b, p);
    QuotientInside(b, p);
    QuotientBounds(Signed(b), p);
    QuotientInside(Signed(b), p);
    WrapNear(b / p);
    SignedOfWrap(Signed(b) as int / p);
  }

  /** The amount is the field, or the lowest five bits of rs. SLL multiplies modulo 2^32, SRL divides the
      unsigned and SRA the signed number, rounding down. */
  lemma Shifts(c: Cpu, rs: Reg, rt: Reg, rd: Reg, shift: Reg, fn: SixBits) returns (v: Word)
    requires Fetches(c, RType(rs, rt, rd, shift, fn)) && fn < 8 && fn != 1 && fn != 5
    ensures Wrote(c, OneInstruction(c), rd, v)
    ensures var b, p: int := c.regs[rt], Pow2(if fn < 4 then shift else c.regs[rs] % 32);
      match fn
      case 0 | 4 => v == Wrap(b * p)
      case 2 | 6 => v * p <= b < (v + 1) * p
      case _ => Signed(v) * p <= Signed(b) < (Signed(v) as int + 1) * p
  {
    hide RType, Wrote, Trapped, OneInstruction, Fetches, AfterFetch, Wrap, Signed, Negative;
    hide RegisterOp, HiLoOp, JumpOp, Pow2, ShiftLeft, ShiftRight, ShiftRightArithmetic;
    SpecialRuns(c, rs, rt, rd, shift, fn);
    var b, n := c.regs[rt], if fn < 4 then shift else c.regs[rs] % 32;
    v := match fn case 0 | 4 => ShiftLeft(b, n) case 2 | 6 => ShiftRight(b, n) case _ => ShiftRightArithmetic(b, n);
    ShiftFacts(b, n);
  }

  // ---- HI and LO ----

  /** Division that truncates toward zero. */
  predicate Divides(a: int, b: int, q: int, r: int) {
    && q * b + r == a
    && -(if b < 0 then -b else b) < r < (if b < 0 then -b else b)
    && (r > 0 ==> a > 0) && (r < 0 ==> a < 0)
  }

  lemma Signs(d: int, y: int)
    ensures (-d) * y == -(d * y) && d * (-y) == -(d * y) && (-d) * (-y) == d * y
  {}

  lemma QuotientTimes(a: int, b: int)
    requires b != 0
    ensures var x, y := if a < 0 then -a else a, if b < 0 then -b else b;
      Quotient(a, b) * b == if a < 0 then -(x / y * y) else x / y * y
  {
    var x, y := if a < 0 then -a else a, if b < 0 then -b else b;
    Signs(x / y, y);
  }

  /** The product t of quotient and divisor comes as a number of its own. */
  lemma TruncationDivides(a: int, b: int, q: int, t: int)
    requires b != 0 && q * b == t
    requires if a < 0 then t <= 0 && -t <= -a < -t + (if b < 0 then -b else b)
             else 0 <= t <= a < t + if b < 0 then -b else b
    ensures Divides(a, b, q, a - t)
  {}

  lemma QuotientTruncates(a: int, b: int)
    requires b != 0
    ensures Divides(a, b, Quotient(a, b), a - Quotient(a, b) * b)
  {
    hide Quotient, Divides;
    var x, y := if a < 0 then -a else a, if b < 0 then -b else b;
    QuotientTimes(a, b);
    QuotientBounds(x, y);
    QuotientInside(x, y);
    var m := x / y * y;
    assert m >= 0;
    TruncationDivides(a, b, Quotient(a, b), if a < 0 then -m else m);
  }

  lemma QuotientFits(a: Int32, b: Int32)
    requires b != 0
    ensures if a == -0x8000_0000 && b == -1 then Quotient(a, b) == 0x8000_0000
            else -0x8000_0000 <= Quotient(a, b) < 0x8000_0000
  {
    var x: int, y: int := if a < 0 then -(a as int) else a, if b < 0 then -(b as int) else b;
    QuotientInside(x, y);
    if y > 1 { HalfAtMost(x, y); }
  }

  lemma HalfAtMost(x: nat, y: nat)
    requires y > 1
    ensures x / y <= x / 2
  {
    var q := x / y;
    QuotientBounds(x, y);
    assert q * y == 2 * q + q * (y - 2);
    assert q >= 0 by { QuotientInside(x, y); }
    assert q * (y - 2) >= 0;
  }

  /** The pair that DIV leaves. */
  lemma DivisionFacts(a: Word, b: Word)
    requires b != 0
    ensures var x: int, y: int, q := Signed(a), Signed(b), Quotient(Signed(a), Signed(b));
      && Signed(b) != 0
      && (x == -0x8000_0000 && y == -1 ==> Wrap(q) == 0x8000_0000 && Wrap(x - q * y) == 0)
      && (!(x == -0x8000_0000 && y == -1) ==> Divides(x, y, Signed(Wrap(q)), Signed(Wrap(x - q * y))))
  {
    hide Quotient;
    var x: int, y: int := Signed(a), Signed(b);
    var q := Quotient(x, y);
    QuotientTruncates(x, y);
    QuotientFits(Signed(a), Signed(b));
    if !(x == -0x8000_0000 && y == -1) {
      SignedOfWrap(q);
      SignedOfWrap(x - q * y);
    }
  }

  lemma UnsignedDivision(a: Word, b: Word)
    requires b != 0
    ensures Divides(a, b, a / b, a % b)
  {
    QuotientInside(a, b);
  }

  lemma ProductHalves(a: Word, b: Word)
    ensures Product(a, b, true) == Signed(a) * Signed(b) % 0x1_0000_0000_0000_0000
    ensures Product(a, b, false) == a * b
  {
    ProductFits(a, b);
    assert Unsigned(Signed(a)) == a && Unsigned(Signed(b)) == b;
  }

  /** The relation between operands and results for the function fn; h and l are HI and LO before. */
  predicate HiLoLaw(fn: SixBits, a: Word, b: Word, h: Word, l: Word, hi: Word, lo: Word) {
    var x: int, y: int := Signed(a), Signed(b);
    match fn
    case 17 => hi == a && lo == l
    case 19 => hi == h && lo == a
    case 24 => hi * 0x1_0000_0000 + lo == x * y % 0x1_0000_0000_0000_0000
    case 25 => hi * 0x1_0000_0000 + lo == (a as int) * b
    case 26 =>
      if b == 0 then hi == 0 && lo == 0
      else if x == -0x8000_0000 && y == -1 then hi == 0 && lo == 0x8000_0000
      else Divides(x, y, Signed(lo), Signed(hi))
    case 27 => if b == 0 then hi == 0 && lo == 0 else Divides(a, b, lo, hi)
    case _ => false
  }

  lemma HiLoFacts(i: Instruction, fn: SixBits, a: Word, b: Word, h: Word, l: Word)
    requires (24 <= fn < 28 || fn == 17 || fn == 19) && i.op == SpecialOp(fn)
    ensures var r := HiLoOp(i, a, b, h, l); r.WriteHiLo? && HiLoLaw(fn, a, b, h, l, r.hi, r.lo)
  {
    hide Divides, Quotient, Product, Wrap, Signed;
    if fn == 24 || fn == 25 { ProductHalves(a, b); }
    if fn == 26 && b != 0 { DivisionFacts(a, b); }
    if fn == 27 && b != 0 { UnsignedDivision(a, b); }
  }

  /** MULT (24) and MULTU (25) leave the double-word product of the signed and of the unsigned numbers; DIV (26)
      and DIVU (27) leave quotient and remainder, 0 and 0 for the divisor 0; MTHI (17) and MTLO (19) set one half. */
  lemma HiAndLo(c: Cpu, rs: Reg, rt: Reg, rd: Reg, shift: Reg, fn: SixBits) returns (hi: Word, lo: Word)
    requires Fetches(c, RType(rs, rt, rd, shift, fn)) && (24 <= fn < 28 || fn == 17 || fn == 19)
    ensures WroteHiLo(c, OneInstruction(c), hi, lo)
    ensures HiLoLaw(fn, c.regs[rs], c.regs[rt], c.regs[32], c.regs[33], hi, lo)
  {
    hide RType, WroteHiLo, Trapped, OneInstruction, Fetches, AfterFetch, HiLoLaw;
    hide RegisterOp, HiLoOp, JumpOp, ShiftOp;
    var i := Instruction(SpecialOp(fn), rs, rt, rd, shift);
    SpecialRuns(c, rs, rt, rd, shift, fn);
    HiLoFacts(i, fn, c.regs[rs], c.regs[rt], c.regs[32], c.regs[33]);
    var r := HiLoOp(i, c.regs[rs], c.regs[rt], c.regs[32], c.regs[33]);
    hi, lo := r.hi, r.lo;
  }

  /** MFHI (16) and MFLO (18) copy one half. */
  lemma FromHiAndLo(c: Cpu, rs: Reg, rt: Reg, rd: Reg, shift: Reg, fn: SixBits)
    requires Fetches(c, RType(rs, rt, rd, shift, fn)) && (fn == 16 || fn == 18)
    ensures Wrote(c, OneInstruction(c), rd, c.regs[if fn == 16 then 32 else 33])
  {
    hide RType, Wrote, Trapped, OneInstruction, Fetches, AfterFetch, Product, Quotient, Wrap, Signed;
    hide RegisterOp, JumpOp, ShiftOp;
    SpecialRuns(c, rs, rt, rd, shift, fn);
  }

  // ---- Branches and jumps ----

  /** The target of a branch lies at a signed number of words from the delay slot. */
  function BranchTarget(c: Cpu, imm: Half): Word { Wrap(c.regs[35] + 4 * Immediate(imm)) }

  lemma TargetIs(npc: Word, imm: Half)
    ensures Target(npc, SignExtend16(imm)) == Wrap(npc + 4 * Immediate(imm))
  {}

  /** BEQ (4) is taken exactly when the two registers are equal, BNE (5) exactly when they are not,
      BLEZ (6) and BGTZ (7) follow the sign of rs. */
  lemma Branches(c: Cpu, op: SixBits, rs: Reg, rt: Reg, imm: Half)
    requires Fetches(c, IType(op, rs, rt, imm)) && 4 <= op < 8
    ensures var a, b := c.regs[rs], c.regs[rt];
      var taken := match op case 4 => a == b case 5 => a != b case 6 => Signed(a) <= 0 case _ => Signed(a) > 0;
      WentTo(c, OneInstruction(c), if taken then BranchTarget(c, imm) else Behind(c))
  {
    hide IType, WentTo, Trapped, OneInstruction, Fetches, AfterFetch, SignExtend16, Immediate, Wrap, Signed, Negative;
    hide Target, ImmediateOp;
    TargetIs(c.regs[35], imm);
    ImmediateRuns(c, op, rs, rt, imm);
  }

  lemma BCondRuns(c: Cpu, rs: Reg, rt: Reg, imm: Half)
    requires Fetches(c, IType(1, rs, rt, imm))
    ensures var op := if rt == 0 then BLTZ else if rt == 1 then BGEZ else if rt == 16 then BLTZAL
                      else if rt == 17 then BGEZAL else UNIMP;
      var i := Instruction(op, rs, rt, imm / 0x800, SignExtend16(imm));
      Gives(c, OneInstruction(c), if op == UNIMP then Raised(IllegalInstrException)
                                  else BranchOp(i, c.regs[rs], c.regs[rt], c.regs[35]))
  {
    hide IType, Gives, Fetches, Compute, BranchOp, OneInstruction, SignExtend16, DecodeInstruction;
    BDecodes(rs, rt, imm);
    var i := DecodeInstruction(IType(1, rs, rt, imm));
    Computes(c, IType(1, rs, rt, imm), i);
    ComputeIs(i, c.regs[rs], c.regs[rt], c.regs[32], c.regs[33], c.regs[35]);
  }

  lemma NegativeIsSign(a: Word)
    ensures Negative(a) == (Signed(a) < 0)
  {}

  /** Behind opcode 1 the field rt selects: BLTZ (0) and BGEZ (1), and with the return address in register 31
      BLTZAL (16) and BGEZAL (17). Those two write register 31 first, so for rs == 31 they look at that address. */
  lemma BranchesOnSign(c: Cpu, rs: Reg, rt: Reg, imm: Half)
    requires Fetches(c, IType(1, rs, rt, imm)) && rt in {0, 1, 16, 17}
    ensures var a := if rt >= 16 && rs == 31 then Behind(c) else c.regs[rs];
      var pc := if (Signed(a) < 0) == (rt % 16 == 0) then BranchTarget(c, imm) else Behind(c);
      if rt < 16 then WentTo(c, OneInstruction(c), pc) else Linked(c, OneInstruction(c), 31, pc)
  {
    hide IType, WentTo, Linked, OneInstruction, Fetches, AfterFetch, SignExtend16, Immediate, Wrap, Signed, Negative;
    hide Target;
    TargetIs(c.regs[35], imm);
    BCondRuns(c, rs, rt, imm);
    NegativeIsSign(c.regs[rs]);
    NegativeIsSign(Behind(c));
  }

  lemma JRuns(c: Cpu, op: SixBits, target: JumpIndex)
    requires Fetches(c, JType(op, target)) && (op == 2 || op == 3)
    ensures var i := DecodeInstruction(JType(op, target));
      Gives(c, OneInstruction(c), JumpOp(i, c.regs[i.rs], c.regs[35]))
  {
    hide JType, Gives, Fetches, Compute, JumpOp, OneInstruction, DecodeInstruction;
    JDecodes(op, target);
    var i := DecodeInstruction(JType(op, target));
    Computes(c, JType(op, target), i);
    ComputeIs(i, c.regs[i.rs], c.regs[i.rt], c.regs[32], c.regs[33], c.regs[35]);
  }

  /** The upper four bits of one address and the lower 28 bits of another. */
  function FarAddress(next: Word, target: JumpIndex): Word { next / 0x1000_0000 * 0x1000_0000 + 4 * target }

  lemma FarAddressIs(next: Word, target: JumpIndex)
    ensures next - next % 0x1000_0000 + 4 * target % 0x1000_0000 == FarAddress(next, target)
  {}

  /** J (2) and JAL (3) keep the upper four bits of the address behind the delay slot. */
  lemma Jumps(c: Cpu, op: SixBits, target: JumpIndex)
    requires Fetches(c, JType(op, target)) && (op == 2 || op == 3)
    ensures var pc := FarAddress(Behind(c), target);
      if op == 2 then WentTo(c, OneInstruction(c), pc) else Linked(c, OneInstruction(c), 31, pc)
  {
    hide JType, WentTo, Linked, OneInstruction, Fetches, AfterFetch, DecodeInstruction, Wrap, FarAddress;
    JDecodes(op, target);
    JRuns(c, op, target);
    FarAddressIs(Behind(c), target);
  }

  /** JR (8) and JALR (9) go where rs points; JALR writes rd first. */
  lemma RegisterJumps(c: Cpu, rs: Reg, rt: Reg, rd: Reg, shift: Reg, fn: SixBits)
    requires Fetches(c, RType(rs, rt, rd, shift, fn)) && (fn == 8 || fn == 9)
    ensures if fn == 8 then WentTo(c, OneInstruction(c), c.regs[rs])
            else Linked(c, OneInstruction(c), rd, if rs == rd then Behind(c) else c.regs[rs])
  {
    hide RType, WentTo, Linked, Trapped, OneInstruction, Fetches, AfterFetch, Wrap;
    hide RegisterOp, HiLoOp, ShiftOp;
    SpecialRuns(c, rs, rt, rd, shift, fn);
  }

  // ---- What traps ----

  /** A word that cannot be fetched traps with the program counter as the bad address. */
  lemma FetchFaults(c: Cpu)
    requires WellFormed(c.regs)
    ensures match ReadMem(c.mem, c.pt, c.regs[34], 4)
      case LoadFault(e) => Trapped(c, OneInstruction(c), e, c.regs[34], c.pt)
      case Value(w, _) => Fetches(c, w)
  {
    hide Trapped, Execute, DecodeInstruction;
    var f := ReadMem(c.mem, c.pt, c.regs[34], 4);
    hide ReadMem;
    if f.LoadFault? { RaiseShows(c, f.exception, c.regs[34], c.pt); }
  }

  predicate ImplementedFunction(fn: SixBits) {
    fn in {0, 2, 3, 4, 6, 7, 8, 9, 12, 16, 17, 18, 19, 24, 25, 26, 27, 32, 33, 34, 35, 36, 37, 38, 39, 42, 43}
  }

  predicate ImplementedOpcode(op: SixBits) { 2 <= op < 16 || 32 <= op < 39 || 40 <= op < 44 || op == 46 }

  predicate Implemented(w: Word) {
    var op := w / 0x400_0000;
    if op == 0 then ImplementedFunction(w % 64)
    else if op == 1 then w / 0x1_0000 % 32 in {0, 1, 16, 17}
    else ImplementedOpcode(op)
  }

  lemma ImplementedSplits(w: Word)
    ensures KindOf(DecodeInstruction(w).op).Illegal? <==> !Implemented(w) || (w < 0x400_0000 && w % 64 == 12)
    ensures DecodeInstruction(w).op == SYSCALL <==> w < 0x400_0000 && w % 64 == 12
    ensures DecodeInstruction(w).op == SYSCALL ==> Implemented(w)
  {
    hide SignExtend16;
  }

  lemma LegalTraps(i: Instruction, x: Operands)
    requires !KindOf(i.op).Illegal?
    ensures var e := Execute(i, x); e.Trap? ==> e.exception != IllegalInstrException
  {
    hide Wrap, BitAnd, BitOr, BitXor, Signed, Product, Quotient, Converted, Merged, Decode, Encode, Overlay, Negative;
    hide ShiftLeft, ShiftRight, ShiftRightArithmetic, Target;
  }

  lemma IllegalTraps(i: Instruction, x: Operands)
    requires KindOf(i.op).Illegal?
    ensures Execute(i, x) == Trap(if i.op == SYSCALL then SyscallException else IllegalInstrException, 0, x.pt)
  {}

  /** SYSCALL (12) traps to the kernel. */
  lemma SystemCall(c: Cpu, rs: Reg, rt: Reg, rd: Reg, shift: Reg)
    requires Fetches(c, RType(rs, rt, rd, shift, 12))
    ensures Trapped(c, OneInstruction(c), SyscallException, 0, AfterFetch(c))
  {
    hide RType, Trapped, OneInstruction, Fetches, AfterFetch, RegisterOp, HiLoOp, ShiftOp, JumpOp;
    SpecialRuns(c, rs, rt, rd, shift, 12);
  }

  lemma ShowsWhich(c: Cpu, o: Outcome, e: Effect)
    requires Shows(c, o, e)
    ensures match e
      case Trap(x, _, _) => o.Exception? && o.exception == x
      case AssertFails => o.Aborted?
      case _ => o.Normal?
  {}

  /** The processor refuses exactly the words that the machine does not implement. */
  lemma IllegalExactly(c: Cpu, w: Word)
    requires Fetches(c, w)
    ensures var o := OneInstruction(c);
      if Implemented(w) then !(o.Exception? && o.exception == IllegalInstrException)
      else Trapped(c, o, IllegalInstrException, 0, AfterFetch(c))
  {
    hide ReadMem, DecodeInstruction, Implemented, Trapped, Retired, OneInstruction, Execute, AfterFetch;
    var i := DecodeInstruction(w);
    var x := OperandsOf(c.regs, i, c.mem, AfterFetch(c));
    ImplementedSplits(w);
    Runs(c, w);
    ShowsWhich(c, OneInstruction(c), Execute(i, x));
    if KindOf(i.op).Illegal? {
      IllegalTraps(i, x);
    } else {
      LegalTraps(i, x);
    }
  }

  // ---- Loads and stores ----

  function EffectiveAddress(c: Cpu, rs: Reg, imm: Half): Word { Wrap(c.regs[rs] + Immediate(imm)) }

  /** The value of rt that LWR merges with: the pending load counts. */
  function Forwarded(c: Cpu, rt: Reg): Word { if c.regs[37] == rt then c.regs[38] else c.regs[rt] }

  function LoadSize(op: SixBits): (size: nat)
    ensures ValidSize(size)
  {
    if op == 32 || op == 36 then 1 else if op == 33 || op == 37 then 2 else 4
  }

  /** The value v that a load makes of the bytes b that it reads; f is the value of rt that LWR merges with. */
  predicate LoadLaw(op: SixBits, f: Word, b: seq<Byte>, v: Word) {
    && |b| == LoadSize(op)
    && var low: int := b[0];
      match op
      case 32 => Signed(v) == if low < 0x80 then low else low - 0x100
      case 36 => v == low
      case 33 =>
        var h := low + 0x100 * (b[1] as int);
        Signed(v) == if h < 0x8000 then h else h - 0x1_0000
      case 37 => v == low + 0x100 * (b[1] as int)
      case 38 => v / 0x100 == f / 0x100 && v % 0x100 == b[3]
      case _ => v == low + 0x100 * (b[1] as int) + 0x1_0000 * (b[2] as int) + 0x100_0000 * (b[3] as int)
  }

  lemma LowByteReplaced(f: Word, b: Byte)
    ensures (f - f % 0x100 + b) / 0x100 == f / 0x100 && (f - f % 0x100 + b) % 0x100 == b
  {}

  lemma LoadCodes()
    ensures PrimaryOp(32) == LB && PrimaryOp(33) == LH && PrimaryOp(34) == LWL && PrimaryOp(35) == LW
    ensures PrimaryOp(36) == LBU && PrimaryOp(37) == LHU && PrimaryOp(38) == LWR
  {}

  lemma ConvertedShort(op: SixBits, f: Word, b: seq<Byte>)
    requires 32 <= op < 39 && |b| == LoadSize(op) < 4
    ensures LoadLaw(op, f, b, Converted(PrimaryOp(op), f, Decode(b)))
  {
    hide PrimaryOp;
    LoadCodes();
  }

  /** LB and LH extend the sign, LBU and LHU do not, LWR replaces the lowest byte of rt by the highest one. */
  lemma ConvertedLaw(op: SixBits, f: Word, b: seq<Byte>)
    requires 32 <= op < 39 && |b| == LoadSize(op)
    ensures LoadLaw(op, f, b, Converted(PrimaryOp(op), f, Decode(b)))
  {
    if |b| < 4 {
      ConvertedShort(op, f, b);
    } else {
      hide PrimaryOp, SignExtend16, Signed;
      LoadCodes();
      DigitsOf(b[0], b[1], b[2], b[3]);
      LowByteReplaced(f, b[3]);
    }
  }

  predicate Loaded(c: Cpu, o: Outcome, rt: Reg, v: Word, table: PageTable) {
    && Retired(c, o, 0, 0, c.regs[32], c.regs[33], Behind(c), rt, v)
    && o.cpu.mem == c.mem && o.cpu.pt == table
  }

  lemma TouchingRuns(c: Cpu, op: SixBits, rs: Reg, rt: Reg, imm: Half)
    requires Fetches(c, IType(op, rs, rt, imm)) && op >= 32
    ensures var i := Instruction(PrimaryOp(op), rs, rt, imm / 0x800, SignExtend16(imm));
      Shows(c, OneInstruction(c), Execute(i, OperandsOf(c.regs, i, c.mem, AfterFetch(c))))
  {
    hide IType, Shows, Fetches, Execute, OneInstruction, SignExtend16, PrimaryOp, OperandsOf, AfterFetch;
    IDecodes(op, rs, rt, imm);
    Runs(c, IType(op, rs, rt, imm));
  }

  /** The effect of a load at addr, by the translation of addr and the bytes there. */
  predicate LoadEffect(x: Operands, op: SixBits, rt: Reg, addr: Word, e: Effect) {
    var size := LoadSize(op);
    if addr % size != 0 then e == if op == 34 || op == 38 then AssertFails else Trap(AddressErrorException, addr, x.pt)
    else
      match Translate(x.pt, addr, size, false)
      case Fault(f) => e == Trap(f, addr, x.pt)
      case Phys(a, table) =>
        && e.Done? && e == Done(0, 0, x.hi, x.lo, Wrap(x.npc + 4), rt, e.loadValue, x.mem, table)
        && a + size <= |x.mem| && LoadLaw(op, x.forwarded, x.mem[a..a + size], e.loadValue)
  }

  lemma LoadOpIs(i: Instruction, x: Operands, op: SixBits)
    requires 32 <= op < 39 && i.op == PrimaryOp(op)
    ensures LoadEffect(x, op, i.rt, Wrap(x.a + i.extra), LoadOp(i, x))
  {
    hide Translate, Converted, Decode, LoadLaw, Wrap;
    var addr, size := Wrap(x.a + i.extra), LoadSize(op);
    assert size == SizeOf(i.op);
    var t := Translate(x.pt, addr, size, false);
    if addr % size == 0 && t.Phys? {
      AccessStaysInPage(x.pt, addr, size, false);
      ConvertedLaw(op, x.forwarded, x.mem[t.addr..t.addr + size]);
    }
  }

  /** A load puts the value into the pending load and nothing into a general register. An address that is not aligned
      traps, except for LWL and LWR, which the machine does not support there; a failed translation traps. */
  predicate LoadOutcome(c: Cpu, o: Outcome, op: SixBits, rt: Reg, addr: Word, v: Word) {
    var size, pt := LoadSize(op), AfterFetch(c);
    if addr % size != 0 then if op == 34 || op == 38 then o.Aborted? else Trapped(c, o, AddressErrorException, addr, pt)
    else
      match Translate(pt, addr, size, false)
      case Fault(e) => Trapped(c, o, e, addr, pt)
      case Phys(a, table) =>
        && Loaded(c, o, rt, v, table)
        && a + size <= |c.mem| && LoadLaw(op, Forwarded(c, rt), c.mem[a..a + size], v)
  }

  lemma LoadShows(c: Cpu, o: Outcome, x: Operands, op: SixBits, rt: Reg, addr: Word, e: Effect)
    requires Shows(c, o, e) && LoadEffect(x, op, rt, addr, e)
    requires x.pt == AfterFetch(c) && x.mem == c.mem && x.forwarded == Forwarded(c, rt)
    requires x.hi == c.regs[32] && x.lo == c.regs[33] && x.npc == c.regs[35]
    ensures LoadOutcome(c, o, op, rt, addr, if e.Done? then e.loadValue else 0)
  {
    hide Translate, LoadLaw, Wrap, Trapped, Retired, AfterFetch, Forwarded;
  }

  lemma Loads(c: Cpu, op: SixBits, rs: Reg, rt: Reg, imm: Half) returns (v: Word)
    requires Fetches(c, IType(op, rs, rt, imm)) && 32 <= op < 39
    ensures LoadOutcome(c, OneInstruction(c), op, rt, EffectiveAddress(c, rs, imm), v)
  {
    hide LoadOutcome, LoadEffect, Shows, Wrap, OneInstruction, LoadOp, SignExtend16, Immediate, ReadMem, IType;
    hide Compute, Apply, StoreOp;
    var i := Instruction(PrimaryOp(op), rs, rt, imm / 0x800, SignExtend16(imm));
    var x := OperandsOf(c.regs, i, c.mem, AfterFetch(c));
    var e := Execute(i, x);
    TouchingRuns(c, op, rs, rt, imm);
    AddSignExtended(c.regs[rs], imm);
    LoadOpIs(i, x, op);
    LoadShows(c, OneInstruction(c), x, op, rt, Wrap(x.a + i.extra), e);
    v := if e.Done? then e.loadValue else 0;
  }

  function StoreSize(op: SixBits): (size: nat)
    ensures ValidSize(size)
  {
    if op == 40 then 1 else if op == 41 then 2 else 4
  }

  /** The lowest bytes of the value v lie at a and behind it, the lowest one first; nothing else has changed. */
  predicate BytesStored(mem: Ram, mem2: Ram, a: nat, size: nat, v: Word) {
    forall p :: 0 <= p < 32768 ==> mem2[p] == if a <= p < a + size then ByteOf(v, p - a) else mem[p]
  }

  /** SWR on an aligned address replaces the highest byte of the word by the lowest one of v. */
  predicate TopByteStored(mem: Ram, mem2: Ram, a: nat, v: Word) {
    forall p :: 0 <= p < 32768 ==> mem2[p] == if p == a + 3 then v % 256 else mem[p]
  }

  predicate StoredTo(c: Cpu, o: Outcome, table: PageTable) {
    Retired(c, o, 0, 0, c.regs[32], c.regs[33], Behind(c), 0, 0) && o.cpu.pt == table
  }

  /** SB, SH and SW. */
  predicate StoreOutcome(c: Cpu, o: Outcome, op: SixBits, addr: Word, v: Word) {
    match Translate(AfterFetch(c), addr, StoreSize(op), true)
    case Fault(e) => Trapped(c, o, e, addr, AfterFetch(c))
    case Phys(a, table) => StoredTo(c, o, table) && BytesStored(c.mem, o.cpu.mem, a, StoreSize(op), v)
  }

  /** SWL and SWR read the word before they write it, and are supported on aligned addresses only. */
  predicate PartialOutcome(c: Cpu, o: Outcome, op: SixBits, addr: Word, v: Word) {
    if addr % 4 != 0 then o.Aborted?
    else
      match Translate(AfterFetch(c), addr, 4, false)
      case Fault(e) => Trapped(c, o, e, addr, AfterFetch(c))
      case Phys(_, read) =>
        match Translate(read, addr, 4, true)
        case Fault(e) => Trapped(c, o, e, addr, read)
        case Phys(a, table) =>
          && StoredTo(c, o, table)
          && if op == 42 then BytesStored(c.mem, o.cpu.mem, a, 4, v) else TopByteStored(c.mem, o.cpu.mem, a, v)
  }

  lemma OverlayStores(mem: Ram, a: nat, size: nat, v: Word)
    requires ValidSize(size) && a + size <= 32768
    ensures BytesStored(mem, Overlay(mem, a, Encode(v, size)), a, size, v)
  {
    hide Encode, ByteOf, Overlay;
    var mem2 := Overlay(mem, a, Encode(v, size));
    forall p | 0 <= p < 32768 ensures mem2[p] == if a <= p < a + size then ByteOf(v, p - a) else mem[p] {
      OverlayAt(mem, a, Encode(v, size), p);
      if a <= p < a + size { EncodeAt(v, size, p - a); }
    }
  }

  lemma MergedBytes(b: seq<Byte>, n: Byte)
    requires |b| == 4
    ensures Encode(Decode(b) % 0x100_0000 + n * 0x100_0000, 4) == [b[0], b[1], b[2], n]
  {
    var low: int := b[0] as int + 0x100 * (b[1] as int) + 0x1_0000 * (b[2] as int);
    assert Decode(b) % 0x100_0000 == low;
    hide Decode;
    DigitsOf(b[0], b[1], b[2], n);
    FourDigits(low + n * 0x100_0000);
  }

  /** The word that SWR writes back. */
  lemma MergedStores(mem: Ram, a: nat, v: Word)
    requires a + 4 <= 32768
    ensures var w := Decode(mem[a..a + 4]) % 0x100_0000 + v % 0x100 * 0x100_0000;
      TopByteStored(mem, Overlay(mem, a, Encode(w, 4)), a, v)
  {
    hide Encode, Decode, Overlay;
    var b := mem[a..a + 4];
    var e := Encode(Decode(b) % 0x100_0000 + v % 0x100 * 0x100_0000, 4);
    MergedBytes(b, v % 0x100);
    var mem2 := Overlay(mem, a, e);
    forall p | 0 <= p < 32768 ensures mem2[p] == if p == a + 3 then v % 256 else mem[p] {
      OverlayAt(mem, a, e, p);
    }
  }

  /** The effect of one WriteMem. */
  predicate WriteEffect(x: Operands, addr: Word, size: nat, v: Word, e: Effect)
    requires ValidSize(size)
  {
    match Translate(x.pt, addr, size, true)
    case Fault(f) => e == Trap(f, addr, x.pt)
    case Phys(a, table) =>
      && e.Done? && e == Done(0, 0, x.hi, x.lo, Wrap(x.npc + 4), 0, 0, e.mem, table)
      && a + size <= 32768 && e.mem == Overlay(x.mem, a, Encode(v, size))
  }

  lemma ExecuteStoreIs(x: Operands, addr: Word, size: nat, v: Word)
    requires ValidSize(size)
    ensures WriteEffect(x, addr, size, v, ExecuteStore(x, addr, size, v))
  {
    hide Translate, Encode, Overlay, Wrap;
    if Translate(x.pt, addr, size, true).Phys? { AccessStaysInPage(x.pt, addr, size, true); }
  }

  lemma WriteShows(c: Cpu, o: Outcome, x: Operands, op: SixBits, addr: Word, e: Effect)
    requires Shows(c, o, e) && WriteEffect(x, addr, StoreSize(op), x.b, e)
    requires x.pt == AfterFetch(c) && x.mem == c.mem && x.hi == c.regs[32] && x.lo == c.regs[33] && x.npc == c.regs[35]
    ensures StoreOutcome(c, o, op, addr, x.b)
  {
    hide Translate, Encode, Overlay, Wrap, Trapped, Retired, AfterFetch, BytesStored, ValidSize;
    var t := Translate(x.pt, addr, StoreSize(op), true);
    if t.Phys? { OverlayStores(x.mem, t.addr, StoreSize(op), x.b); }
  }

  lemma Stores(c: Cpu, op: SixBits, rs: Reg, rt: Reg, imm: Half)
    requires Fetches(c, IType(op, rs, rt, imm)) && (op == 40 || op == 41 || op == 43)
    ensures StoreOutcome(c, OneInstruction(c), op, EffectiveAddress(c, rs, imm), c.regs[rt])
  {
    hide StoreOutcome, WriteEffect, Shows, Wrap, OneInstruction, ExecuteStore, SignExtend16, Immediate, ReadMem, IType;
    hide Compute, Apply, LoadOp, ExecutePartialStore;
    var i := Instruction(PrimaryOp(op), rs, rt, imm / 0x800, SignExtend16(imm));
    var x := OperandsOf(c.regs, i, c.mem, AfterFetch(c));
    var addr := Wrap(x.a + i.extra);
    TouchingRuns(c, op, rs, rt, imm);
    AddSignExtended(c.regs[rs], imm);
    ExecuteStoreIs(x, addr, StoreSize(op), x.b);
    WriteShows(c, OneInstruction(c), x, op, addr, Execute(i, x));
  }

  /** The effect of SWL and SWR. */
  predicate PartialEffect(x: Operands, op: SixBits, addr: Word, e: Effect) {
    if addr % 4 != 0 then e == AssertFails
    else
      match Translate(x.pt, addr, 4, false)
      case Fault(f) => e == Trap(f, addr, x.pt)
      case Phys(a, read) =>
        && a + 4 <= 32768
        && var w := if op == 42 then x.b else Decode(x.mem[a..a + 4]) % 0x100_0000 + x.b % 0x100 * 0x100_0000;
          WriteEffect(x.(pt := read), addr, 4, w, e)
  }

  lemma PartialStoreIs(i: Instruction, x: Operands, op: SixBits)
    requires (op == 42 || op == 46) && i.op == PrimaryOp(op)
    ensures PartialEffect(x, op, Wrap(x.a + i.extra), StoreOp(i, x))
  {
    hide Translate, Encode, Decode, Overlay, Wrap, WriteEffect, ExecuteStore;
    var addr := Wrap(x.a + i.extra);
    var t := Translate(x.pt, addr, 4, false);
    if addr % 4 == 0 && t.Phys? {
      AccessStaysInPage(x.pt, addr, 4, false);
      ExecuteStoreIs(x.(pt := t.table), addr, 4, Merged(i.op, Decode(x.mem[t.addr..t.addr + 4]), x.b));
    }
  }

  /** The write goes where the read came from. */
  lemma SameFrame(pt: PageTable, addr: Word)
    ensures var t := Translate(pt, addr, 4, false);
      t.Phys? ==> var u := Translate(t.table, addr, 4, true); u.Phys? ==> u.addr == t.addr
  {}

  lemma PartialShows(c: Cpu, o: Outcome, x: Operands, op: SixBits, addr: Word, e: Effect)
    requires Shows(c, o, e) && PartialEffect(x, op, addr, e)
    requires x.pt == AfterFetch(c) && x.mem == c.mem && x.hi == c.regs[32] && x.lo == c.regs[33] && x.npc == c.regs[35]
    ensures PartialOutcome(c, o, op, addr, x.b)
  {
    hide Translate, Encode, Decode, Overlay, Wrap, Trapped, Retired, AfterFetch, BytesStored, TopByteStored;
    var t := Translate(x.pt, addr, 4, false);
    SameFrame(x.pt, addr);
    if addr % 4 == 0 && t.Phys? {
      OverlayStores(x.mem, t.addr, 4, x.b);
      MergedStores(x.mem, t.addr, x.b);
    }
  }

  lemma PartialStores(c: Cpu, op: SixBits, rs: Reg, rt: Reg, imm: Half)
    requires Fetches(c, IType(op, rs, rt, imm)) && (op == 42 || op == 46)
    ensures PartialOutcome(c, OneInstruction(c), op, EffectiveAddress(c, rs, imm), c.regs[rt])
  {
    hide PartialOutcome, PartialEffect, Shows, Wrap, OneInstruction, SignExtend16, Immediate, ReadMem, IType, StoreOp;
    hide Compute, Apply, LoadOp;
    var i := Instruction(PrimaryOp(op), rs, rt, imm / 0x800, SignExtend16(imm));
    var x := OperandsOf(c.regs, i, c.mem, AfterFetch(c));
    TouchingRuns(c, op, rs, rt, imm);
    AddSignExtended(c.regs[rs], imm);
    PartialStoreIs(i, x, op);
    PartialShows(c, OneInstruction(c), x, op, Wrap(x.a + i.extra), Execute(i, x));
  }
}
