/** The simulated MIPS processor of machine/mipssim.cc: decoding, execution with delayed loads
    and delayed branches, and what a context switch between two instructions does to it. */
module Mips {
  import opened Words
  import opened Memory
  import opened Multiplier

  // Register numbers of machine/machine.h
  const R31: nat := 31
  const HiReg: nat := 32
  const LoReg: nat := 33
  const PCReg: nat := 34
  const NextPCReg: nat := 35
  const PrevPCReg: nat := 36
  const LoadReg: nat := 37
  const LoadValueReg: nat := 38
  const BadVAddrReg: nat := 39
  const NUM_TOTAL_REGS: nat := 40

  datatype Op =
    | ADD | ADDI | ADDIU | ADDU | AND | ANDI | BEQ | BGEZ | BGEZAL | BGTZ | BLEZ | BLTZ | BLTZAL | BNE
    | DIV | DIVU | J | JAL | JALR | JR | LB | LBU | LH | LHU | LUI | LW | LWL | LWR
    | MFHI | MFLO | MTHI | MTLO | MULT | MULTU | NOR | OR | ORI | SB | SH | SLL | SLLV
    | SLT | SLTI | SLTIU | SLTU | SRA | SRAV | SRL | SRLV | SUB | SUBU | SW | SWL | SWR
    | XOR | XORI | SYSCALL | UNIMP | RES

  // ---- Decoding ----

  type Reg = x: int | 0 <= x < 32

  datatype Instruction = Instruction(op: Op, rs: Reg, rt: Reg, rd: Reg, extra: Word)

  /** The operation of primary opcodes 2 to 63; 0 (SPECIAL) and 1 (BCOND) are decoded further. */
  function PrimaryOp(k: nat): Op {
    match k
    case 2 => J case 3 => JAL case 4 => BEQ case 5 => BNE case 6 => BLEZ case 7 => BGTZ
    case 8 => ADDI case 9 => ADDIU case 10 => SLTI case 11 => SLTIU case 12 => ANDI case 13 => ORI
    case 14 => XORI case 15 => LUI case 32 => LB case 33 => LH case 34 => LWL case 35 => LW
    case 36 => LBU case 37 => LHU case 38 => LWR case 40 => SB case 41 => SH case 42 => SWL
    case 43 => SW case 46 => SWR
    case 16 | 17 | 18 | 19 | 48 | 49 | 50 | 51 | 56 | 57 | 58 | 59 => UNIMP
    case _ => RES
  }

  /** The operation that the function field of a SPECIAL instruction selects. */
  function SpecialOp(k: nat): Op {
    match k
    case 0 => SLL case 2 => SRL case 3 => SRA case 4 => SLLV case 6 => SRLV case 7 => SRAV
    case 8 => JR case 9 => JALR case 12 => SYSCALL case 16 => MFHI case 17 => MTHI case 18 => MFLO
    case 19 => MTLO case 24 => MULT case 25 => MULTU case 26 => DIV case 27 => DIVU case 32 => ADD
    case 33 => ADDU case 34 => SUB case 35 => SUBU case 36 => AND case 37 => OR case 38 => XOR
    case 39 => NOR case 42 => SLT case 43 => SLTU
    case 13 => UNIMP
    case _ => RES
  }

  function SignExtend16(x: Word): Word
    requires x < 0x10000
  {
    if x >= 0x8000 then 0xffff_0000 + x else x
  }

  function DecodeInstruction(value: Word): Instruction {
    var rs := value / 0x20_0000 % 32;
    var rt := value / 0x1_0000 % 32;
    var rd := value / 0x800 % 32;
    var primary := value / 0x400_0000;
    if primary == 0 then Instruction(SpecialOp(value % 64), rs, rt, rd, value / 64 % 32)
    else if primary == 1 then
      var op := if rt == 0 then BLTZ else if rt == 1 then BGEZ else if rt == 16 then BLTZAL
                else if rt == 17 then BGEZAL else UNIMP;
      Instruction(op, rs, rt, rd, SignExtend16(value % 0x1_0000))
    else if primary == 2 || primary == 3 then Instruction(PrimaryOp(primary), rs, rt, rd, value % 0x400_0000)
    else Instruction(PrimaryOp(primary), rs, rt, rd, SignExtend16(value % 0x1_0000))
  }

  // ---- Arithmetic on words ----

  datatype Gate = And | Or | Xor

  function OnDigits(g: Gate, x: bool, y: bool): bool {
    match g
    case And => x && y
    case Or => x || y
    case Xor => x != y
  }

  /** The lowest n binary digits of a and b combined digit by digit. */
  function Bitwise(g: Gate, a: nat, b: nat, n: nat): (r: nat)
    ensures r < Pow2(n)
  {
    if n == 0 then 0
    else 2 * Bitwise(g, a / 2, b / 2, n - 1) + if OnDigits(g, a % 2 == 1, b % 2 == 1) then 1 else 0
  }

  function BitAnd(a: Word, b: Word): Word { Pow2Values(); Bitwise(And, a, b, 32) }
  function BitOr(a: Word, b: Word): Word { Pow2Values(); Bitwise(Or, a, b, 32) }
  function BitXor(a: Word, b: Word): Word { Pow2Values(); Bitwise(Xor, a, b, 32) }

  predicate Negative(a: Word) { a >= HALF }

  function Flag(b: bool): Word { if b then 1 else 0 }

  function ShiftLeft(a: Word, n: nat): Word { Wrap(a * Pow2(n)) }
  function ShiftRight(a: Word, n: nat): Word {
    assert Pow2(n) >= 1 by { Pow2Monotone(n, n); }
    Wrap(a / Pow2(n))
  }
  function ShiftRightArithmetic(a: Word, n: nat): Word {
    assert Pow2(n) >= 1 by { Pow2Monotone(n, n); }
    Wrap(Signed(a) as int / Pow2(n))
  }

  /** Division that truncates toward zero, as on the host. */
  function Quotient(a: int, b: int): int
    requires b != 0
  {
    var q := (if a < 0 then -a else a) / (if b < 0 then -b else b);
    if (a < 0) != (b < 0) then -q else q
  }

  function Target(npc: Word, extra: Word): Word { Wrap(npc + 4 * extra) }

  // ---- Execution without memory ----

  /** What an instruction that does not touch memory does. The program counter after next is
      the delayed one: npc is the instruction in the branch delay slot. */
  datatype Result =
    | Write(dst: Reg, value: Word)
    | WriteHiLo(hi: Word, lo: Word)
    | Goto(pc: Word)
    | GotoAndLink(dst: Reg, pc: Word)
    | Raised(exception: Exception)

  datatype Kind = Register | Immediate | Shift | HiLo | Branch | Jump | Load | Store | Illegal

  function KindOf(op: Op): Kind {
    match op
    case ADD | ADDU | AND | NOR | OR | SLT | SLTU | SUB | SUBU | XOR => Register
    case ADDI | ADDIU | ANDI | LUI | ORI | SLTI | SLTIU | XORI => Immediate
    case SLL | SLLV | SRA | SRAV | SRL | SRLV => Shift
    case DIV | DIVU | MFHI | MFLO | MTHI | MTLO | MULT | MULTU => HiLo
    case BEQ | BGEZ | BGEZAL | BGTZ | BLEZ | BLTZ | BLTZAL | BNE => Branch
    case J | JAL | JALR | JR => Jump
    case LB | LBU | LH | LHU | LW | LWL | LWR => Load
    case SB | SH | SW | SWL | SWR => Store
    case SYSCALL | UNIMP | RES => Illegal
  }

  function RegisterOp(i: Instruction, a: Word, b: Word): Result {
    var sum, diff := Wrap(a + b), Wrap(a - b);
    match i.op
    case ADD =>
      if Negative(a) == Negative(b) && Negative(a) != Negative(sum) then Raised(OverflowException) else Write(i.rd, sum)
    case ADDU => Write(i.rd, sum)
    case SUB =>
      if Negative(a) != Negative(b) && Negative(a) != Negative(diff) then Raised(OverflowException)
      else Write(i.rd, diff)
    case SUBU => Write(i.rd, diff)
    case AND => Write(i.rd, BitAnd(a, b))
    case OR => Write(i.rd, BitOr(a, b))
    case XOR => Write(i.rd, BitXor(a, b))
    case NOR => Write(i.rd, W - 1 - BitOr(a, b))
    case SLT => Write(i.rd, Flag(Signed(a) < Signed(b)))
    case _ => Write(i.rd, Flag(a < b))   // SLTU
  }

  function ImmediateOp(i: Instruction, a: Word): Result {
    var sum, low := Wrap(a + i.extra), i.extra % 0x10000;
    match i.op
    case ADDI =>
      if Negative(a) == Negative(i.extra) && Negative(i.extra) != Negative(sum) then Raised(OverflowException)
      else Write(i.rt, sum)
    case ADDIU => Write(i.rt, sum)
    case ANDI => Write(i.rt, BitAnd(a, low))
    case ORI => Write(i.rt, BitOr(a, low))
    case XORI => Write(i.rt, BitXor(a, low))
    case LUI => Write(i.rt, Wrap(i.extra * 0x10000))
    case SLTI => Write(i.rt, Flag(Signed(a) < Signed(i.extra)))
    case _ => Write(i.rt, Flag(a < i.extra))   // SLTIU
  }

  function ShiftOp(i: Instruction, a: Word, b: Word): Result {
    match i.op
    case SLL => Write(i.rd, ShiftLeft(b, i.extra % 32))
    case SLLV => Write(i.rd, ShiftLeft(b, a % 32))
    case SRA => Write(i.rd, ShiftRightArithmetic(b, i.extra % 32))
    case SRAV => Write(i.rd, ShiftRightArithmetic(b, a % 32))
    case SRL => Write(i.rd, ShiftRight(b, i.extra % 32))
    case _ => Write(i.rd, ShiftRight(b, a % 32))   // SRLV
  }

  /** The double word that Multiplier.Mult computes. */
  function Product(a: Word, b: Word, signedArith: bool): (p: nat)
    ensures p < WW
  {
    DoubleProduct(Signed(a), Signed(b), signedArith) % WW
  }

  function HiLoOp(i: Instruction, a: Word, b: Word, hi: Word, lo: Word): Result {
    match i.op
    case MFHI => Write(i.rd, hi)
    case MFLO => Write(i.rd, lo)
    case MTHI => WriteHiLo(a, lo)
    case MTLO => WriteHiLo(hi, a)
    case MULT => WriteHiLo(Product(a, b, true) / W, Product(a, b, true) % W)
    case MULTU => WriteHiLo(Product(a, b, false) / W, Product(a, b, false) % W)
    case DIV =>
      if b == 0 then WriteHiLo(0, 0)
      else
        var q := Quotient(Signed(a), Signed(b));
        WriteHiLo(Wrap(Signed(a) as int - q * Signed(b) as int), Wrap(q))
    case _ => if b == 0 then WriteHiLo(0, 0) else WriteHiLo(a % b, a / b)   // DIVU
  }

  /** BGEZAL and BLTZAL write register 31 before they look at rs. */
  function BranchOp(i: Instruction, a: Word, b: Word, npc: Word): Result {
    var next, target := Wrap(npc + 4), Target(npc, i.extra);
    var linked := if i.rs == R31 then next else a;
    match i.op
    case BEQ => Goto(if a == b then target else next)
    case BNE => Goto(if a != b then target else next)
    case BGEZ => Goto(if !Negative(a) then target else next)
    case BLTZ => Goto(if Negative(a) then target else next)
    case BGTZ => Goto(if Signed(a) > 0 then target else next)
    case BLEZ => Goto(if Signed(a) <= 0 then target else next)
    case BGEZAL => GotoAndLink(R31, if !Negative(linked) then target else next)
    case _ => GotoAndLink(R31, if Negative(linked) then target else next)   // BLTZAL
  }

  /** JALR writes rd before it reads rs. */
  function JumpOp(i: Instruction, a: Word, npc: Word): Result {
    var next := Wrap(npc + 4);
    var far := next - next % 0x1000_0000 + 4 * i.extra % 0x1000_0000;
    match i.op
    case J => Goto(far)
    case JAL => GotoAndLink(R31, far)
    case JR => Goto(a)
    case _ => GotoAndLink(i.rd, if i.rs == i.rd then next else a)   // JALR
  }

  function Compute(i: Instruction, a: Word, b: Word, hi: Word, lo: Word, npc: Word): Result {
    match KindOf(i.op)
    case Register => RegisterOp(i, a, b)
    case Immediate => ImmediateOp(i, a)
    case Shift => ShiftOp(i, a, b)
    case HiLo => HiLoOp(i, a, b, hi, lo)
    case Branch => BranchOp(i, a, b, npc)
    case Jump => JumpOp(i, a, npc)
    case _ => Raised(if i.op == SYSCALL then SyscallException else IllegalInstrException)
  }

  // ---- Execution ----

  /** What an instruction does when it completes: one general register, HI and LO, memory, the
      program counter after next, and a load to be applied after the next instruction. */
  datatype Effect =
    | Trap(exception: Exception, badVAddr: Word, pt: PageTable)
    | AssertFails
    | Done(dst: Reg, value: Word, hi: Word, lo: Word, pcAfter: Word, loadReg: Reg, loadValue: Word, mem: Ram,
      pt: PageTable)

  /** The values an instruction may use: registers[rs], registers[rt], the value LWR sees for rt,
      and the special registers. */
  datatype Operands = Operands(a: Word, b: Word, forwarded: Word, hi: Word, lo: Word, npc: Word, mem: Ram,
    pt: PageTable)

  function Apply(x: Operands, r: Result): Effect {
    var next := Wrap(x.npc + 4);
    match r
    case Write(dst, v) => Done(dst, v, x.hi, x.lo, next, 0, 0, x.mem, x.pt)
    case WriteHiLo(hi, lo) => Done(0, 0, hi, lo, next, 0, 0, x.mem, x.pt)
    case Goto(pc) => Done(0, 0, x.hi, x.lo, pc, 0, 0, x.mem, x.pt)
    case GotoAndLink(dst, pc) => Done(dst, next, x.hi, x.lo, pc, 0, 0, x.mem, x.pt)
    case Raised(e) => Trap(e, 0, x.pt)
  }

  /** How many bytes a load or store moves. */
  function SizeOf(op: Op): (size: nat)
    ensures ValidSize(size)
  {
    match op
    case LB | LBU | SB => 1
    case LH | LHU | SH => 2
    case _ => 4
  }

  /** LWL, LWR, SWL and SWR are supported on aligned addresses only. */
  predicate PartialWord(op: Op) { op.LWL? || op.LWR? || op.SWL? || op.SWR? }

  /** What a load makes of the value it read. */
  function Converted(op: Op, forwarded: Word, v: Word): Word {
    match op
    case LB => if v % 0x100 >= 0x80 then 0xffff_ff00 + v % 0x100 else v % 0x100
    case LBU => v % 0x100
    case LH => SignExtend16(v % 0x10000)
    case LHU => v % 0x10000
    case LWR => forwarded - forwarded % 0x100 + v / 0x100_0000
    case _ => v
  }

  function ExecuteLoad(i: Instruction, x: Operands, addr: Word): Effect {
    match ReadMem(x.mem, x.pt, addr, SizeOf(i.op))
    case LoadFault(e) => Trap(e, addr, x.pt)
    case Value(v, pt) => Done(0, 0, x.hi, x.lo, Wrap(x.npc + 4), i.rt, Converted(i.op, x.forwarded, v), x.mem, pt)
  }

  function ExecuteStore(x: Operands, addr: Word, size: nat, v: Word): Effect
    requires ValidSize(size)
  {
    match WriteMem(x.mem, x.pt, addr, size, v)
    case StoreFault(e) => Trap(e, addr, x.pt)
    case Memory(mem, pt) => Done(0, 0, x.hi, x.lo, Wrap(x.npc + 4), 0, 0, mem, pt)
  }

  /** The word that SWL or SWR writes back over v on an aligned address. */
  function Merged(op: Op, v: Word, b: Word): Word {
    if op.SWL? then b else v % 0x100_0000 + b % 0x100 * 0x100_0000
  }

  /** SWL and SWR on an aligned address read the word before they write it. */
  function ExecutePartialStore(i: Instruction, x: Operands, addr: Word): Effect {
    match ReadMem(x.mem, x.pt, addr, 4)
    case LoadFault(e) => Trap(e, addr, x.pt)
    case Value(v, pt) =>
      ExecuteStore(x.(pt := pt), addr, 4, Merged(i.op, v, x.b))
  }

  function LoadOp(i: Instruction, x: Operands): Effect {
    var addr := Wrap(x.a + i.extra);
    if addr % SizeOf(i.op) == 0 then ExecuteLoad(i, x, addr)
    else if PartialWord(i.op) then AssertFails
    else Trap(AddressErrorException, addr, x.pt)
  }

  function StoreOp(i: Instruction, x: Operands): Effect {
    var addr := Wrap(x.a + i.extra);
    if !PartialWord(i.op) then ExecuteStore(x, addr, SizeOf(i.op), x.b)
    else if addr % 4 != 0 then AssertFails
    else ExecutePartialStore(i, x, addr)
  }

  function Execute(i: Instruction, x: Operands): Effect {
    match KindOf(i.op)
    case Load => LoadOp(i, x)
    case Store => StoreOp(i, x)
    case _ => Apply(x, Compute(i, x.a, x.b, x.hi, x.lo, x.npc))
  }

  // ---- One instruction ----

  type Registers = r: seq<Word> | |r| == 40 witness seq(40, i => 0)

  datatype Cpu = Cpu(regs: Registers, mem: Ram, pt: PageTable)

  /** LoadReg names a general register, and register 0 is zero. */
  predicate WellFormed(r: Registers) { r[LoadReg] < 32 && r[0] == 0 }

  /** c fetches the instruction word raw. */
  predicate Fetches(c: Cpu, raw: Word) {
    && WellFormed(c.regs)
    && var f := ReadMem(c.mem, c.pt, c.regs[PCReg], 4);
      f.Value? && f.value == raw
  }

  /** Machine::DelayedLoad */
  function DelayedLoad(r: Registers, nextReg: Reg, nextValue: Word): Registers
    requires r[LoadReg] < 32
  {
    r[r[LoadReg] := r[LoadValueReg]][LoadReg := nextReg][LoadValueReg := nextValue][0 := 0]
  }

  datatype Outcome = Normal(cpu: Cpu) | Exception(exception: Exception, cpu: Cpu) | Aborted

  function OperandsOf(r: Registers, i: Instruction, mem: Ram, pt: PageTable): Operands {
    var forwarded := if r[LoadReg] == i.rt then r[LoadValueReg] else r[i.rt];
    Operands(r[i.rs], r[i.rt], forwarded, r[HiReg], r[LoReg], r[NextPCReg], mem, pt)
  }

  /** Machine::RaiseException, up to the call of the kernel's handler. */
  function Raise(r: Registers, e: Exception, badVAddr: Word, mem: Ram, pt: PageTable): Outcome
    requires r[LoadReg] < 32
  {
    Exception(e, Cpu(DelayedLoad(r[BadVAddrReg := badVAddr], 0, 0), mem, pt))
  }

  function Commit(r: Registers, e: Effect): (r2: Registers)
    requires r[LoadReg] < 32 && e.Done?
    ensures WellFormed(r2)
  {
    var r1 := DelayedLoad(r[e.dst := e.value][HiReg := e.hi][LoReg := e.lo], e.loadReg, e.loadValue);
    r1[PrevPCReg := r1[PCReg]][PCReg := r1[NextPCReg]][NextPCReg := e.pcAfter]
  }

  /** Machine::OneInstruction */
  function OneInstruction(c: Cpu): (o: Outcome)
    requires WellFormed(c.regs)
    ensures o.Normal? ==> WellFormed(o.cpu.regs)
  {
    match ReadMem(c.mem, c.pt, c.regs[PCReg], 4)
    case LoadFault(e) => Raise(c.regs, e, c.regs[PCReg], c.mem, c.pt)
    case Value(raw, pt) =>
      var i := DecodeInstruction(raw);
      match Execute(i, OperandsOf(c.regs, i, c.mem, pt))
      case Trap(e, bad, pt2) => Raise(c.regs, e, bad, c.mem, pt2)
      case AssertFails => Aborted
      case Done(dst, v, hi, lo, pc, lr, lv, mem, pt2) =>
        Normal(Cpu(Commit(c.regs, Done(dst, v, hi, lo, pc, lr, lv, mem, pt2)), mem, pt2))
  }
}
