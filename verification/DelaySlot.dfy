/** Exactly which instructions can tell that a pending load was applied one instruction early.

    For each instruction word and each register with a pending load: either no processor state shows
    a difference, or one is built that does. */
module DelaySlot {
  import opened Words
  import opened Memory
  import opened Multiplier
  import opened Mips
  import opened Preemption

  // ---- The condition, instruction by instruction ----
  // r is the register with the pending load and not register 0; s and t say whether the
  // instruction names it as rs or rt.

  /** It does not look at r; or what it computes does not depend on r; or it copies r to itself. */
  predicate RegisterUnaffected(i: Instruction, r: Reg) {
    var s, t := i.rs == r, i.rt == r;
    var apart := !s && !t;
    var sameAsRs, sameAsRt := s && i.rt == 0, t && i.rs == 0;   // adding register 0
    if i.rd == r then
      match i.op
      case ADD | ADDU | XOR => sameAsRs || sameAsRt
      case SUB | SUBU => sameAsRs
      case AND => s && t
      case OR => sameAsRs || sameAsRt || (s && t)
      case _ => false
    else
      match i.op
      case ADD => apart || (i.rd == 0 && (sameAsRs || sameAsRt))
      case SUB => apart || (s && t) || (i.rd == 0 && sameAsRs)
      case ADDU | OR | NOR => apart || i.rd == 0
      case SUBU | XOR | SLT => apart || i.rd == 0 || (s && t)
      case AND => apart || i.rd == 0 || i.rs == 0 || i.rt == 0
      case _ => apart || i.rd == 0 || (s && t) || i.rt == 0   // SLTU: nothing is below 0
  }

  predicate ImmediateUnaffected(i: Instruction, r: Reg) {
    var s, low := i.rs == r, i.extra % 0x10000;
    if i.rt == r then
      match i.op
      case ADDI | ADDIU => s && i.extra == 0
      case ORI | XORI => s && low == 0
      case _ => false
    else
      match i.op
      case ADDI => !s || (i.rt == 0 && i.extra == 0)
      case ANDI => !s || i.rt == 0 || low == 0
      case SLTIU => !s || i.rt == 0 || i.extra == 0
      case LUI => true
      case _ => !s || i.rt == 0
  }

  predicate ShiftUnaffected(i: Instruction, r: Reg) {
    var s, t := i.rs == r, i.rt == r;
    var byRegister := i.op.SLLV? || i.op.SRAV? || i.op.SRLV?;
    if i.rd == r then t && (if byRegister then i.rs == 0 else i.extra % 32 == 0)
    else i.rd == 0 || (!t && (!byRegister || !s || i.rt == 0)) || (byRegister && i.rt == 0)
  }

  predicate HiLoUnaffected(i: Instruction, r: Reg) {
    match i.op
    case MFHI | MFLO => i.rd != r
    case MTHI | MTLO => i.rs != r
    case _ => (i.rs != r && i.rt != r) || i.rs == 0 || i.rt == 0
  }

  /** A branch to the instruction behind its delay slot goes there anyway. */
  predicate BranchUnaffected(i: Instruction, r: Reg) {
    match i.op
    case BEQ | BNE => (i.rs != r && i.rt != r) || (i.rs == r && i.rt == r) || i.extra == 1
    case BGEZAL | BLTZAL => r != R31 && (i.rs != r || i.extra == 1)
    case _ => i.rs != r || i.extra == 1
  }

  predicate JumpUnaffected(i: Instruction, r: Reg) {
    match i.op
    case J => true
    case JAL => r != R31
    case JALR => i.rd != r && i.rs != r
    case _ => i.rs != r
  }

  function AlignmentOf(op: Op): (n: nat)
    ensures n == 1 || n == 2 || n == 4
  {
    if PartialWord(op) then 4 else SizeOf(op)
  }

  /** No page table has a page for this address, or it is not aligned. */
  predicate NeverReached(op: Op, addr: Word) { addr % AlignmentOf(op) != 0 || addr >= MEMORY_SIZE }

  /** A store of r to a fixed address that cannot be reached stores nothing. */
  predicate StoreUnaffected(i: Instruction, r: Reg) {
    i.rs != r && (i.rt != r || (i.rs == 0 && NeverReached(i.op, i.extra)))
  }

  /** Register 0 stays zero, but LWR into register 0 merges into a pending load of register 0. */
  predicate ZeroUnaffected(i: Instruction) {
    !(i.op.LWR? && i.rt == 0 && (i.rs != 0 || !NeverReached(i.op, i.extra)))
  }

  /** No state can tell whether the load pending for register r was applied before instruction i. */
  predicate Unaffected(i: Instruction, r: Reg) {
    if r == 0 then ZeroUnaffected(i)
    else
      match KindOf(i.op)
      case Register => RegisterUnaffected(i, r)
      case Immediate => ImmediateUnaffected(i, r)
      case Shift => ShiftUnaffected(i, r)
      case HiLo => HiLoUnaffected(i, r)
      case Branch => BranchUnaffected(i, r)
      case Jump => JumpUnaffected(i, r)
      case Load => i.rs != r
      case Store => StoreUnaffected(i, r)
      case Illegal => true
  }

  // ---- Digits ----

  lemma {:induction false} SameDigits(a: nat, n: nat)
    requires a < Pow2(n)
    ensures Bitwise(And, a, a, n) == a && Bitwise(Or, a, a, n) == a && Bitwise(Xor, a, a, n) == 0
  {
    if n > 0 { SameDigits(a / 2, n - 1); }
  }

  lemma {:induction false} ZeroDigits(a: nat, n: nat)
    requires a < Pow2(n)
    ensures Bitwise(And, a, 0, n) == 0 == Bitwise(And, 0, a, n)
    ensures Bitwise(Or, a, 0, n) == a == Bitwise(Or, 0, a, n)
    ensures Bitwise(Xor, a, 0, n) == a == Bitwise(Xor, 0, a, n)
  {
    if n > 0 { ZeroDigits(a / 2, n - 1); }
  }

  lemma {:induction false} DigitBounds(a: nat, b: nat, n: nat)
    requires a < Pow2(n) && b < Pow2(n)
    ensures Bitwise(And, a, b, n) <= b && Bitwise(Or, a, b, n) >= a
    ensures a != 0 ==> Bitwise(Xor, a, b, n) != b
  {
    if n > 0 { DigitBounds(a / 2, b / 2, n - 1); }
  }

  /** What the proofs below use about the bit operations on a and b. */
  lemma BitFacts(a: Word, b: Word)
    ensures BitAnd(a, a) == a == BitOr(a, a) && BitXor(a, a) == 0
    ensures BitAnd(a, 0) == 0 == BitAnd(0, a) && BitOr(a, 0) == a == BitOr(0, a) && BitXor(a, 0) == a == BitXor(0, a)
    ensures BitAnd(a, b) <= b && BitOr(a, b) >= a && (a != 0 ==> BitXor(a, b) != b)
  {
    Pow2Values();
    SameDigits(a, 32);
    ZeroDigits(a, 32);
    DigitBounds(a, b, 32);
  }

  // ---- Visible differences between two results ----

  /** The value of general register k when register r holds z and the others hold w. */
  function RegisterValue(k: Reg, r: Reg, z: Word, w: Word): Word {
    if k == 0 then 0 else if k == r then z else w
  }

  /** p without and q with the load of v into r applied early, at npc == 4: they leave different
      processors.  A result in r itself is overwritten by v in the first case only. */
  predicate Differ(r: Reg, v: Word, p: Result, q: Result) {
    match (p, q)
    case (Write(d, x), Write(e, y)) => d == e && (if d == r then y != v else d != 0 && x != y)
    case (WriteHiLo(_, _), WriteHiLo(_, _)) => p != q
    case (Goto(_), Goto(_)) => p != q
    case (GotoAndLink(d, x), GotoAndLink(e, y)) => d == e && (x != y || (d == r && v != 8))
    case (Raised(_), Write(_, _)) => true
    case (Write(_, _), Raised(_)) => true
    case _ => false
  }

  predicate SameTo(p: Result, q: Result) {
    p == q || (p.Write? && q.Write? && p.dst == 0 == q.dst)
  }

  /** What an early load may not change, where z is the old and v the new value of r. */
  predicate Alike(r: Reg, v: Word, p: Result, q: Result) {
    || (SameTo(p, q) && (p.Write? || p.GotoAndLink? ==> p.dst != r))
    || (p.Write? && q == Write(r, v) && p.dst == r)
  }

  lemma RegisterAlike(i: Instruction, r: Reg, a: Word, b: Word, v: Word, a': Word, b': Word)
    requires r != 0 && KindOf(i.op).Register? && RegisterUnaffected(i, r) && Moved(i, r, a, b, v, a', b')
    ensures Alike(r, v, RegisterOp(i, a, b), RegisterOp(i, a', b'))
  {
    hide RegisterUnaffected, Moved, Alike, RegisterOp;
    match i.op
    case ADD | ADDU | SUB | SUBU => SumsAlike(i, r, a, b, v, a', b');
    case SLT | SLTU => ComparisonsAlike(i, r, a, b, v, a', b');
    case _ => RegisterBitsAlike(i, r, a, b, v, a', b');
  }

  lemma SumsAlike(i: Instruction, r: Reg, a: Word, b: Word, v: Word, a': Word, b': Word)
    requires r != 0 && (i.op.ADD? || i.op.ADDU? || i.op.SUB? || i.op.SUBU?)
    requires RegisterUnaffected(i, r) && Moved(i, r, a, b, v, a', b')
    ensures Alike(r, v, RegisterOp(i, a, b), RegisterOp(i, a', b'))
  {}

  lemma ComparisonsAlike(i: Instruction, r: Reg, a: Word, b: Word, v: Word, a': Word, b': Word)
    requires r != 0 && (i.op.SLT? || i.op.SLTU?) && RegisterUnaffected(i, r) && Moved(i, r, a, b, v, a', b')
    ensures Alike(r, v, RegisterOp(i, a, b), RegisterOp(i, a', b'))
  {}

  lemma RegisterBitsAlike(i: Instruction, r: Reg, a: Word, b: Word, v: Word, a': Word, b': Word)
    requires r != 0 && KindOf(i.op).Register? && BitOp(i.op)
    requires RegisterUnaffected(i, r) && Moved(i, r, a, b, v, a', b')
    ensures Alike(r, v, RegisterOp(i, a, b), RegisterOp(i, a', b'))
  {
    hide BitAnd, BitOr, BitXor;
    BitFacts(a, b);
    BitFacts(b, a);
    BitFacts(a', b');
    BitFacts(b', a');
  }

  /** The operands with r unchanged and with v in r. */
  predicate Moved(i: Instruction, r: Reg, a: Word, b: Word, v: Word, a': Word, b': Word) {
    && (a' == if i.rs == r then v else a)
    && (b' == if i.rt == r then v else b)
    && (i.rs == 0 ==> a == 0) && (i.rt == 0 ==> b == 0) && (i.rs == i.rt ==> a == b)
  }

  predicate BitOp(op: Op) { op.AND? || op.OR? || op.XOR? || op.NOR? || op.ANDI? || op.ORI? || op.XORI? }

  lemma ImmediateAlike(i: Instruction, r: Reg, a: Word, v: Word, a': Word)
    requires r != 0 && KindOf(i.op).Immediate? && ImmediateUnaffected(i, r) && a' == if i.rs == r then v else a
    ensures Alike(r, v, ImmediateOp(i, a), ImmediateOp(i, a'))
  {
    if BitOp(i.op) { ImmediateBitsAlike(i, r, a, v, a'); }
    hide BitAnd, BitOr, BitXor;
  }

  lemma ImmediateBitsAlike(i: Instruction, r: Reg, a: Word, v: Word, a': Word)
    requires r != 0 && KindOf(i.op).Immediate? && BitOp(i.op)
    requires ImmediateUnaffected(i, r) && a' == if i.rs == r then v else a
    ensures Alike(r, v, ImmediateOp(i, a), ImmediateOp(i, a'))
  {
    hide BitAnd, BitOr, BitXor;
    if i.extra % 0x10000 == 0 {
      BitFacts(a, 0);
      BitFacts(a', 0);
    }
  }

  lemma ShiftOfZero(n: nat, b: Word)
    ensures ShiftLeft(0, n) == 0 == ShiftRight(0, n) == ShiftRightArithmetic(0, n)
    ensures ShiftLeft(b, 0) == b == ShiftRight(b, 0) == ShiftRightArithmetic(b, 0)
  {
    Pow2Monotone(n, n);
    assert Pow2(0) == 1;
  }

  lemma ShiftAlike(i: Instruction, r: Reg, a: Word, b: Word, v: Word, a': Word, b': Word)
    requires r != 0 && KindOf(i.op).Shift? && ShiftUnaffected(i, r) && Moved(i, r, a, b, v, a', b')
    ensures Alike(r, v, ShiftOp(i, a, b), ShiftOp(i, a', b'))
  {
    ShiftOfZero(a % 32, b);
    ShiftOfZero(a' % 32, b');
    ShiftOfZero(i.extra % 32, b);
    ShiftOfZero(i.extra % 32, b');
    hide ShiftLeft, ShiftRight, ShiftRightArithmetic;
  }

  /** Products and quotients of zero. */
  lemma ZeroOperand(b: Word, signedArith: bool)
    ensures Product(0, b, signedArith) == 0 == Product(b, 0, signedArith)
    ensures b != 0 ==> Quotient(Signed(0), Signed(b)) == 0 && 0 % b == 0 && 0 / b == 0
  {}

  lemma HiLoAlike(i: Instruction, r: Reg, a: Word, b: Word, v: Word, a': Word, b': Word, hi: Word, lo: Word)
    requires r != 0 && KindOf(i.op).HiLo? && HiLoUnaffected(i, r) && Moved(i, r, a, b, v, a', b')
    ensures Alike(r, v, HiLoOp(i, a, b, hi, lo), HiLoOp(i, a', b', hi, lo))
  {
    ZeroOperand(b, i.op.MULT?);
    ZeroOperand(b', i.op.MULT?);
    ZeroOperand(a, i.op.MULT?);
    ZeroOperand(a', i.op.MULT?);
    hide Product, Quotient;
  }

  lemma BranchAlike(i: Instruction, r: Reg, a: Word, b: Word, v: Word, a': Word, b': Word, npc: Word)
    requires r != 0 && KindOf(i.op).Branch? && BranchUnaffected(i, r) && Moved(i, r, a, b, v, a', b')
    ensures Alike(r, v, BranchOp(i, a, b, npc), BranchOp(i, a', b', npc))
  {}

  lemma JumpAlike(i: Instruction, r: Reg, a: Word, b: Word, v: Word, a': Word, b': Word, npc: Word)
    requires r != 0 && KindOf(i.op).Jump? && JumpUnaffected(i, r) && Moved(i, r, a, b, v, a', b')
    ensures Alike(r, v, JumpOp(i, a, npc), JumpOp(i, a', npc))
  {}

  // ---- Values that show a difference ----

  /** An old value u and a new value v of r, and a value w of the other registers. */
  datatype Choice = Choice(u: Word, v: Word, w: Word)

  function RegisterChoice(i: Instruction, r: Reg): Choice {
    var s, t := i.rs == r, i.rt == r;
    if i.rd == r then
      match i.op
      case ADD | ADDU | SUB | SUBU => Choice(0, 1, if s || t then 1 else 0)
      case OR | XOR => if (s || t) && !(s && t) then Choice(0, 0, 1) else Choice(0, 1, 0)
      case SLT | SLTU => Choice(0, 5, 0)
      case _ => Choice(0, 1, 0)
    else
      match i.op
      case ADD => if i.rd == 0 then Choice(0, 0x7fff_ffff, 1) else Choice(0, 1, 0)
      case SUB => if i.rd == 0 then Choice(0, 0x8000_0000, 1) else Choice(0, 1, 0)
      case AND => Choice(0, 1, 1)
      case SLT => if s then Choice(0, 0xffff_ffff, 0) else Choice(0, 1, 0)
      case SLTU => Choice(0, 1, if s then 1 else 0)
      case _ => Choice(0, 1, 0)
  }

  predicate RegisterDiffers(i: Instruction, r: Reg) {
    var c := RegisterChoice(i, r);
    Differ(r, c.v, RegisterOp(i, RegisterValue(i.rs, r, c.u, c.w), RegisterValue(i.rt, r, c.u, c.w)),
                   RegisterOp(i, RegisterValue(i.rs, r, c.v, c.w), RegisterValue(i.rt, r, c.v, c.w)))
  }

  lemma BitsDiffer(i: Instruction, r: Reg)
    requires r != 0 && KindOf(i.op).Register? && BitOp(i.op) && !RegisterUnaffected(i, r)
    ensures RegisterDiffers(i, r)
  {
    hide BitAnd, BitOr, BitXor;
    BitFacts(0, 0);
    BitFacts(0, 1);
    BitFacts(1, 0);
    BitFacts(1, 1);
  }

  lemma SumsDiffer(i: Instruction, r: Reg)
    requires r != 0 && (i.op.ADD? || i.op.ADDU?) && !RegisterUnaffected(i, r)
    ensures RegisterDiffers(i, r)
  {}

  lemma DifferencesDiffer(i: Instruction, r: Reg)
    requires r != 0 && (i.op.SUB? || i.op.SUBU?) && !RegisterUnaffected(i, r)
    ensures RegisterDiffers(i, r)
  {
    if i.op.SUB? { assert !RegisterUnaffected(i, r); }
  }

  lemma ComparisonsDiffer(i: Instruction, r: Reg)
    requires r != 0 && (i.op.SLT? || i.op.SLTU?) && !RegisterUnaffected(i, r)
    ensures RegisterDiffers(i, r)
  {}

  lemma RegisterVisible(i: Instruction, r: Reg)
    requires r != 0 && KindOf(i.op).Register? && !RegisterUnaffected(i, r)
    ensures RegisterDiffers(i, r)
  {
    hide RegisterDiffers, RegisterUnaffected;
    match i.op
    case ADD | ADDU => SumsDiffer(i, r);
    case SUB | SUBU => DifferencesDiffer(i, r);
    case SLT | SLTU => ComparisonsDiffer(i, r);
    case _ => BitsDiffer(i, r);
  }

  function ImmediateChoice(i: Instruction, r: Reg): Choice {
    var s, low := i.rs == r, i.extra % 0x10000;
    if i.rt == r then
      match i.op
      case ADDI | ADDIU => Choice(0, if i.extra == 0 then 1 else 0, 0)
      case ORI | XORI => Choice(0, if low == 0 then 1 else 0, 0)
      case ANDI => Choice(0, 0x10000, 0)
      case LUI => Choice(0, if Wrap(i.extra * 0x10000) == 0 then 1 else 0, 0)
      case _ => Choice(0, 5, 0)
    else
      match i.op
      case ADDI =>
        if i.rt != 0 then Choice(0, 1, 0)
        else Choice(0, if i.extra < HALF then 0x7fff_ffff else 0x8000_0000, 0)
      case ANDI => Choice(0, low, 0)
      case ORI | SLTIU => Choice(0, 0xffff_ffff, 0)
      case SLTI => Choice(0x8000_0000, 0x7fff_ffff, 0)
      case _ => Choice(0, 1, 0)
  }

  predicate SignExtended(x: Word) { x < 0x8000 || x >= 0xffff_8000 }

  predicate ImmediateDiffers(i: Instruction, r: Reg) {
    var c := ImmediateChoice(i, r);
    Differ(r, c.v, ImmediateOp(i, RegisterValue(i.rs, r, c.u, c.w)), ImmediateOp(i, RegisterValue(i.rs, r, c.v, c.w)))
  }

  lemma ImmediateBitsDiffer(i: Instruction, r: Reg)
    requires r != 0 && KindOf(i.op).Immediate? && BitOp(i.op) && !ImmediateUnaffected(i, r)
    ensures ImmediateDiffers(i, r)
  {
    hide BitAnd, BitOr, BitXor;
    var low := i.extra % 0x10000;
    BitFacts(low, 0);
    BitFacts(1, low);
    BitFacts(0xffff_ffff, low);
    BitFacts(0x10000, low);
  }

  lemma ImmediateSumsDiffer(i: Instruction, r: Reg)
    requires r != 0 && (i.op.ADDI? || i.op.ADDIU?) && SignExtended(i.extra) && !ImmediateUnaffected(i, r)
    ensures ImmediateDiffers(i, r)
  {}

  lemma ImmediateVisible(i: Instruction, r: Reg)
    requires r != 0 && KindOf(i.op).Immediate? && SignExtended(i.extra) && !ImmediateUnaffected(i, r)
    ensures ImmediateDiffers(i, r)
  {
    if BitOp(i.op) {
      ImmediateBitsDiffer(i, r);
    } else if i.op.ADDI? || i.op.ADDIU? {
      ImmediateSumsDiffer(i, r);
    }
    hide BitAnd, BitOr, BitXor;
  }

  lemma PowerBounds(n: nat)
    requires n < 32
    ensures 1 <= Pow2(n) <= 0x8000_0000 && (n > 0 ==> Pow2(n) >= 2)
  {
    Pow2Values();
    Pow2Monotone(n, 31);
    assert Pow2(32) == 2 * Pow2(31);
    if n > 0 { Pow2Monotone(n - 1, n - 1); }
  }

  lemma QuotientBetween(x: nat, p: nat)
    requires 1 <= p <= x
    ensures 1 <= x / p <= x
  {
    var d := x / p;
    assert x == d * p + x % p;
    assert (d - 1) * p == d * p - p;
    assert p * d == d * p;
    assert (1 - d) * p == p - d * p;
    if d < 1 { AtLeast(1 - d, p); }
    if d > x { AtLeast(p, d); }
  }

  lemma ShiftValues(n: nat)
    requires n < 32
    ensures ShiftLeft(1, n) == Pow2(n) && ShiftRight(0xffff_ffff, n) != 0 && ShiftRightArithmetic(0xffff_ffff, n) != 0
    ensures n > 0 ==> ShiftRight(1, n) == 0 == ShiftRightArithmetic(1, n) && ShiftLeft(1, n) != 1
  {
    PowerBounds(n);
    var p := Pow2(n);
    hide Pow2;
    QuotientBetween(0xffff_ffff, p);
    QuotientIs(0 - 1, p, 0 - 1);
    if n > 0 { QuotientIs(1, p, 0); }
    assert Wrap(p) == p && Signed(0xffff_ffff) == -1 && Signed(1) == 1 && Unsigned(-1) == 0xffff_ffff;
    hide Wrap, Signed, Unsigned;
  }

  lemma ShiftsOfTwo()
    ensures ShiftLeft(2, 1) == 4 && ShiftRight(2, 1) == 1 == ShiftRightArithmetic(2, 1)
  {
    assert Pow2(1) == 2;
  }

  function ShiftChoice(i: Instruction, r: Reg): Choice {
    var s, t := i.rs == r, i.rt == r;
    if i.rd == r then Choice(0, 1, if t && (i.op.SLLV? || i.op.SRAV? || i.op.SRLV?) then 1 else 0)
    else
      match i.op
      case SLL => Choice(0, 1, 0)
      case SRA | SRL => Choice(0, 0xffff_ffff, 0)
      case _ => if s && t then Choice(0, 32, 0) else if t then Choice(0, 1, 0) else Choice(0, 1, 2)
  }

  predicate ShiftDiffers(i: Instruction, r: Reg) {
    var c := ShiftChoice(i, r);
    Differ(r, c.v, ShiftOp(i, RegisterValue(i.rs, r, c.u, c.w), RegisterValue(i.rt, r, c.u, c.w)),
                   ShiftOp(i, RegisterValue(i.rs, r, c.v, c.w), RegisterValue(i.rt, r, c.v, c.w)))
  }

  lemma FixedShiftVisible(i: Instruction, r: Reg)
    requires r != 0 && (i.op.SLL? || i.op.SRA? || i.op.SRL?) && !ShiftUnaffected(i, r)
    ensures ShiftDiffers(i, r)
  {
    hide ShiftLeft, ShiftRight, ShiftRightArithmetic, Pow2;
    ShiftValues(i.extra % 32);
    PowerBounds(i.extra % 32);
    ShiftOfZero(i.extra % 32, 1);
  }

  lemma VariableShiftVisible(i: Instruction, r: Reg)
    requires r != 0 && (i.op.SLLV? || i.op.SRAV? || i.op.SRLV?) && !ShiftUnaffected(i, r)
    ensures ShiftDiffers(i, r)
  {
    hide ShiftLeft, ShiftRight, ShiftRightArithmetic, Pow2;
    ShiftValues(1);
    ShiftsOfTwo();
    ShiftOfZero(1, 1);
    ShiftOfZero(0, 2);
    ShiftOfZero(0, 32);
  }

  lemma ShiftVisible(i: Instruction, r: Reg)
    requires r != 0 && KindOf(i.op).Shift? && !ShiftUnaffected(i, r)
    ensures ShiftDiffers(i, r)
  {
    hide ShiftDiffers, ShiftUnaffected;
    match i.op
    case SLL | SRA | SRL => FixedShiftVisible(i, r);
    case _ => VariableShiftVisible(i, r);
  }

  lemma HiLoVisible(i: Instruction, r: Reg)
    requires r != 0 && KindOf(i.op).HiLo? && !HiLoUnaffected(i, r)
    ensures Differ(r, 1, HiLoOp(i, RegisterValue(i.rs, r, 0, 1), RegisterValue(i.rt, r, 0, 1), 0, 0),
                         HiLoOp(i, RegisterValue(i.rs, r, 1, 1), RegisterValue(i.rt, r, 1, 1), 0, 0))
  {}

  function BranchChoice(i: Instruction): Choice {
    if i.op.BGEZ? || i.op.BLTZ? || i.op.BGEZAL? || i.op.BLTZAL? then Choice(0, 0xffff_ffff, 0) else Choice(0, 1, 0)
  }

  lemma BranchVisible(i: Instruction, r: Reg)
    requires r != 0 && KindOf(i.op).Branch? && SignExtended(i.extra) && !BranchUnaffected(i, r)
    ensures var c := BranchChoice(i);
      Differ(r, c.v, BranchOp(i, RegisterValue(i.rs, r, c.u, c.w), RegisterValue(i.rt, r, c.u, c.w), 4),
                     BranchOp(i, RegisterValue(i.rs, r, c.v, c.w), RegisterValue(i.rt, r, c.v, c.w), 4))
  {
    if i.extra != 1 { assert Target(4, i.extra) != 8; }
  }

  lemma JumpVisible(i: Instruction, r: Reg)
    requires r != 0 && KindOf(i.op).Jump? && !JumpUnaffected(i, r)
    ensures Differ(r, 1, JumpOp(i, RegisterValue(i.rs, r, 0, 0), 4), JumpOp(i, RegisterValue(i.rs, r, 1, 0), 4))
  {}

  // ---- Processors ----

  /** The effects e and f of an instruction without and with the early load of v into r. */
  predicate EffectsAlike(r: Reg, v: Word, e: Effect, f: Effect) {
    || (e == f && (e.Done? && r != 0 ==> e.dst != r))
    || (e.Done? && f.Done? && e.dst == 0 && f == e.(value := f.value))
    || (e.Done? && e.dst == r && f == e.(value := v))
  }

  lemma AlikeApplied(x: Operands, y: Operands, r: Reg, v: Word, p: Result, q: Result)
    requires Alike(r, v, p, q) && r != 0
    requires x.hi == y.hi && x.lo == y.lo && x.npc == y.npc && x.mem == y.mem && x.pt == y.pt
    ensures EffectsAlike(r, v, Apply(x, p), Apply(y, q))
  {}

  /** What remains of two alike effects when the instruction is over. */
  lemma CommitAlike(regs: Registers, e: Effect, f: Effect)
    requires WellFormed(regs) && e.Done? && EffectsAlike(regs[LoadReg], regs[LoadValueReg], e, f)
    ensures Commit(DelayedLoad(regs, 0, 0), f) == Commit(regs, e)
  {
    var p, q := Commit(DelayedLoad(regs, 0, 0), f), Commit(regs, e);
    assert forall k :: 0 <= k < 40 ==> p[k] == q[k];
  }

  /** The operands before and after the early load. */
  predicate Shifted(i: Instruction, r: Reg, v: Word, x: Operands, y: Operands) {
    && Moved(i, r, x.a, x.b, v, y.a, y.b)
    && (r != 0 ==> x.forwarded == y.forwarded)
    && y == x.(a := y.a, b := y.b, forwarded := y.forwarded)
  }

  lemma StoreAlike(i: Instruction, r: Reg, v: Word, x: Operands, y: Operands)
    requires r != 0 && KindOf(i.op).Store? && StoreUnaffected(i, r) && Shifted(i, r, v, x, y)
    requires |x.pt| <= NUM_PHYS_PAGES
    ensures StoreOp(i, x) == StoreOp(i, y)
  {
    if i.rt != r {
      assert x == y;
    } else {
      hide ExecuteStore, ExecutePartialStore;
      var addr := Wrap(x.a + i.extra);
      assert addr == i.extra;
      if PartialWord(i.op) {
        if addr % 4 == 0 { UnreachedPartialStore(i, x, y, addr); }
      } else {
        UnreachedStore(x, y, addr, SizeOf(i.op));
      }
    }
  }

  lemma UnreachedStore(x: Operands, y: Operands, addr: Word, size: nat)
    requires ValidSize(size) && x.pt == y.pt && |x.pt| <= NUM_PHYS_PAGES && (addr % size != 0 || addr >= MEMORY_SIZE)
    ensures ExecuteStore(x, addr, size, x.b) == ExecuteStore(y, addr, size, y.b)
  {
    assert Aligned(addr, size) ==> addr / PAGE_SIZE >= NUM_PHYS_PAGES;
  }

  lemma UnreachedPartialStore(i: Instruction, x: Operands, y: Operands, addr: Word)
    requires x.pt == y.pt && x.mem == y.mem && |x.pt| <= NUM_PHYS_PAGES && addr >= MEMORY_SIZE
    ensures ExecutePartialStore(i, x, addr) == ExecutePartialStore(i, y, addr)
  {
    assert addr / PAGE_SIZE >= NUM_PHYS_PAGES;
  }

  lemma EffectAlike(i: Instruction, r: Reg, v: Word, x: Operands, y: Operands)
    requires r != 0 && Unaffected(i, r) && Shifted(i, r, v, x, y) && |x.pt| <= NUM_PHYS_PAGES
    ensures EffectsAlike(r, v, Execute(i, x), Execute(i, y))
  {
    hide RegisterOp, ImmediateOp, ShiftOp, HiLoOp, BranchOp, JumpOp, LoadOp, StoreOp, RegisterUnaffected,
      ImmediateUnaffected, ShiftUnaffected, HiLoUnaffected, BranchUnaffected, JumpUnaffected, StoreUnaffected;
    if KindOf(i.op).Load? {
      ReadSetsComplete(i, x, y);
      WriteSetRight(i, x);
    } else if KindOf(i.op).Store? {
      StoreAlike(i, r, v, x, y);
      WriteSetRight(i, x);
    } else {
      var p, q := Compute(i, x.a, x.b, x.hi, x.lo, x.npc), Compute(i, y.a, y.b, x.hi, x.lo, x.npc);
      ComputeAlike(i, r, v, x, y);
      AlikeApplied(x, y, r, v, p, q);
    }
  }

  lemma ComputeAlike(i: Instruction, r: Reg, v: Word, x: Operands, y: Operands)
    requires r != 0 && Unaffected(i, r) && Shifted(i, r, v, x, y) && !KindOf(i.op).Load? && !KindOf(i.op).Store?
    ensures Alike(r, v, Compute(i, x.a, x.b, x.hi, x.lo, x.npc), Compute(i, y.a, y.b, x.hi, x.lo, x.npc))
  {
    hide RegisterOp, ImmediateOp, ShiftOp, HiLoOp, BranchOp, JumpOp, RegisterUnaffected,
      ImmediateUnaffected, ShiftUnaffected, HiLoUnaffected, BranchUnaffected, JumpUnaffected;
    match KindOf(i.op)
    case Register => RegisterAlike(i, r, x.a, x.b, v, y.a, y.b);
    case Immediate => ImmediateAlike(i, r, x.a, v, y.a);
    case Shift => ShiftAlike(i, r, x.a, x.b, v, y.a, y.b);
    case HiLo => HiLoAlike(i, r, x.a, x.b, v, y.a, y.b, x.hi, x.lo);
    case Branch => BranchAlike(i, r, x.a, x.b, v, y.a, y.b, x.npc);
    case Jump => JumpAlike(i, r, x.a, x.b, v, y.a, y.b, x.npc);
    case _ =>
  }

  /** Register 0: only LWR into register 0 looks at the pending value. */
  lemma ZeroAlike(i: Instruction, x: Operands, y: Operands)
    requires ZeroUnaffected(i) && y == x.(forwarded := y.forwarded)
    requires (i.rt != 0 ==> x.forwarded == y.forwarded) && (i.rs == 0 ==> x.a == 0) && |x.pt| <= NUM_PHYS_PAGES
    ensures Execute(i, x) == Execute(i, y)
  {
    if i.op.LWR? && i.rt == 0 {
      assert Wrap(x.a + i.extra) == i.extra;
      assert i.extra >= MEMORY_SIZE ==> i.extra / PAGE_SIZE >= NUM_PHYS_PAGES;
      assert LoadOp(i, x) == LoadOp(i, y);
    } else {
      hide Execute;
      ReadSetsComplete(i, x, y);
    }
  }

  lemma OperandsShifted(r: Registers, i: Instruction, mem: Ram, pt: PageTable)
    requires WellFormed(r) && r[LoadReg] != 0
    ensures Shifted(i, r[LoadReg], r[LoadValueReg], OperandsOf(r, i, mem, pt),
      OperandsOf(DelayedLoad(r, 0, 0), i, mem, pt))
  {}

  /** Frames are used once, so there are no more pages than frames. */
  lemma PagesFit(pt: PageTable)
    requires WellMapped(pt)
    ensures |pt| <= NUM_PHYS_PAGES
  {
    DistinctBelow(seq(|pt|, k requires 0 <= k < |pt| => pt[k].physicalPage), NUM_PHYS_PAGES);
  }

  lemma {:induction false} DistinctBelow(s: seq<nat>, n: nat)
    requires (forall k :: 0 <= k < |s| ==> s[k] < n) && forall j, k :: 0 <= j < k < |s| ==> s[j] != s[k]
    ensures |s| <= n
  {
    if s != [] {
      assert s[0] < n;
      if k :| 0 <= k < |s| && s[k] == n - 1 {
        var t := s[..k] + s[k + 1..];
        forall j | 0 <= j < |t| ensures t[j] == s[if j < k then j else j + 1] && t[j] < n - 1 {}
        DistinctBelow(t, n - 1);
      } else {
        DistinctBelow(s, n - 1);
      }
    }
  }

  lemma FetchKeepsLength(c: Cpu)
    ensures var f := ReadMem(c.mem, c.pt, c.regs[PCReg], 4); f.Value? ==> |f.table| == |c.pt|
  {
    var t := Translate(c.pt, c.regs[PCReg], 4, false);
    assert t.Phys? ==> |t.table| == |c.pt|;
    hide Translate;
  }

  /** The condition suffices in every state of a process. */
  lemma UnaffectedSeesNothing(c: Cpu, raw: Word)
    requires Fetches(c, raw) && WellMapped(c.pt) && Unaffected(DecodeInstruction(raw), c.regs[LoadReg])
    ensures OneInstruction(Flush(c)) == OneInstruction(c)
  {
    var r, v, i := c.regs[LoadReg], c.regs[LoadValueReg], DecodeInstruction(raw);
    var pt := ReadMem(c.mem, c.pt, c.regs[PCReg], 4).table;
    var x, y := OperandsOf(c.regs, i, c.mem, pt), OperandsOf(Flush(c).regs, i, c.mem, pt);
    var e, f := Execute(i, x), Execute(i, y);
    PagesFit(c.pt);
    FetchKeepsLength(c);
    if r == 0 {
      ZeroAlike(i, x, y);
    } else {
      OperandsShifted(c.regs, i, c.mem, pt);
      EffectAlike(i, r, v, x, y);
    }
    hide Execute, ReadMem, DecodeInstruction, Unaffected, OperandsOf;
    assert EffectsAlike(r, v, e, f);
    match e
    case Trap(t, bad, pt2) => RaiseAfterFlush(c.regs, t, bad, c.mem, pt2);
    case AssertFails =>
    case Done(_, _, _, _, _, _, _, mem, pt2) => CommitAlike(c.regs, e, f);
  }

  // ---- A processor that shows a difference ----

  function WitnessRegisters(r: Reg, c: Choice): Registers {
    seq(40, k requires 0 <= k < 40 =>
      if k < 32 then RegisterValue(k, r, c.u, c.w)
      else if k == NextPCReg then 4
      else if k == LoadReg then r
      else if k == LoadValueReg then c.v
      else 0)
  }

  /** The instruction at address 0 of an otherwise empty frame. */
  function WitnessMemory(raw: Word): Ram {
    Encode(raw, 4) + seq(MEMORY_SIZE - 4, _ => 0)
  }

  /** n pages, each in the frame of its number. */
  function Pages(n: nat): PageTable {
    seq(n, j requires 0 <= j < n => Entry(j, j, true, false, false, false))
  }

  function FetchedPages(n: nat): PageTable
    requires n >= 1
  {
    Pages(n)[0 := Entry(0, 0, true, false, true, false)]
  }

  function Witness(raw: Word, r: Reg, c: Choice, n: nat): Cpu {
    Cpu(WitnessRegisters(r, c), WitnessMemory(raw), Pages(n))
  }

  lemma WitnessFetches(raw: Word, r: Reg, c: Choice, n: nat)
    requires 1 <= n <= NUM_PHYS_PAGES
    ensures Fetches(Witness(raw, r, c, n), raw) && WellMapped(Pages(n))
    ensures ReadMem(WitnessMemory(raw), Pages(n), 0, 4).table == FetchedPages(n)
  {
    DecodeEncode(raw, 4);
    assert WitnessMemory(raw)[0..4] == Encode(raw, 4);
    hide Encode, Decode;
  }

  /** The operands that the witness offers, before and after the early load. */
  function WitnessOperands(i: Instruction, raw: Word, r: Reg, c: Choice, n: nat, z: Word, forwarded: Word): Operands
    requires n >= 1
  {
    Operands(RegisterValue(i.rs, r, z, c.w), RegisterValue(i.rt, r, z, c.w), forwarded, 0, 0, 4, WitnessMemory(raw),
      FetchedPages(n))
  }

  lemma OperandsOfWitness(i: Instruction, raw: Word, r: Reg, c: Choice, n: nat)
    requires n >= 1
    ensures var w, pt := Witness(raw, r, c, n), FetchedPages(n);
      var x, y := OperandsOf(w.regs, i, w.mem, pt), OperandsOf(Flush(w).regs, i, w.mem, pt);
      && x == WitnessOperands(i, raw, r, c, n, c.u, x.forwarded)
      && y == WitnessOperands(i, raw, r, c, n, c.v, y.forwarded)
      && (r == 0 == i.rt ==> x.forwarded == c.v && y.forwarded == 0)
  {}

  /** Effects that leave different processors behind. */
  predicate EffectsDiffer(r: Reg, v: Word, e: Effect, f: Effect) {
    match (e, f)
    case (Done(_, _, _, _, _, _, _, _, _), Trap(_, _, _)) => true
    case (Trap(_, _, _), Done(_, _, _, _, _, _, _, _, _)) => true
    case (Done(d, x, hi, lo, pc, lr, lv, m, _), Done(d2, y, hi2, lo2, pc2, lr2, lv2, m2, _)) =>
      || hi != hi2 || lo != lo2 || pc != pc2 || lv != lv2 || m != m2
      || (d == d2 == r && r != 0 && y != v)
      || (d == d2 && d != 0 && d != r && x != y)
    case _ => false
  }

  lemma OutcomesDiffer(c: Cpu, raw: Word, pt: PageTable, e: Effect, f: Effect)
    requires Fetches(c, raw) && pt == ReadMem(c.mem, c.pt, c.regs[PCReg], 4).table
    requires e == Execute(DecodeInstruction(raw), OperandsOf(c.regs, DecodeInstruction(raw), c.mem, pt))
    requires f == Execute(DecodeInstruction(raw), OperandsOf(Flush(c).regs, DecodeInstruction(raw), c.mem, pt))
    requires EffectsDiffer(c.regs[LoadReg], c.regs[LoadValueReg], e, f)
    ensures OneInstruction(Flush(c)) != OneInstruction(c)
  {
    hide Execute, ReadMem, DecodeInstruction, OperandsOf;
    if e.Done? && f.Done? {
      CommitsDiffer(c.regs, e, f);
    }
    hide EffectsDiffer, Commit;
  }

  lemma CommitsDiffer(regs: Registers, e: Effect, f: Effect)
    requires WellFormed(regs) && e.Done? && f.Done? && EffectsDiffer(regs[LoadReg], regs[LoadValueReg], e, f)
    ensures e.mem != f.mem || Commit(DelayedLoad(regs, 0, 0), f) != Commit(regs, e)
  {
    var p, q := Commit(DelayedLoad(regs, 0, 0), f), Commit(regs, e);
    assert p[HiReg] == f.hi && q[HiReg] == e.hi;
    assert p[LoReg] == f.lo && q[LoReg] == e.lo;
    assert p[NextPCReg] == f.pcAfter && q[NextPCReg] == e.pcAfter;
    assert p[LoadValueReg] == f.loadValue && q[LoadValueReg] == e.loadValue;
    assert e.dst == f.dst != 0 ==> p[e.dst] == f.value;
    assert e.dst != 0 ==> q[e.dst] == if e.dst == regs[LoadReg] then regs[LoadValueReg] else e.value;
  }

  lemma DifferApplied(x: Operands, y: Operands, r: Reg, v: Word, p: Result, q: Result)
    requires Differ(r, v, p, q) && r != 0 && x.npc == y.npc == 4
    ensures EffectsDiffer(r, v, Apply(x, p), Apply(y, q))
  {}

  /** The values that show a difference for an instruction without memory access. */
  function ComputeChoice(i: Instruction, r: Reg): Choice {
    match KindOf(i.op)
    case Register => RegisterChoice(i, r)
    case Immediate => ImmediateChoice(i, r)
    case Shift => ShiftChoice(i, r)
    case HiLo => Choice(0, 1, 1)
    case Branch => BranchChoice(i)
    case _ => Choice(0, 1, 0)
  }

  lemma ComputeVisible(i: Instruction, r: Reg)
    requires r != 0 && !Unaffected(i, r) && !KindOf(i.op).Load? && !KindOf(i.op).Store?
    requires KindOf(i.op).Immediate? || KindOf(i.op).Branch? ==> SignExtended(i.extra)
    ensures var c := ComputeChoice(i, r);
      Differ(r, c.v, Compute(i, RegisterValue(i.rs, r, c.u, c.w), RegisterValue(i.rt, r, c.u, c.w), 0, 0, 4),
                     Compute(i, RegisterValue(i.rs, r, c.v, c.w), RegisterValue(i.rt, r, c.v, c.w), 0, 0, 4))
  {
    hide RegisterOp, ImmediateOp, ShiftOp, HiLoOp, BranchOp, JumpOp, Differ, RegisterValue;
    hide RegisterUnaffected, ImmediateUnaffected, ShiftUnaffected, HiLoUnaffected, BranchUnaffected, JumpUnaffected;
    hide RegisterChoice, ImmediateChoice, ShiftChoice, BranchChoice;
    match KindOf(i.op)
    case Register => RegisterVisible(i, r);
    case Immediate => ImmediateVisible(i, r);
    case Shift => ShiftVisible(i, r);
    case HiLo => HiLoVisible(i, r);
    case Branch => BranchVisible(i, r);
    case Jump => JumpVisible(i, r);
    case _ =>
  }

  // ---- Loads and stores ----

  /** The value of a base register that makes the address a. */
  function BaseFor(extra: Word, a: Word): Word { Wrap(a - extra) }

  lemma BaseMakes(extra: Word, a: Word)
    ensures Wrap(BaseFor(extra, a) + extra) == a
  {}

  lemma AccessInPages(mem: Ram, n: nat, addr: Word, size: nat, v: Word)
    requires 1 <= n <= NUM_PHYS_PAGES && ValidSize(size) && addr % size == 0 && addr / PAGE_SIZE < n
    ensures ReadMem(mem, FetchedPages(n), addr, size).Value? && WriteMem(mem, FetchedPages(n), addr, size, v).Memory?
  {}

  lemma AccessBeyondPages(mem: Ram, size: nat, v: Word)
    requires ValidSize(size)
    ensures ReadMem(mem, FetchedPages(1), 128, size).LoadFault?
      && WriteMem(mem, FetchedPages(1), 128, size, v).StoreFault?
  {}

  lemma LoadAddressVisible(i: Instruction, x: Operands, y: Operands)
    requires KindOf(i.op).Load? && x.pt == y.pt == FetchedPages(1) && Wrap(x.a + i.extra) == 0
      && Wrap(y.a + i.extra) == 128
    ensures Execute(i, x).Done? && Execute(i, y).Trap?
  {
    AccessInPages(x.mem, 1, 0, SizeOf(i.op), 0);
    AccessBeyondPages(y.mem, SizeOf(i.op), 0);
    hide ReadMem, WriteMem, FetchedPages, Converted;
  }

  lemma StoreAddressVisible(i: Instruction, x: Operands, y: Operands)
    requires KindOf(i.op).Store? && x.pt == y.pt == FetchedPages(1) && Wrap(x.a + i.extra) == 0
      && Wrap(y.a + i.extra) == 128
    ensures Execute(i, x).Done? && Execute(i, y).Trap?
  {
    hide ReadMem, WriteMem, FetchedPages, Merged;
    if PartialWord(i.op) {
      AccessInPages(x.mem, 1, 0, 4, x.b);
      AccessBeyondPages(y.mem, 4, y.b);
      ReadThenWrite(x.mem, 1, 0, Merged(i.op, ReadMem(x.mem, x.pt, 0, 4).value, x.b));
    } else {
      AccessInPages(x.mem, 1, 0, SizeOf(i.op), x.b);
      AccessBeyondPages(y.mem, SizeOf(i.op), y.b);
    }
  }

  /** A load or store through r: address 0 with the old value and one without a page with the new. */
  lemma AddressVisible(i: Instruction, raw: Word, r: Reg, x: Operands, y: Operands, c: Choice)
    requires r != 0 && i.rs == r && (KindOf(i.op).Load? || KindOf(i.op).Store?)
    requires c == Choice(BaseFor(i.extra, 0), BaseFor(i.extra, 128), 0)
    requires x == WitnessOperands(i, raw, r, c, 1, c.u, x.forwarded)
      && y == WitnessOperands(i, raw, r, c, 1, c.v, y.forwarded)
    ensures Execute(i, x).Done? && Execute(i, y).Trap?
  {
    BaseMakes(i.extra, 0);
    BaseMakes(i.extra, 128);
    hide Execute, BaseFor, WitnessMemory, FetchedPages;
    if KindOf(i.op).Load? { LoadAddressVisible(i, x, y); } else { StoreAddressVisible(i, x, y); }
  }

  /** SWL and SWR read a word and write it back. */
  lemma ReadThenWrite(mem: Ram, n: nat, addr: Word, v: Word)
    requires 1 <= n <= NUM_PHYS_PAGES && addr % 4 == 0 && addr / PAGE_SIZE < n
    ensures var l := ReadMem(mem, FetchedPages(n), addr, 4); l.Value? && WriteMem(mem, l.table, addr, 4, v).Memory?
  {
    var l := ReadMem(mem, FetchedPages(n), addr, 4);
    assert l.Value? && l.table == FetchedPages(n)[addr / PAGE_SIZE := FetchedPages(n)[addr / PAGE_SIZE].(use := true)];
    hide Encode, Decode;
  }

  /** Where the instruction accesses memory when its base register holds BaseFor(extra, 0), or is 0. */
  function AddressOf(i: Instruction): Word { if i.rs == 0 then i.extra else 0 }

  function PagesFor(i: Instruction): (n: nat)
    ensures n >= 1
  {
    AddressOf(i) / PAGE_SIZE + 1
  }

  lemma AddressReached(i: Instruction, r: Reg, z: Word)
    requires i.rs != r || r == 0
    ensures Wrap(RegisterValue(i.rs, r, z, BaseFor(i.extra, 0)) + i.extra) == AddressOf(i)
  {
    BaseMakes(i.extra, 0);
  }

  lemma WritesDiffer(mem: Ram, pt: PageTable, addr: Word, size: nat, p: Word, q: Word)
    requires ValidSize(size) && Encode(p, size) != Encode(q, size)
    requires WriteMem(mem, pt, addr, size, p).Memory? && WriteMem(mem, pt, addr, size, q).Memory?
    ensures WriteMem(mem, pt, addr, size, p).mem != WriteMem(mem, pt, addr, size, q).mem
  {
    var at := Translate(pt, addr, size, true).addr;
    AccessStaysInPage(pt, addr, size, true);
    var m, n := WriteMem(mem, pt, addr, size, p).mem, WriteMem(mem, pt, addr, size, q).mem;
    hide Translate, Encode;
    assert m[at..at + size] == Encode(p, size) && n[at..at + size] == Encode(q, size);
  }

  lemma StoreDone(i: Instruction, x: Operands, addr: Word, n: nat)
    requires KindOf(i.op).Store? && !PartialWord(i.op) && addr % SizeOf(i.op) == 0 && Wrap(x.a + i.extra) == addr
    requires 1 <= n <= NUM_PHYS_PAGES && x.pt == FetchedPages(n) && addr / PAGE_SIZE < n
    ensures var w := WriteMem(x.mem, x.pt, addr, SizeOf(i.op), x.b);
      w.Memory? && Execute(i, x).Done? && Execute(i, x).mem == w.mem
  {
    hide WriteMem, ReadMem, FetchedPages, Wrap;
    AccessInPages(x.mem, n, addr, SizeOf(i.op), x.b);
    assert Execute(i, x) == ExecuteStore(x, addr, SizeOf(i.op), x.b);
  }

  /** A store of r to an address that works with either value. */
  lemma StoredVisible(i: Instruction, x: Operands, y: Operands, addr: Word, n: nat)
    requires KindOf(i.op).Store? && !PartialWord(i.op) && addr % SizeOf(i.op) == 0 && Wrap(x.a + i.extra) == addr
    requires 1 <= n <= NUM_PHYS_PAGES && x.pt == FetchedPages(n) && addr / PAGE_SIZE < n
    requires y == x.(b := 1, forwarded := y.forwarded) && x.b == 0
    ensures Execute(i, x).Done? && Execute(i, y).Done? && Execute(i, x).mem != Execute(i, y).mem
  {
    var size := SizeOf(i.op);
    assert Encode(0, size)[0] == 0 && Encode(1, size)[0] == 1;
    hide Execute, WriteMem, ReadMem, FetchedPages, Encode, Wrap, SizeOf;
    StoreDone(i, x, addr, n);
    StoreDone(i, y, addr, n);
    WritesDiffer(x.mem, x.pt, addr, size, 0, 1);
  }

  lemma MergedDiffers(op: Op, v: Word)
    requires op.SWL? || op.SWR?
    ensures Encode(Merged(op, v, 0), 4) != Encode(Merged(op, v, 1), 4)
  {
    var p, q := Merged(op, v, 0), Merged(op, v, 1);
    assert Encode(p, 4)[0] == p % 256 && Encode(q, 4)[0] == q % 256;
    assert Encode(p, 4)[3] == p / 0x100_0000 && Encode(q, 4)[3] == q / 0x100_0000;
  }

  lemma PartialStoreExecutes(i: Instruction, x: Operands, addr: Word)
    requires (i.op.SWL? || i.op.SWR?) && addr % 4 == 0 && Wrap(x.a + i.extra) == addr
    ensures Execute(i, x) == ExecutePartialStore(i, x, addr)
  {
    hide ExecutePartialStore, ExecuteStore, LoadOp, Compute, Apply, Wrap;
  }

  /** What SWL and SWR on an aligned address in a mapped page do. */
  lemma PartialStoreDone(i: Instruction, x: Operands, addr: Word, n: nat)
    requires (i.op.SWL? || i.op.SWR?) && addr % 4 == 0 && Wrap(x.a + i.extra) == addr
    requires 1 <= n <= NUM_PHYS_PAGES && x.pt == FetchedPages(n) && addr / PAGE_SIZE < n
    ensures var l := ReadMem(x.mem, x.pt, addr, 4);
      && l.Value?
      && var w := WriteMem(x.mem, l.table, addr, 4, Merged(i.op, l.value, x.b));
      && w.Memory? && Execute(i, x).Done? && Execute(i, x).mem == w.mem
  {
    hide Execute, WriteMem, ReadMem, FetchedPages, Merged, Wrap;
    PartialStoreExecutes(i, x, addr);
    AccessInPages(x.mem, n, addr, 4, 0);
    var l := ReadMem(x.mem, x.pt, addr, 4);
    ReadThenWrite(x.mem, n, addr, Merged(i.op, l.value, x.b));
  }

  lemma PartialStoredVisible(i: Instruction, x: Operands, y: Operands, addr: Word, n: nat)
    requires (i.op.SWL? || i.op.SWR?) && addr % 4 == 0 && Wrap(x.a + i.extra) == addr
    requires 1 <= n <= NUM_PHYS_PAGES && x.pt == FetchedPages(n) && addr / PAGE_SIZE < n
    requires y == x.(b := 1, forwarded := y.forwarded) && x.b == 0
    ensures Execute(i, x).Done? && Execute(i, y).Done? && Execute(i, x).mem != Execute(i, y).mem
  {
    hide Execute, WriteMem, ReadMem, FetchedPages, Encode, Merged, Wrap;
    PartialStoreDone(i, x, addr, n);
    PartialStoreDone(i, y, addr, n);
    var l := ReadMem(x.mem, x.pt, addr, 4);
    MergedDiffers(i.op, l.value);
    WritesDiffer(x.mem, l.table, addr, 4, Merged(i.op, l.value, 0), Merged(i.op, l.value, 1));
  }

  /** LWR into register 0 on top of a pending load of 256 into register 0. */
  lemma ForwardedVisible(i: Instruction, x: Operands, y: Operands)
    requires i.op.LWR? && AddressOf(i) % 4 == 0 && x.forwarded == 0x100 && y == x.(forwarded := 0)
    requires Wrap(x.a + i.extra) == AddressOf(i) < MEMORY_SIZE && x.pt == FetchedPages(PagesFor(i))
    ensures Execute(i, x).Done? && Execute(i, y).Done? && Execute(i, x).loadValue != Execute(i, y).loadValue
  {
    hide ReadMem, WriteMem, FetchedPages;
    AccessInPages(x.mem, PagesFor(i), AddressOf(i), 4, 0);
    hide AddressOf, PagesFor;
  }

  /** Only instructions that no state can tell are covered by the condition: here is a state. */
  lemma AffectedSeesLoad(raw: Word, r: Reg) returns (c: Cpu)
    requires !Unaffected(DecodeInstruction(raw), r)
    ensures Fetches(c, raw) && WellMapped(c.pt) && c.regs[LoadReg] == r
    ensures OneInstruction(Flush(c)) != OneInstruction(c)
  {
    var i := DecodeInstruction(raw);
    var choice, n := ChoiceFor(i, r), PagesOf(i, r);
    c := Witness(raw, r, choice, n);
    ReachedInMemory(i, r);
    WitnessFetches(raw, r, choice, n);
    OperandsOfWitness(i, raw, r, choice, n);
    var x, y := OperandsOf(c.regs, i, c.mem, FetchedPages(n)), OperandsOf(Flush(c).regs, i, c.mem, FetchedPages(n));
    EffectsOfWitness(raw, r, x, y, n);
    OutcomesDiffer(c, raw, FetchedPages(n), Execute(i, x), Execute(i, y));
    hide Unaffected, DecodeInstruction, Execute, OperandsOf, ChoiceFor, EffectsDiffer, OneInstruction, FetchedPages;
  }

  /** The size of the page table of the witness. */
  function PagesOf(i: Instruction, r: Reg): (n: nat)
    ensures n >= 1
  {
    if (KindOf(i.op).Load? || KindOf(i.op).Store?) && !(r != 0 && i.rs == r) then PagesFor(i) else 1
  }

  /** What is not unreachable lies in memory. */
  lemma ReachedInMemory(i: Instruction, r: Reg)
    requires !Unaffected(i, r)
    ensures PagesOf(i, r) <= NUM_PHYS_PAGES
    ensures r == 0 || ((KindOf(i.op).Load? || KindOf(i.op).Store?) && i.rs != r) ==> AddressOf(i) < MEMORY_SIZE
  {
    hide RegisterUnaffected, ImmediateUnaffected, ShiftUnaffected, HiLoUnaffected, BranchUnaffected, JumpUnaffected;
  }

  function ChoiceFor(i: Instruction, r: Reg): Choice {
    if r == 0 then Choice(0, 0x100, BaseFor(i.extra, 0))
    else if !KindOf(i.op).Load? && !KindOf(i.op).Store? then ComputeChoice(i, r)
    else if i.rs == r then Choice(BaseFor(i.extra, 0), BaseFor(i.extra, 128), 0)
    else Choice(0, 1, BaseFor(i.extra, 0))
  }

  lemma StoreEffectsDiffer(i: Instruction, r: Reg, x: Operands, y: Operands, v: Word)
    requires r != 0 && KindOf(i.op).Store? && i.rs != r && AddressOf(i) < MEMORY_SIZE
      && AddressOf(i) % AlignmentOf(i.op) == 0
    requires Wrap(x.a + i.extra) == AddressOf(i) && x.pt == FetchedPages(PagesFor(i))
    requires y == x.(b := 1, forwarded := y.forwarded) && x.b == 0
    ensures EffectsDiffer(r, v, Execute(i, x), Execute(i, y))
  {
    hide Execute, FetchedPages, Wrap;
    if PartialWord(i.op) {
      PartialStoredVisible(i, x, y, AddressOf(i), PagesFor(i));
    } else {
      StoredVisible(i, x, y, AddressOf(i), PagesFor(i));
    }
  }

  lemma EffectsOfWitness(raw: Word, r: Reg, x: Operands, y: Operands, n: nat)
    requires var i := DecodeInstruction(raw);
      && !Unaffected(i, r)
      && n == PagesOf(i, r)
    requires var i := DecodeInstruction(raw); var c := ChoiceFor(i, r);
      && x == WitnessOperands(i, raw, r, c, n, c.u, x.forwarded)
      && y == WitnessOperands(i, raw, r, c, n, c.v, y.forwarded)
      && (r == 0 == i.rt ==> x.forwarded == c.v && y.forwarded == 0)
    ensures var i := DecodeInstruction(raw); EffectsDiffer(r, ChoiceFor(i, r).v, Execute(i, x), Execute(i, y))
  {
    hide DecodeInstruction, RegisterUnaffected, ImmediateUnaffected, ShiftUnaffected, HiLoUnaffected, BranchUnaffected,
      JumpUnaffected, Differ, FetchedPages, WitnessMemory, BaseFor, Compute, Execute, ComputeChoice, PagesFor;
    var i := DecodeInstruction(raw);
    var c := ChoiceFor(i, r);
    ReachedInMemory(i, r);
    if r == 0 {
      AddressReached(i, r, c.u);
      ForwardedVisible(i, x, y);
    } else if !KindOf(i.op).Load? && !KindOf(i.op).Store? {
      ComputeEffectsDiffer(raw, r, x, y);
    } else if i.rs == r {
      AddressVisible(i, raw, r, x, y, c);
    } else {
      AddressReached(i, r, c.u);
      StoreEffectsDiffer(i, r, x, y, c.v);
    }
  }

  lemma ComputeEffectsDiffer(raw: Word, r: Reg, x: Operands, y: Operands)
    requires var i := DecodeInstruction(raw); var c := ComputeChoice(i, r);
      && r != 0 && !Unaffected(i, r) && !KindOf(i.op).Load? && !KindOf(i.op).Store?
      && x == WitnessOperands(i, raw, r, c, 1, c.u, x.forwarded)
      && y == WitnessOperands(i, raw, r, c, 1, c.v, y.forwarded)
    ensures var i := DecodeInstruction(raw); EffectsDiffer(r, ComputeChoice(i, r).v, Execute(i, x), Execute(i, y))
  {
    var i := DecodeInstruction(raw);
    var c := ComputeChoice(i, r);
    DecodedExtra(raw);
    hide DecodeInstruction, Unaffected, Differ, EffectsDiffer, FetchedPages, WitnessMemory, Compute, ComputeChoice;
    ComputeVisible(i, r);
    DifferApplied(x, y, r, c.v, Compute(i, x.a, x.b, 0, 0, 4), Compute(i, y.a, y.b, 0, 0, 4));
  }

  /** The extra field of an immediate or branch instruction is a sign-extended half word. */
  lemma DecodedExtra(raw: Word)
    ensures var i := DecodeInstruction(raw); KindOf(i.op).Immediate? || KindOf(i.op).Branch? ==> SignExtended(i.extra)
  {}

  /** For every instruction word and every register: a load pending for the register can be applied
      before the instruction without any trace, in every state of a process, if and only if the
      instruction is unaffected by it. */
  lemma EarlyLoadInvisibleIff(raw: Word, r: Reg)
    ensures
      (forall c :: Fetches(c, raw) && WellMapped(c.pt) && c.regs[LoadReg] == r ==>
        OneInstruction(Flush(c)) == OneInstruction(c))
      <==> Unaffected(DecodeInstruction(raw), r)
  {
    if Unaffected(DecodeInstruction(raw), r) {
      forall c | Fetches(c, raw) && WellMapped(c.pt) && c.regs[LoadReg] == r
        ensures OneInstruction(Flush(c)) == OneInstruction(c) {
        UnaffectedSeesNothing(c, raw);
      }
    } else {
      var c := AffectedSeesLoad(raw, r);
    }
    hide Unaffected, Fetches, OneInstruction, DecodeInstruction;
  }

  // ---- Whole runs ----

  /** The instruction that c is about to fetch is unaffected by the load that is pending. */
  predicate NextUnaffected(c: Cpu)
    requires WellFormed(c.regs)
  {
    var f := ReadMem(c.mem, c.pt, c.regs[PCReg], 4);
    f.Value? ==> Unaffected(DecodeInstruction(f.value), c.regs[LoadReg])
  }

  lemma UnaffectedHides(c: Cpu)
    requires WellFormed(c.regs) && NextUnaffected(c)
    ensures FlushHidden(c)
  {
    forall e | SameView(c, e) ensures OneInstruction(Flush(e)) == OneInstruction(e) {
      ReadSameView(c.mem, e.mem, c.pt, c.regs[PCReg], 4);
      UnaffectedStep(e);
    }
    hide OneInstruction, NextUnaffected, Flush, SameView, ReadMem;
  }

  lemma UnaffectedStep(c: Cpu)
    requires WellFormed(c.regs) && WellMapped(c.pt) && NextUnaffected(c)
    ensures OneInstruction(Flush(c)) == OneInstruction(c)
  {
    match ReadMem(c.mem, c.pt, c.regs[PCReg], 4)
    case LoadFault(e) => RaiseAfterFlush(c.regs, e, c.regs[PCReg], c.mem, c.pt);
    case Value(raw, _) => UnaffectedSeesNothing(c, raw);
  }

  /** PreemptionInvisible under the exact condition on each instruction: programs that fill a load
      delay slot in any way that does not show are covered. */
  lemma PreemptionOfUnaffected(c: Cpu, slots: seq<Slot>)
    requires WellFormed(c.regs) && WellMapped(c.pt)
    requires forall k :: 0 <= k < |slots| && RunUser(c, k).Normal? ==> NextUnaffected(RunUser(c, k).cpu)
    ensures SameOutcome(RunUser(c, |slots|), PreemptedRun(c, slots))
  {
    hide FlushHidden, NextUnaffected, RunUser, PreemptedRun;
    forall k | 0 <= k < |slots| && RunUser(c, k).Normal? ensures FlushHidden(RunUser(c, k).cpu) {
      UnaffectedHides(RunUser(c, k).cpu);
    }
    HiddenPreemption(c, slots);
  }

  lemma RegisterRespects(i: Instruction, r: Reg)
    requires r != 0 && Respects(i, r) && KindOf(i.op).Register?
    ensures RegisterUnaffected(i, r)
  {
    assert ReadsRs(i.op) && ReadsRt(i.op) && Destination(i) == i.rd;
  }

  lemma ImmediateRespects(i: Instruction, r: Reg)
    requires r != 0 && Respects(i, r) && KindOf(i.op).Immediate?
    ensures ImmediateUnaffected(i, r)
  {}

  lemma ShiftRespects(i: Instruction, r: Reg)
    requires r != 0 && Respects(i, r) && KindOf(i.op).Shift?
    ensures ShiftUnaffected(i, r)
  {}

  /** The delay-slot rule implies the condition. */
  lemma RespectsSuffices(i: Instruction, r: Reg)
    requires Respects(i, r)
    ensures Unaffected(i, r)
  {
    hide RegisterUnaffected, ImmediateUnaffected, ShiftUnaffected;
    if r != 0 {
      match KindOf(i.op)
      case Register => RegisterRespects(i, r);
      case Immediate => ImmediateRespects(i, r);
      case Shift => ShiftRespects(i, r);
      case _ =>
    }
  }
}
