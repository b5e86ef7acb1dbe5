/** One step of the hart in integer arithmetic: RV32IM, Zicsr and machine-mode traps, with this emulator's choices. */
module Isa {
  import opened Words
  import opened Instructions
  import opened Platform

  // Trap causes. Interrupts and exceptions share one numbering, so 7 and 11 each have two meanings.

  type Trap = int

  const TRAP_NONE: Trap := -1
  const TRAP_INSTR_MISALIGNED: Trap := 0
  const TRAP_INSTR_ACCESS_FAULT: Trap := 1
  const TRAP_ILLEGAL_INSTR: Trap := 2
  const TRAP_INT_SW: Trap := 3
  const TRAP_LOAD_ACCESS_FAULT: Trap := 5
  const TRAP_STORE_ACCESS_FAULT: Trap := 7
  const TRAP_INT_TIMER: Trap := 7
  const TRAP_ECALL_M: Trap := 11
  const TRAP_INT_EXTERNAL: Trap := 11

  predicate IsInterrupt(cause: Trap) {
    cause == TRAP_INT_SW || cause == TRAP_INT_TIMER || cause == TRAP_INT_EXTERNAL
  }

  // State.

  type Registers = r: seq<Word> | |r| == 32 witness seq(32, i => 0)

  datatype CsrFile = CsrFile(mstatus: Word, mtvec: Word, mepc: Word, mcause: Word, mtval: Word, mscratch: Word)

  datatype Machine = Machine(gpr: Registers, csr: CsrFile, pc: Word, bus: BusState)

  datatype RegWrite = RegWrite(rd: Reg, value: Word)
  datatype Access = Access(addr: Word, value: Word, size: Size)

  /** The retirement record; each flag with the fields it guards is an option. */
  datatype Retire = Retire(
    pc: Word, nextPc: Word, instruction: Word,
    write: Option<RegWrite>, load: Option<Access>, store: Option<Access>, trap: Trap)

  /** What executing an instruction comes to, before it is committed. */
  datatype Effect =
    | Done(gpr: Registers, csr: CsrFile, bus: BusState, nextPc: Word, load: Option<Access>, store: Option<Access>)
    | Fault(cause: Trap, tval: Word, bus: BusState)
    | EnvCall(bus: BusState)

  /** Writing register rd; register 0 is hardwired to zero. */
  function SetReg(gpr: Registers, rd: Reg, value: Word): Registers {
    gpr[rd := value][0 := 0]
  }

  // Register operations (sections 2.4, 7.1 and 7.2 of the Unprivileged ISA).

  /** Division rounding towards zero. */
  function Quot(a: int, b: int): int
    requires b != 0
  {
    if a >= 0 then a / b else -((-a) / b)
  }

  function Rem(a: int, b: int): int
    requires b != 0
  {
    a - b * Quot(a, b)
  }

  function Flag(b: bool): Word {
    if b then 1 else 0
  }

  predicate IsImmediateOp(op: Op) {
    || op.LUI? || op.AUIPC? || op.ADDI? || op.SLTI? || op.SLTIU? || op.XORI? || op.ORI? || op.ANDI?
    || op.SLLI? || op.SRLI? || op.SRAI?
  }

  predicate IsBaseOp(op: Op) {
    || op.ADD? || op.SUB? || op.SLL? || op.SLT? || op.SLTU?
    || op.XOR? || op.SRL? || op.SRA? || op.OR? || op.AND?
  }

  predicate IsProduct(op: Op) {
    op.MUL? || op.MULH? || op.MULHSU? || op.MULHU?
  }

  predicate IsDivision(op: Op) {
    op.DIV? || op.DIVU? || op.REM? || op.REMU?
  }

  predicate IsMulDiv(op: Op) {
    IsProduct(op) || IsDivision(op)
  }

  /** The operations that only compute a value for rd. */
  predicate IsAlu(op: Op) {
    IsImmediateOp(op) || IsBaseOp(op) || IsMulDiv(op)
  }

  function MulDiv(op: Op, a: Word, b: Word): Word {
    match op
    case MUL => Wrap(a * b)
    case MULH => Wrap(Signed(a) * Signed(b) / 0x1_0000_0000)
    case MULHSU => Wrap(Signed(a) * b / 0x1_0000_0000)
    case MULHU => Wrap(a * b / 0x1_0000_0000)
    case DIV => if b == 0 then 0xFFFF_FFFF else Wrap(Quot(Signed(a), Signed(b)))
    case DIVU => if b == 0 then 0xFFFF_FFFF else Wrap(a / b)
    case REM => if b == 0 then a else Wrap(Rem(Signed(a), Signed(b)))
    case REMU => if b == 0 then a else Wrap(a % b)
    case _ => 0
  }

  function BaseResult(op: Op, a: Word, b: Word): Word {
    match op
    case ADD => Wrap(a + b)
    case SUB => Wrap(a - b)
    case SLL => Wrap(a * Pow2(b % 0x20))
    case SLT => Flag(Signed(a) < Signed(b))
    case SLTU => Flag(a < b)
    case XOR => Xor(a, b)
    case SRL => Wrap(a / Pow2(b % 0x20))
    case SRA => Wrap(Signed(a) / Pow2(b % 0x20))
    case OR => Or(a, b)
    case AND => And(a, b)
    case _ => 0
  }

  function ImmediateResult(op: Op, a: Word, imm: Word, pc: Word): Word {
    match op
    case LUI => imm
    case AUIPC => Wrap(pc + imm)
    case ADDI => Wrap(a + imm)
    case SLTI => Flag(Signed(a) < Signed(imm))
    case SLTIU => Flag(a < imm)
    case XORI => Xor(a, imm)
    case ORI => Or(a, imm)
    case ANDI => And(a, imm)
    case SLLI => Wrap(a * Pow2(imm % 0x20))
    case SRLI => Wrap(a / Pow2(imm % 0x20))
    case SRAI => Wrap(Signed(a) / Pow2(imm % 0x20))
    case _ => 0
  }

  /** The result of a register operation on a = x[rs1], b = x[rs2] and the immediate. */
  function Alu(op: Op, a: Word, b: Word, imm: Word, pc: Word): Word {
    if IsImmediateOp(op) then ImmediateResult(op, a, imm, pc)
    else if IsBaseOp(op) then BaseResult(op, a, b)
    else MulDiv(op, a, b)
  }

  // Control transfer, loads and stores (sections 2.5 and 2.6).

  predicate IsBranch(op: Op) {
    op.BEQ? || op.BNE? || op.BLT? || op.BGE? || op.BLTU? || op.BGEU?
  }

  predicate Taken(op: Op, a: Word, b: Word) {
    match op
    case BEQ => a == b
    case BNE => a != b
    case BLT => Signed(a) < Signed(b)
    case BGE => Signed(a) >= Signed(b)
    case BLTU => a < b
    case _ => a >= b
  }

  predicate IsLoad(op: Op) {
    op.LB? || op.LH? || op.LW? || op.LBU? || op.LHU?
  }

  predicate IsStore(op: Op) {
    op.SB? || op.SH? || op.SW?
  }

  function AccessSize(op: Op): Size {
    match op
    case LB => 8 case LBU => 8 case SB => 8
    case LH => 16 case LHU => 16 case SH => 16
    case _ => 32
  }

  function Extend(op: Op, value: Word): Word {
    if op == LB then Wrap(Twos(value, 0x100)) else if op == LH then Wrap(Twos(value, 0x1_0000)) else value
  }

  function Truncate(op: Op, value: Word): Word {
    if op == SB then value % 0x100 else if op == SH then value % 0x1_0000 else value
  }

  // CSRs (chapter 9 of the Unprivileged ISA, sections 2.2 and 3.1 of the Privileged Architecture).

  predicate IsCsr(op: Op) {
    op.CSRRW? || op.CSRRS? || op.CSRRC? || op.CSRRWI? || op.CSRRSI? || op.CSRRCI?
  }

  /** The CSRs that hold a value; the others read as constants and ignore writes. */
  predicate LiveCsr(addr: nat) {
    addr == 0x300 || addr == 0x305 || addr == 0x340 || addr == 0x341 || addr == 0x342 || addr == 0x343
  }

  predicate ZeroCsr(addr: nat) {
    || 0xF11 <= addr <= 0xF14 || 0x302 <= addr <= 0x304 || addr == 0x344 || addr == 0x180
    || addr == 0x744 || addr == 0x747 || 0x3A0 <= addr <= 0x3A3 || 0x3B0 <= addr <= 0x3B3
  }

  function CsrGet(csr: CsrFile, addr: nat): Option<Word> {
    if addr == 0x300 then Some(csr.mstatus)
    else if addr == 0x305 then Some(csr.mtvec)
    else if addr == 0x340 then Some(csr.mscratch)
    else if addr == 0x341 then Some(csr.mepc)
    else if addr == 0x342 then Some(csr.mcause)
    else if addr == 0x343 then Some(csr.mtval)
    else if addr == 0x301 then Some(0x4000_1100)
    else if ZeroCsr(addr) then Some(0)
    else None
  }

  function CsrPut(csr: CsrFile, addr: nat, value: Word): CsrFile {
    if addr == 0x300 then csr.(mstatus := value)
    else if addr == 0x305 then csr.(mtvec := value)
    else if addr == 0x340 then csr.(mscratch := value)
    else if addr == 0x341 then csr.(mepc := value)
    else if addr == 0x342 then csr.(mcause := value)
    else if addr == 0x343 then csr.(mtval := value)
    else csr
  }

  function CsrResult(op: Op, was: Word, operand: Word): Word {
    match op
    case CSRRW => operand case CSRRWI => operand
    case CSRRS => Or(was, operand) case CSRRSI => Or(was, operand)
    case _ => And(was, Not(operand))
  }

  function CsrOperand(di: Decoded, gpr: Registers): Word {
    if di.op == CSRRWI || di.op == CSRRSI || di.op == CSRRCI then di.rs1 else gpr[di.rs1]
  }

  function ExecCsr(m: Machine, di: Decoded): Effect {
    var addr := Funct12Of(di.instruction);
    match CsrGet(m.csr, addr)
    case None => Fault(TRAP_ILLEGAL_INSTR, di.instruction, m.bus)
    case Some(was) =>
      var value := CsrResult(di.op, was, CsrOperand(di, m.gpr));
      Done(SetReg(m.gpr, di.rd, was),
           if di.rs1 != 0 then CsrPut(m.csr, addr, value) else m.csr,
           m.bus, Wrap(m.pc + 4), None, None)
  }

  // mstatus fields: MIE is bit 3, MPIE bit 7, MPP bits 11 and 12 (section 3.1.6 of the Privileged Architecture).

  function Mie(mstatus: Word): Bit { mstatus / 8 % 2 }
  function Mpie(mstatus: Word): Bit { mstatus / 128 % 2 }
  function Mpp(mstatus: Word): nat { mstatus / 2048 % 4 }

  /** MPIE takes MIE, MIE becomes 0 and MPP becomes machine mode. */
  function TrapStatus(mstatus: Word): Word {
    mstatus - 8 * Mie(mstatus) - 128 * Mpie(mstatus) - 2048 * Mpp(mstatus) + 128 * Mie(mstatus) + 2048 * 3
  }

  /** MIE takes MPIE and MPIE becomes 1; MPP stays. */
  function MretStatus(mstatus: Word): Word {
    mstatus - 8 * Mie(mstatus) - 128 * Mpie(mstatus) + 8 * Mpie(mstatus) + 128
  }

  /** The trap vector: direct, or vectored for interrupt causes when mtvec's mode is 1. */
  function Vector(mtvec: Word, cause: Trap): Word {
    var base := mtvec - mtvec % 4;
    if mtvec % 4 == 1 && IsInterrupt(cause) then Wrap(base + 4 * cause) else base
  }

  function TrapCsr(csr: CsrFile, cause: Trap, tval: Word, pc: Word): CsrFile
    requires 0 <= cause < 12
  {
    csr.(mepc := pc, mtval := tval,
         mcause := if IsInterrupt(cause) then 0x8000_0000 + cause else cause,
         mstatus := TrapStatus(csr.mstatus))
  }

  // Execution.

  function ExecJump(m: Machine, di: Decoded, target: Word): Effect {
    if target % 4 != 0 then Fault(TRAP_INSTR_MISALIGNED, target, m.bus)
    else Done(SetReg(m.gpr, di.rd, Wrap(m.pc + 4)), m.csr, m.bus, target, None, None)
  }

  function ExecBranch(m: Machine, di: Decoded): Effect {
    var target := Wrap(m.pc + di.imm);
    var taken := Taken(di.op, m.gpr[di.rs1], m.gpr[di.rs2]);
    if taken && target % 4 != 0 then Fault(TRAP_INSTR_MISALIGNED, target, m.bus)
    else Done(m.gpr[0 := 0], m.csr, m.bus, if taken then target else Wrap(m.pc + 4), None, None)
  }

  /** A load that the bus refuses reports the value 0, not the address, in mtval. */
  function ExecLoad(m: Machine, di: Decoded): Effect {
    var addr := Wrap(m.gpr[di.rs1] + di.imm);
    var size := AccessSize(di.op);
    var (bus, r) := BusRead(m.bus, addr, size);
    match r
    case None => Fault(TRAP_LOAD_ACCESS_FAULT, 0, bus)
    case Some(v) =>
      var value := Extend(di.op, v);
      Done(SetReg(m.gpr, di.rd, value), m.csr, bus, Wrap(m.pc + 4), Some(Access(addr, value, size)), None)
  }

  function ExecStore(m: Machine, di: Decoded): Effect {
    var addr := Wrap(m.gpr[di.rs1] + di.imm);
    var size := AccessSize(di.op);
    var value := Truncate(di.op, m.gpr[di.rs2]);
    match BusWrite(m.bus, addr, value, size)
    case None => Fault(TRAP_STORE_ACCESS_FAULT, 0, m.bus)
    case Some(bus) => Done(m.gpr[0 := 0], m.csr, bus, Wrap(m.pc + 4), None, Some(Access(addr, value, size)))
  }

  function Exec(m: Machine, di: Decoded): Effect {
    if IsAlu(di.op) then
      Done(SetReg(m.gpr, di.rd, Alu(di.op, m.gpr[di.rs1], m.gpr[di.rs2], di.imm, m.pc)),
           m.csr, m.bus, Wrap(m.pc + 4), None, None)
    else if di.op.JAL? then ExecJump(m, di, Wrap(m.pc + di.imm))
    else if di.op.JALR? then
      var t := Wrap(m.gpr[di.rs1] + di.imm);
      ExecJump(m, di, t - t % 2)
    else if IsBranch(di.op) then ExecBranch(m, di)
    else if IsLoad(di.op) then ExecLoad(m, di)
    else if IsStore(di.op) then ExecStore(m, di)
    else if IsCsr(di.op) then ExecCsr(m, di)
    else if di.op.FENCE? || di.op.FENCE_I? then
      Done(m.gpr[0 := 0], m.csr, m.bus, Wrap(m.pc + 4), None, None)
    else if di.op.MRET? then
      Done(m.gpr[0 := 0], m.csr.(mstatus := MretStatus(m.csr.mstatus)), m.bus, m.csr.mepc, None, None)
    else if di.op.ECALL? then EnvCall(m.bus)
    else Fault(TRAP_ILLEGAL_INSTR, di.instruction, m.bus)
  }

  // Exec, one class of operations at a time.

  lemma ExecAlu(m: Machine, di: Decoded)
    requires IsAlu(di.op)
    ensures Exec(m, di)
         == Done(SetReg(m.gpr, di.rd, Alu(di.op, m.gpr[di.rs1], m.gpr[di.rs2], di.imm, m.pc)),
                 m.csr, m.bus, Wrap(m.pc + 4), None, None)
  {
    hide Alu;
  }

  lemma ExecIsJump(m: Machine, di: Decoded)
    requires di.op == JAL || di.op == JALR
    ensures di.op == JAL ==> Exec(m, di) == ExecJump(m, di, Wrap(m.pc + di.imm))
    ensures var t := Wrap(m.gpr[di.rs1] + di.imm); di.op == JALR ==> Exec(m, di) == ExecJump(m, di, t - t % 2)
  {
    hide Alu, SetReg, ExecJump, ExecBranch, ExecLoad, ExecStore, ExecCsr, MretStatus;
  }

  lemma ExecIsBranch(m: Machine, di: Decoded)
    requires IsBranch(di.op)
    ensures Exec(m, di) == ExecBranch(m, di)
  {
    hide ExecBranch;
  }

  lemma ExecIsLoad(m: Machine, di: Decoded)
    requires IsLoad(di.op)
    ensures Exec(m, di) == ExecLoad(m, di)
  {
    hide ExecLoad;
  }

  lemma ExecIsStore(m: Machine, di: Decoded)
    requires IsStore(di.op)
    ensures Exec(m, di) == ExecStore(m, di)
  {
    hide ExecStore;
  }

  lemma ExecIsCsr(m: Machine, di: Decoded)
    requires IsCsr(di.op)
    ensures Exec(m, di) == ExecCsr(m, di)
  {
    hide Alu, SetReg, ExecJump, ExecBranch, ExecLoad, ExecStore, ExecCsr, MretStatus;
  }

  /** The operations outside every class. */
  lemma OtherOps(op: Op)
    requires !IsAlu(op) && op != JAL && op != JALR && !IsBranch(op) && !IsLoad(op) && !IsStore(op) && !IsCsr(op)
    ensures op.FENCE? || op.FENCE_I? || op.MRET? || op.ECALL? || op.EBREAK? || op.Unknown?
  {}

  lemma ExecIsOther(m: Machine, di: Decoded)
    ensures di.op == FENCE || di.op == FENCE_I
        ==> Exec(m, di) == Done(m.gpr[0 := 0], m.csr, m.bus, Wrap(m.pc + 4), None, None)
    ensures var csr' := m.csr.(mstatus := MretStatus(m.csr.mstatus));
      di.op == MRET ==> Exec(m, di) == Done(m.gpr[0 := 0], csr', m.bus, m.csr.mepc, None, None)
    ensures di.op == ECALL ==> Exec(m, di) == EnvCall(m.bus)
    ensures di.op == EBREAK || di.op == Unknown ==> Exec(m, di) == Fault(TRAP_ILLEGAL_INSTR, di.instruction, m.bus)
  {
    hide Alu, ExecJump, ExecBranch, ExecLoad, ExecStore, ExecCsr, MretStatus;
  }

  /** What fetching at pc gives: the word and the bus after the read, or a fault. */
  datatype Fetched = GotWord(w: Word, bus: BusState) | NoWord(cause: Trap, bus: BusState)

  function Fetch(m: Machine): Fetched {
    if m.pc % 4 != 0 then NoWord(TRAP_INSTR_MISALIGNED, m.bus)
    else
      var (bus, r) := BusRead(m.bus, m.pc, 32);
      match r
      case None => NoWord(TRAP_INSTR_ACCESS_FAULT, bus)
      case Some(w) => GotWord(w, bus)
  }

  function EffectOf(m: Machine): Effect {
    match Fetch(m)
    case NoWord(cause, bus) => Fault(cause, m.pc, bus)
    case GotWord(w, bus) =>
      if OpOf(w) == Unknown then Fault(TRAP_ILLEGAL_INSTR, w, bus)
      else Exec(m.(bus := bus), Decode(w))
  }

  /** The fetched word, or 0 when the fetch fails. */
  function WordAt(m: Machine): Word {
    match Fetch(m)
    case NoWord(_, _) => 0
    case GotWord(w, _) => w
  }

  function RecordedWrite(w: Word, gpr: Registers): Option<RegWrite> {
    var di := Decode(w);
    if di.rd != 0 && di.format != FormatS && di.format != FormatB then Some(RegWrite(di.rd, gpr[di.rd])) else None
  }

  /** Commit an effect: the next state and the retirement record. */
  function Commit(m: Machine, w: Word, e: Effect): (Machine, Retire)
    requires e.Fault? ==> 0 <= e.cause < 12
  {
    match e
    case Done(gpr, csr, bus, nextPc, load, store) =>
      (Machine(gpr, csr, nextPc, bus),
       Retire(m.pc, nextPc, w, RecordedWrite(w, gpr), load, store, TRAP_NONE))
    case Fault(cause, tval, bus) =>
      var vector := Vector(m.csr.mtvec, cause);
      (Machine(m.gpr[0 := 0], TrapCsr(m.csr, cause, tval, m.pc), vector, bus),
       Retire(m.pc, vector, w, None, None, None, cause))
    case EnvCall(bus) =>
      var next := Wrap(m.pc + 4);
      (Machine(m.gpr[0 := 0], m.csr, next, bus),
       Retire(m.pc, next, w, None, None, None, TRAP_ECALL_M))
  }

  function Step(m: Machine): (Machine, Retire) {
    FaultCauses(m);
    Commit(m, WordAt(m), EffectOf(m))
  }

  lemma FaultCauses(m: Machine)
    ensures EffectOf(m).Fault? ==> EffectOf(m).cause in {0, 1, 2, 5, 7}
  {
    hide Exec, Decode, OpOf, BusRead;
    match Fetch(m)
    case NoWord(_, _) =>
    case GotWord(w, bus) => ExecFaultCauses(m.(bus := bus), Decode(w));
  }

  lemma ExecFaultCauses(m: Machine, di: Decoded)
    ensures Exec(m, di).Fault? ==> Exec(m, di).cause in {0, 2, 5, 7}
  {
    hide Exec, Alu, BusRead, BusWrite, CsrGet, CsrPut, CsrResult, CsrOperand, MretStatus, Taken, Extend, Truncate;
    hide IsAlu, IsBranch, IsLoad, IsStore, IsCsr;
    if IsAlu(di.op) {
      ExecAlu(m, di);
    } else if di.op == JAL || di.op == JALR {
      ExecIsJump(m, di);
    } else if IsBranch(di.op) {
      ExecIsBranch(m, di);
    } else if IsLoad(di.op) {
      ExecIsLoad(m, di);
    } else if IsStore(di.op) {
      ExecIsStore(m, di);
    } else if IsCsr(di.op) {
      ExecIsCsr(m, di);
    } else {
      OtherOps(di.op);
      ExecIsOther(m, di);
    }
  }

  function Next(m: Machine): Machine {
    Step(m).0
  }

  /** The state after n steps. */
  function Run(m: Machine, n: nat): Machine
    decreases n
  {
    hide Next;
    if n == 0 then m else Run(Next(m), n - 1)
  }
}
