/** src/hart.c: the hart, stepping in place. */
module Harts {
  import opened Words
  import opened Instructions
  import opened Decoder
  import opened Platform
  import opened SystemBus
  import opened Isa
  import opened Execute

  // mstatus by bit operations.

  lemma StatusOnTrap(mstatus: Word)
    ensures var mie := And(Shr(mstatus, 3), 1);
      Or(Or(And(mstatus, Not(0x88)), Shl(mie, 7)), Shl(3, 11)) == TrapStatus(mstatus)
  {
    hide And, Or;
    assert Shr(mstatus, 3) == mstatus / 8 && Pow2(7) == 128 && Pow2(11) == 2048 && Pow2(1) == 2 by { Pow2Table(); }
    AndMask(mstatus / 8, 2, 1);
    ClearBits3And7(mstatus);
    var cleared := mstatus - 8 * Mie(mstatus) - 128 * Mpie(mstatus);
    ClearedBits(mstatus);
    OrBit7(cleared, Mie(mstatus));
    OrBits11And12(cleared + 128 * Mie(mstatus));
  }

  lemma ClearedBits(mstatus: Word)
    ensures var cleared := mstatus - 8 * Mie(mstatus) - 128 * Mpie(mstatus);
      && 0 <= cleared <= mstatus && cleared / 128 % 2 == 0
      && (cleared + 128 * Mie(mstatus)) / 2048 % 4 == Mpp(mstatus)
  {
    DivDiv(mstatus, 8, 2);
    DivDiv(mstatus, 16, 8);
    DivDiv(mstatus, 128, 2);
    DivDiv(mstatus, 256, 8);
    ClearedParts(mstatus, mstatus / 2048, mstatus / 256 % 8, Mpie(mstatus),
                 mstatus / 16 % 8, Mie(mstatus), mstatus % 8);
  }

  lemma ClearedParts(x: nat, h: nat, g: nat, b7: Bit, m: nat, b3: Bit, l: nat)
    requires x == 2048 * h + 256 * g + 128 * b7 + 16 * m + 8 * b3 + l && g < 8 && m < 8 && l < 8
    ensures (x - 8 * b3 - 128 * b7) / 128 % 2 == 0 && (x - 8 * b3 - 128 * b7 + 128 * b3) / 2048 == h
  {
    var cleared := x - 8 * b3 - 128 * b7;
    QuotRem(cleared, 128, 16 * h + 2 * g, 16 * m + l);
    QuotRem(16 * h + 2 * g, 2, 8 * h + g, 0);
    QuotRem(cleared + 128 * b3, 2048, h, 256 * g + 16 * m + l + 128 * b3);
  }

  lemma StatusOnMret(mstatus: Word)
    ensures var mpie := And(Shr(mstatus, 7), 1);
      Or(Or(And(mstatus, Not(8)), Shl(mpie, 3)), Shl(1, 7)) == MretStatus(mstatus)
  {
    hide And, Or;
    assert Shr(mstatus, 7) == mstatus / 128 && Pow2(3) == 8 && Pow2(7) == 128 && Pow2(1) == 2 by { Pow2Table(); }
    AndMask(mstatus / 128, 2, 1);
    ClearBit3(mstatus);
    var cleared := mstatus - 8 * Mie(mstatus);
    var low := mstatus % 8;
    DivDiv(mstatus, 8, 2);
    QuotRem(cleared, 16, mstatus / 16, low);
    OrBit3(cleared, mstatus / 16, low, Mpie(mstatus));
    var restored := cleared + 8 * Mpie(mstatus);
    DivDiv(mstatus, 16, 8);
    QuotRem(restored, 128, mstatus / 128, mstatus / 16 % 8 * 16 + low + 8 * Mpie(mstatus));
    OrBit7(restored, 1);
  }

  lemma OrBit3(x: Word, h: nat, l: nat, b: Bit)
    requires x == 16 * h + l && l < 8
    ensures Or(x, 8 * b) == x + 8 * b
  {
    hide Bitwise, Scale, Pow2;
    Pow2Table();
    ScaleIsMul(h, 1);
    ScaleIsMul(2 * h, 3);
    ScaleIsMul(2 * h + b, 3);
    ScaleIsMul(b, 3);
    OrField(h, 0, l, b, 3, 1, 28);
  }

  lemma AlignDown(x: Word)
    ensures And(x, Not(3)) == x - x % 4 && And(x, 3) == x % 4
  {
    hide And;
    assert Pow2(2) == 4 by { Pow2Table(); }
    AndNotMask(x, 4, 2);
    AndMask(x, 4, 2);
  }

  lemma ClearLowBit(x: Word)
    ensures And(x, Not(1)) == x - x % 2
  {
    hide And;
    assert Pow2(1) == 2 by { Pow2Table(); }
    AndNotMask(x, 2, 1);
  }

  lemma CauseBits(cause: Word)
    requires cause < 0x8000_0000
    ensures Or(0x8000_0000, cause) == 0x8000_0000 + cause && And(cause, 0x7FFF_FFFF) == cause
  {
    hide And, Or;
    assert Pow2(31) == 0x8000_0000 by { Pow2Table(); }
    OrSum(1, cause, 0x8000_0000, 31);
    AndMask(cause, 0x8000_0000, 31);
  }

  ghost predicate IsDecoded(di: Decoded) {
    di == Decode(di.instruction) && di.op == OpOf(di.instruction)
  }

  /** trap_tval */
  function TrapTval(cause: Trap, instruction: Word, memAddr: Word, badPc: Word): Word {
    if cause == TRAP_INSTR_MISALIGNED || cause == TRAP_INSTR_ACCESS_FAULT then badPc
    else if cause == 4 || cause == TRAP_LOAD_ACCESS_FAULT || cause == 6 || cause == TRAP_STORE_ACCESS_FAULT then memAddr
    else if cause == TRAP_ILLEGAL_INSTR then instruction
    else 0
  }

  /** The local variables of hart_step, and the memory part of its retirement record. */
  datatype Pending = Pending(
    trap: Trap, nextPc: Word, memAddr: Word, badPc: Word, load: Option<Access>, store: Option<Access>)

  datatype CsrAction = CSR_RW | CSR_RS | CSR_RC

  class Hart {
    const gpr: array<Word>
    var csr: CsrFile
    var pc: Word
    const bus: Bus

    ghost predicate Valid()
      reads this, bus, bus.Repr
    {
      gpr.Length == 32 && bus.Valid() && this !in bus.Repr && gpr !in bus.Repr
    }

    ghost function State(): Machine
      requires gpr.Length == 32
      reads this, gpr, bus
    {
      Machine(gpr[..], csr, pc, bus.state)
    }

    /** hart_init */
    constructor (bus: Bus, pc: Word)
      requires bus.Valid()
      ensures Valid() && this.bus == bus && fresh(gpr)
      ensures State() == Machine(seq(32, i => 0), CsrFile(0, 0, 0, 0, 0, 0), pc, bus.state)
    {
      gpr := new Word[32](i => 0);
      csr := CsrFile(0, 0, 0, 0, 0, 0);
      this.pc := pc;
      this.bus := bus;
    }

    /** commit_trap: update the CSRs; the result is the trap vector. */
    method CommitTrap(cause: Trap, tval: Word) returns (newPc: Word)
      requires 0 <= cause < 12
      modifies this`csr
      ensures csr == TrapCsr(old(csr), cause, tval, pc)
      ensures newPc == Vector(old(csr.mtvec), cause)
    {
      hide And, Or, Shr, Shl, TrapStatus;
      var isInt := IsInterrupt(cause);
      csr := csr.(mepc := pc);
      csr := csr.(mtval := tval);
      CauseBits(cause);
      csr := csr.(mcause := if isInt then Or(0x8000_0000, cause) else cause);
      StatusOnTrap(csr.mstatus);
      var mie := And(Shr(csr.mstatus, 3), 1);
      csr := csr.(mstatus := Or(And(csr.mstatus, Not(0x88)), Shl(mie, 7)));
      csr := csr.(mstatus := Or(csr.mstatus, Shl(3, 11)));
      AlignDown(csr.mtvec);
      var base := And(csr.mtvec, Not(3));
      var mode := And(csr.mtvec, 3);
      newPc := if mode == 1 && isInt then Wrap(base + And(cause, 0x7FFF_FFFF) * 4) else base;
    }

    /** hart_take_trap */
    method TakeTrap(cause: Trap, tval: Word)
      requires 0 <= cause < 12
      modifies this`csr, this`pc
      ensures csr == TrapCsr(old(csr), cause, tval, old(pc)) && pc == Vector(old(csr.mtvec), cause)
    {
      hide *;
      var newPc := CommitTrap(cause, tval);
      pc := newPc;
    }

    /** How the hart and the locals of hart_step stand for an effect on m, before it is committed. */
    ghost predicate Executed(m: Machine, w: Word, e: Effect, p: Pending)
      requires gpr.Length == 32
      reads this, gpr, bus
    {
      match e
      case Done(gpr', csr', bus', nextPc, load, store) =>
        && p.trap == TRAP_NONE && p.nextPc == nextPc && p.load == load && p.store == store
        && gpr[..][0 := 0] == gpr' && csr == csr' && bus.state == bus' && pc == m.pc
      case Fault(cause, tval, bus') =>
        && p.trap == cause && 0 <= cause < 12 && cause != TRAP_ECALL_M && p.load == None && p.store == None
        && TrapTval(cause, w, p.memAddr, p.badPc) == tval
        && gpr[..] == m.gpr && csr == m.csr && bus.state == bus' && pc == m.pc
      case EnvCall(bus') =>
        && p.trap == TRAP_ECALL_M && p.load == None && p.store == None
        && gpr[..] == m.gpr[0 := 0] && csr == m.csr && bus.state == bus' && pc == Wrap(m.pc + 4)
    }

    /** The locals as hart_step initialises them. */
    function Initial(): Pending
      reads this
    {
      Pending(TRAP_NONE, Wrap(pc + 4), 0, 0, None, None)
    }

    method ExecRegister(di: Decoded) returns (p: Pending)
      requires Valid() && IsDecoded(di) && IsAlu(di.op)
      modifies gpr
      ensures Executed(old(State()), di.instruction, Exec(old(State()), di), p)
    {
      hide Decode, OpOf, ImmediateResult, BaseResult, MulDiv, FormatOf, Exec;
      hide IsImmediateOp, IsBaseOp, IsProduct, IsDivision;
      p := Initial();
      ExecAlu(State(), di);
      var v;
      if IsImmediateOp(di.op) {
        v := UpperAndImmediate(di, gpr[di.rs1], pc);
      } else if IsBaseOp(di.op) {
        v := RegisterRegister(di.op, gpr[di.rs1], gpr[di.rs2]);
      } else if IsProduct(di.op) {
        v := Multiply(di.op, gpr[di.rs1], gpr[di.rs2]);
      } else {
        v := Divide(di.op, gpr[di.rs1], gpr[di.rs2]);
      }
      gpr[di.rd] := v;
    }

    method ExecJal(di: Decoded) returns (p: Pending)
      requires Valid() && IsDecoded(di) && di.op == JAL
      modifies gpr
      ensures Executed(old(State()), di.instruction, Exec(old(State()), di), p)
    {
      hide Decode, OpOf, Sext, And, Exec;
      p := Initial();
      ExecIsJump(State(), di);
      ExtendedJ(di);
      var target := Wrap(pc + Sext(di.imm, 21));
      AlignDown(target);
      if And(target, 3) != 0 {
        p := p.(badPc := target, trap := TRAP_INSTR_MISALIGNED);
        return;
      }
      gpr[di.rd] := Wrap(pc + 4);
      p := p.(nextPc := target);
    }

    method ExecJalr(di: Decoded) returns (p: Pending)
      requires Valid() && IsDecoded(di) && di.op == JALR
      modifies gpr
      ensures Executed(old(State()), di.instruction, Exec(old(State()), di), p)
    {
      hide Decode, OpOf, Sext, And, Exec, Taken;
      p := Initial();
      ExecIsJump(State(), di);
      ExtendedI(di);
      ClearLowBit(Wrap(gpr[di.rs1] + Sext(di.imm, 12)));
      var target := And(Wrap(gpr[di.rs1] + Sext(di.imm, 12)), Not(1));
      AlignDown(target);
      if And(target, 3) != 0 {
        p := p.(badPc := target, trap := TRAP_INSTR_MISALIGNED);
        return;
      }
      gpr[di.rd] := Wrap(pc + 4);
      p := p.(nextPc := target);
    }

    /** exec_branch, with the condition already evaluated. */
    method ExecBranchOn(di: Decoded, cond: bool) returns (p: Pending)
      requires Valid() && IsDecoded(di) && IsBranch(di.op)
      requires cond == Taken(di.op, gpr[di.rs1], gpr[di.rs2])
      ensures Executed(State(), di.instruction, Exec(State(), di), p)
    {
      hide Decode, OpOf, Sext, And, Exec, Taken;
      p := Initial();
      ExecIsBranch(State(), di);
      ExtendedB(di);
      var target := Wrap(pc + Sext(di.imm, 13));
      AlignDown(target);
      if cond && And(target, 3) != 0 {
        p := p.(badPc := target, trap := TRAP_INSTR_MISALIGNED);
        return;
      }
      p := p.(nextPc := if cond then target else Wrap(pc + 4));
    }

    method ExecuteBranch(di: Decoded) returns (p: Pending)
      requires Valid() && IsDecoded(di) && IsBranch(di.op)
      ensures Executed(State(), di.instruction, Exec(State(), di), p)
    {
      hide Decode, OpOf, Exec, Executed;
      var x, y := gpr[di.rs1], gpr[di.rs2];
      match di.op {
        case BEQ => p := ExecBranchOn(di, x == y);
        case BNE => p := ExecBranchOn(di, x != y);
        case BLT => p := ExecBranchOn(di, Signed(x) < Signed(y));
        case BGE => p := ExecBranchOn(di, Signed(x) >= Signed(y));
        case BLTU => p := ExecBranchOn(di, x < y);
        case BGEU => p := ExecBranchOn(di, x >= y);
      }
    }

    /** exec_load */
    method ExecLoadOf(di: Decoded, sizeBits: Size, signExtend: bool) returns (p: Pending)
      requires Valid() && IsDecoded(di) && IsLoad(di.op)
      requires sizeBits == AccessSize(di.op) && signExtend == (di.op == LB || di.op == LH || di.op == LW)
      modifies gpr, bus.Repr
      ensures Valid() && bus.Repr == old(bus.Repr)
      ensures Executed(old(State()), di.instruction, Exec(old(State()), di), p)
    {
      hide Decode, OpOf, Sext, BusRead, Exec, Extend;
      p := Initial();
      ExecIsLoad(State(), di);
      ExtendedI(di);
      var addr := Wrap(gpr[di.rs1] + Sext(di.imm, 12));
      var ok, val := bus.Read(addr, sizeBits);
      if !ok {
        p := p.(trap := TRAP_LOAD_ACCESS_FAULT);
        return;
      }
      ExtendIsSext(di.op, val);
      gpr[di.rd] := if signExtend then Sext(val, sizeBits) else val;
      p := p.(load := Some(Access(addr, gpr[di.rd], sizeBits)));
      p := p.(memAddr := addr);
    }

    method ExecuteLoad(di: Decoded) returns (p: Pending)
      requires Valid() && IsDecoded(di) && IsLoad(di.op)
      modifies gpr, bus.Repr
      ensures Valid() && bus.Repr == old(bus.Repr)
      ensures Executed(old(State()), di.instruction, Exec(old(State()), di), p)
    {
      hide Decode, OpOf, Exec, Executed;
      match di.op {
        case LB => p := ExecLoadOf(di, 8, true);
        case LH => p := ExecLoadOf(di, 16, true);
        case LW => p := ExecLoadOf(di, 32, true);
        case LBU => p := ExecLoadOf(di, 8, false);
        case LHU => p := ExecLoadOf(di, 16, false);
      }
    }

    /** exec_store */
    method ExecStoreOf(di: Decoded, sizeBits: Size, mask: Word) returns (p: Pending)
      requires Valid() && IsDecoded(di) && IsStore(di.op) && sizeBits == AccessSize(di.op)
      requires mask == if di.op == SB then 0xFF else if di.op == SH then 0xFFFF else 0xFFFF_FFFF
      modifies bus.Repr
      ensures Valid() && bus.Repr == old(bus.Repr)
      ensures Executed(old(State()), di.instruction, Exec(old(State()), di), p)
    {
      hide Decode, OpOf, Sext, BusWrite, And, Exec, Truncate;
      p := Initial();
      ExecIsStore(State(), di);
      ExtendedI(di);
      var addr := Wrap(gpr[di.rs1] + Sext(di.imm, 12));
      TruncateIsMask(di.op, gpr[di.rs2]);
      var val := And(gpr[di.rs2], mask);
      var ok := bus.Write(addr, val, sizeBits);
      if !ok {
        p := p.(trap := TRAP_STORE_ACCESS_FAULT);
        return;
      }
      p := p.(store := Some(Access(addr, val, sizeBits)));
      p := p.(memAddr := addr);
    }

    method ExecuteStore(di: Decoded) returns (p: Pending)
      requires Valid() && IsDecoded(di) && IsStore(di.op)
      modifies bus.Repr
      ensures Valid() && bus.Repr == old(bus.Repr)
      ensures Executed(old(State()), di.instruction, Exec(old(State()), di), p)
    {
      hide Decode, OpOf, Exec, Executed;
      match di.op {
        case SB => p := ExecStoreOf(di, 8, 0x0000_00FF);
        case SH => p := ExecStoreOf(di, 16, 0x0000_FFFF);
        case SW => p := ExecStoreOf(di, 32, 0xFFFF_FFFF);
      }
    }

    /** csr_access on the CSR whose value is reg; the caller stores the result back. */
    method CsrAccess(di: Decoded, reg: Word, action: CsrAction, useUimm: bool) returns (newReg: Word)
      requires Valid() && IsCsr(di.op) && ActionOf(di.op) == (action, useUimm)
      modifies gpr
      ensures gpr[..][0 := 0] == SetReg(old(gpr[..]), di.rd, reg)
      ensures newReg == if di.rs1 != 0 then CsrResult(di.op, reg, CsrOperand(di, old(gpr[..]))) else reg
    {
      hide And, Or;
      var operand := if useUimm then di.rs1 else gpr[di.rs1];
      var oldVal := reg;
      var newVal;
      match action {
        case CSR_RW => newVal := operand;
        case CSR_RS => newVal := Or(oldVal, operand);
        case CSR_RC => newVal := And(oldVal, Not(operand));
      }
      if di.rd != 0 {
        gpr[di.rd] := oldVal;
      }
      newReg := if di.rs1 != 0 then newVal else reg;
    }

    /** csr_dispatch */
    method CsrDispatch(di: Decoded, action: CsrAction, useUimm: bool) returns (trap: Trap)
      requires Valid() && IsCsr(di.op) && ActionOf(di.op) == (action, useUimm)
      modifies this`csr, gpr
      ensures var r := CsrGet(old(csr), Funct12Of(di.instruction));
        if r.None? then trap == TRAP_ILLEGAL_INSTR && gpr[..] == old(gpr[..]) && csr == old(csr)
        else
          && trap == TRAP_NONE
          && gpr[..][0 := 0] == SetReg(old(gpr[..]), di.rd, r.value)
          && csr == if di.rs1 != 0
                    then CsrPut(old(csr), Funct12Of(di.instruction),
                                CsrResult(di.op, r.value, CsrOperand(di, old(gpr[..]))))
                    else old(csr)
    {
      hide CsrResult, CsrOperand, Funct12Of;
      var addr := Shr(di.instruction, 20);
      assert addr == Funct12Of(di.instruction) by { CsrNumber(di.instruction); }
      trap := TRAP_NONE;
      if addr == 0xF11 || addr == 0xF12 || addr == 0xF13 || addr == 0xF14 {
        if di.rd != 0 { gpr[di.rd] := 0; }
      } else if addr == 0x301 {
        if di.rd != 0 { gpr[di.rd] := 0x4000_1100; }
      } else if addr == 0x302 || addr == 0x303 || addr == 0x304 || addr == 0x344 || addr == 0x180 || addr == 0x744
                || addr == 0x747 || addr == 0x3A0 || addr == 0x3A1 || addr == 0x3A2 || addr == 0x3A3
                || addr == 0x3B0 || addr == 0x3B1 || addr == 0x3B2 || addr == 0x3B3 {
        if di.rd != 0 { gpr[di.rd] := 0; }
      } else if addr == 0x300 {
        var v := CsrAccess(di, csr.mstatus, action, useUimm);
        csr := csr.(mstatus := v);
      } else if addr == 0x305 {
        var v := CsrAccess(di, csr.mtvec, action, useUimm);
        csr := csr.(mtvec := v);
      } else if addr == 0x340 {
        var v := CsrAccess(di, csr.mscratch, action, useUimm);
        csr := csr.(mscratch := v);
      } else if addr == 0x341 {
        var v := CsrAccess(di, csr.mepc, action, useUimm);
        csr := csr.(mepc := v);
      } else if addr == 0x342 {
        var v := CsrAccess(di, csr.mcause, action, useUimm);
        csr := csr.(mcause := v);
      } else if addr == 0x343 {
        var v := CsrAccess(di, csr.mtval, action, useUimm);
        csr := csr.(mtval := v);
      } else {
        trap := TRAP_ILLEGAL_INSTR;
      }
    }

    method ExecuteCsr(di: Decoded) returns (p: Pending)
      requires Valid() && IsDecoded(di) && IsCsr(di.op)
      modifies this`csr, gpr
      ensures Executed(old(State()), di.instruction, Exec(old(State()), di), p)
    {
      hide Exec, CsrGet, CsrPut, CsrResult, CsrOperand, Funct12Of, Decode, OpOf;
      p := Initial();
      ExecIsCsr(State(), di);
      var trap;
      match di.op {
        case CSRRW => trap := CsrDispatch(di, CSR_RW, false);
        case CSRRS => trap := CsrDispatch(di, CSR_RS, false);
        case CSRRC => trap := CsrDispatch(di, CSR_RC, false);
        case CSRRWI => trap := CsrDispatch(di, CSR_RW, true);
        case CSRRSI => trap := CsrDispatch(di, CSR_RS, true);
        case CSRRCI => trap := CsrDispatch(di, CSR_RC, true);
      }
      p := p.(trap := trap);
    }

    /** The part of MRET that updates mstatus. */
    method RestoreStatus()
      modifies this`csr
      ensures csr == old(csr).(mstatus := MretStatus(old(csr.mstatus)))
    {
      hide And, Or, Shl, Shr, Not, MretStatus;
      StatusOnMret(csr.mstatus);
      var mpie := And(Shr(csr.mstatus, 7), 1);
      csr := csr.(mstatus := Or(And(csr.mstatus, Not(8)), Shl(mpie, 3)));
      csr := csr.(mstatus := Or(csr.mstatus, Shl(1, 7)));
    }

    method ExecuteSystem(di: Decoded) returns (p: Pending)
      requires Valid() && IsDecoded(di)
      requires di.op.FENCE? || di.op.FENCE_I? || di.op.ECALL? || di.op.MRET? || di.op.EBREAK? || di.op.Unknown?
      modifies this`csr, this`pc, gpr
      ensures Executed(old(State()), di.instruction, Exec(old(State()), di), p)
    {
      hide Exec, Decode, OpOf, And, Or, Shl, Shr, MretStatus;
      p := Initial();
      ExecIsOther(State(), di);
      match di.op {
        case FENCE =>
        case FENCE_I =>
        case ECALL =>
          gpr[0] := 0;
          pc := Wrap(pc + 4);
          p := p.(trap := TRAP_ECALL_M);
        case MRET =>
          p := p.(nextPc := csr.mepc);
          RestoreStatus();
        case EBREAK =>
          p := p.(trap := TRAP_ILLEGAL_INSTR);
        case Unknown =>
          p := p.(trap := TRAP_ILLEGAL_INSTR);
      }
    }

    /** The execute switch. */
    method Execute(di: Decoded) returns (p: Pending)
      requires Valid() && IsDecoded(di)
      modifies this`csr, this`pc, gpr, bus.Repr
      ensures Valid() && bus.Repr == old(bus.Repr)
      ensures Executed(old(State()), di.instruction, Exec(old(State()), di), p)
    {
      hide Exec, Executed, Decode, OpOf;
      if IsAlu(di.op) {
        p := ExecRegister(di);
      } else if IsBranch(di.op) {
        p := ExecuteBranch(di);
      } else if IsLoad(di.op) {
        p := ExecuteLoad(di);
      } else if IsStore(di.op) {
        p := ExecuteStore(di);
      } else if IsCsr(di.op) {
        p := ExecuteCsr(di);
      } else if di.op == JAL {
        p := ExecJal(di);
      } else if di.op == JALR {
        p := ExecJalr(di);
      } else {
        p := ExecuteSystem(di);
      }
    }

    /** hart_step. The second result is the record's copy of the decoded instruction. */
    method Step() returns (r: Retire, di: Decoded)
      requires Valid()
      modifies this`csr, this`pc, gpr, bus.Repr
      ensures Valid() && bus.Repr == old(bus.Repr)
      ensures (State(), r) == Isa.Step(old(State()))
      ensures Fetch(old(State())).GotWord? ==> di == Decode(r.instruction)
    {
      hide Executed, Isa.Step, EffectOf, WordAt, Fetch, Decode;
      var start := pc;
      var p, instruction;
      p, instruction, di := FetchAndExecute();
      r := CommitStep(old(State()), start, instruction, di, p);
    }

    /** Steps 1 to 3: fetch, decode, execute. */
    method FetchAndExecute() returns (p: Pending, instruction: Word, di: Decoded)
      requires Valid()
      modifies this`csr, this`pc, gpr, bus.Repr
      ensures Valid() && bus.Repr == old(bus.Repr)
      ensures instruction == WordAt(old(State()))
      ensures Fetch(old(State())).GotWord? ==> di == Decode(instruction)
      ensures Fetch(old(State())).NoWord? ==> di == Blank(0)
      ensures Executed(old(State()), instruction, EffectOf(old(State())), p)
    {
      hide Exec, Decode, OpOf, And, BusRead, ValidWord;
      p := Initial();
      instruction := 0;
      di := Blank(0);
      AlignDown(pc);
      if And(pc, 3) != 0 {
        p := p.(badPc := pc, trap := TRAP_INSTR_MISALIGNED);
        return;
      }
      var ok, w := bus.Read(pc, 32);
      if !ok {
        p := p.(badPc := pc, trap := TRAP_INSTR_ACCESS_FAULT);
        return;
      }
      instruction := w;
      di := RveDecodeInstruction(w);
      DecodeOp(w);
      if !di.valid {
        p := p.(trap := TRAP_ILLEGAL_INSTR);
        return;
      }
      ghost var m := State();
      p := Execute(di);
      if di.op == Unknown { ExecIsOther(m, di); }
    }

    /** Step 4: commit, with the early return for ECALL. */
    method CommitStep(ghost m: Machine, start: Word, instruction: Word, di: Decoded, p: Pending) returns (r: Retire)
      requires Valid() && start == m.pc
      requires instruction == WordAt(m) && Executed(m, instruction, EffectOf(m), p)
      requires Fetch(m).GotWord? ==> di == Decode(instruction)
      requires Fetch(m).NoWord? ==> di == Blank(0)
      modifies this`csr, this`pc, gpr
      ensures Valid() && (State(), r) == Isa.Step(m) && r.instruction == instruction
    {
      hide EffectOf, Fetch, Vector, TrapCsr, Decode;
      FaultCauses(m);
      if p.trap != TRAP_NONE {
        if p.trap == TRAP_ECALL_M {
          return Retire(start, pc, instruction, None, None, None, TRAP_ECALL_M);
        }
        var tv := TrapTval(p.trap, instruction, p.memAddr, p.badPc);
        var vector := CommitTrap(p.trap, tv);
        r := Retire(start, vector, instruction, None, None, None, p.trap);
        gpr[0] := 0;
        pc := vector;
      } else {
        DoneFetched(m);
        var write := None;
        if di.rd != 0 && di.format != FormatS && di.format != FormatB {
          write := Some(RegWrite(di.rd, gpr[di.rd]));
        }
        r := Retire(start, p.nextPc, instruction, write, p.load, p.store, TRAP_NONE);
        gpr[0] := 0;
        pc := p.nextPc;
      }
    }
  }

  function ActionOf(op: Op): (CsrAction, bool) {
    match op
    case CSRRW => (CSR_RW, false) case CSRRS => (CSR_RS, false) case CSRRC => (CSR_RC, false)
    case CSRRWI => (CSR_RW, true) case CSRRSI => (CSR_RS, true) case _ => (CSR_RC, true)
  }

  lemma CsrNumber(w: Word)
    ensures Shr(w, 20) == Funct12Of(w)
  {
    assert Pow2(20) == 0x10_0000 by { Pow2Table(); }
  }

  lemma DoneFetched(m: Machine)
    requires EffectOf(m).Done?
    ensures Fetch(m).GotWord?
  {
    hide OpOf, Exec, Decode;
  }

  lemma ExtendedJ(di: Decoded)
    requires IsDecoded(di) && di.op == JAL
    ensures Sext(di.imm, 21) == di.imm
  {
    hide Decode, OpOf, Sext;
    SecondSextIsIdentity(di.instruction);
  }

  lemma ExtendedB(di: Decoded)
    requires IsDecoded(di) && IsBranch(di.op)
    ensures Sext(di.imm, 13) == di.imm
  {
    hide Decode, OpOf, Sext;
    SecondSextIsIdentity(di.instruction);
  }

  lemma ExtendedI(di: Decoded)
    requires IsDecoded(di) && (di.op == JALR || IsLoad(di.op) || IsStore(di.op))
    ensures Sext(di.imm, 12) == di.imm
  {
    hide Decode, OpOf, Sext;
    SecondSextIsIdentity(di.instruction);
  }

  lemma ExtendIsSext(op: Op, v: Word)
    requires IsLoad(op)
    ensures Extend(op, v) == if op == LB || op == LH || op == LW then Sext(v, AccessSize(op)) else v
  {
    hide Sext, Twos, Wrap, Pow2;
    assert Pow2(8) == 0x100 && Pow2(16) == 0x1_0000 && Pow2(32) == 0x1_0000_0000 by { Pow2Table(); }
    if op == LB {
      SextMeaning(v, 8, 0x100);
    } else if op == LH {
      SextMeaning(v, 16, 0x1_0000);
    } else if op == LW {
      SextMeaning(v, 32, 0x1_0000_0000);
      SextFull(v);
    }
  }

  lemma SextFull(v: Word)
    ensures Wrap(Twos(v, 0x1_0000_0000)) == v
  {}

  lemma TruncateIsMask(op: Op, v: Word)
    requires IsStore(op)
    ensures Truncate(op, v) == And(v, if op == SB then 0xFF else if op == SH then 0xFFFF else 0xFFFF_FFFF)
  {
    hide And, Pow2;
    Pow2Table();
    match op
    case SB => AndMask(v, 0x100, 8);
    case SH => AndMask(v, 0x1_0000, 16);
    case SW => AndMask(v, 0x1_0000_0000, 32);
  }
}
