/** Traps: what they leave alone, where they go, and where this emulator parts from the Privileged Architecture. */
module Traps {
  import opened Words
  import opened Instructions
  import opened Platform
  import opened Isa
  import opened Emulation

  /** The contents of RAM, device by device; other devices are left out. */
  function RamView(b: BusState): seq<DevState> {
    seq(|b.devs|, i requires 0 <= i < |b.devs| => if b.devs[i].Ram? then b.devs[i] else Tohost)
  }

  lemma ReadKeeps(b: BusState, addr: Word, size: Size)
    ensures var b' := BusRead(b, addr, size).0;
      && RamView(b') == RamView(b) && b'.slots == b.slots && b'.halted == b.halted && b'.exitCode == b.exitCode
      && |b'.devs| == |b.devs|
  {
    hide UartRead, RamRead, Lookup;
  }

  /** A step that traps has at most read the bus. */
  lemma TrapKeepsBus(m: Machine)
    requires !EffectOf(m).Done?
    ensures var b' := EffectOf(m).bus;
      && RamView(b') == RamView(m.bus) && b'.slots == m.bus.slots
      && b'.halted == m.bus.halted && b'.exitCode == m.bus.exitCode
  {
    hide BusRead, Exec, Decode, OpOf, RamView;
    ReadKeeps(m.bus, m.pc, 32);
    match Fetch(m)
    case NoWord(_, _) =>
    case GotWord(w, bus) =>
      if OpOf(w) != Unknown { ExecTrapKeepsBus(m.(bus := bus), Decode(w)); }
  }

  lemma ExecTrapKeepsBus(m: Machine, di: Decoded)
    requires !Exec(m, di).Done?
    ensures var b' := Exec(m, di).bus;
      && RamView(b') == RamView(m.bus) && b'.slots == m.bus.slots
      && b'.halted == m.bus.halted && b'.exitCode == m.bus.exitCode
  {
    hide Exec, Alu, BusRead, BusWrite, CsrGet, CsrPut, CsrResult, CsrOperand, MretStatus, Taken;
    hide Extend, Truncate, RamView;
    hide IsAlu, IsBranch, IsLoad, IsStore, IsCsr;
    if IsAlu(di.op) {
      ExecAlu(m, di);
    } else if di.op == JAL || di.op == JALR {
      ExecIsJump(m, di);
    } else if IsBranch(di.op) {
      ExecIsBranch(m, di);
    } else if IsLoad(di.op) {
      ExecIsLoad(m, di);
      ReadKeeps(m.bus, Wrap(m.gpr[di.rs1] + di.imm), AccessSize(di.op));
    } else if IsStore(di.op) {
      ExecIsStore(m, di);
    } else if IsCsr(di.op) {
      ExecIsCsr(m, di);
    } else {
      OtherOps(di.op);
      ExecIsOther(m, di);
    }
  }

  /** mstatus cut at its fields: MPP, MPIE and MIE, with the bits around them. */
  datatype StatusParts = StatusParts(high: nat, mpp: nat, mid: nat, mpie: Bit, low: nat, mie: Bit, rest: nat)

  ghost predicate HasParts(x: Word, p: StatusParts) {
    && p.mpp < 4 && p.mid < 8 && p.low < 8 && p.rest < 8
    && x == 8192 * p.high + 2048 * p.mpp + 256 * p.mid + 128 * p.mpie + 16 * p.low + 8 * p.mie + p.rest
  }

  lemma CutStatus(x: Word) returns (p: StatusParts)
    ensures HasParts(x, p)
  {
    DivDiv(x, 8, 2); DivDiv(x, 16, 8); DivDiv(x, 128, 2); DivDiv(x, 256, 8); DivDiv(x, 2048, 4);
    p := StatusParts(x / 8192, x / 2048 % 4, x / 256 % 8, x / 128 % 2, x / 16 % 8, x / 8 % 2, x % 8);
  }

  lemma FieldsOfParts(x: Word, p: StatusParts)
    requires HasParts(x, p)
    ensures Mie(x) == p.mie && Mpie(x) == p.mpie && Mpp(x) == p.mpp
  {
    hide Mie, Mpie, Mpp, HasParts;
    MieOfParts(x, p);
    MpieOfParts(x, p);
    MppOfParts(x, p);
  }

  lemma MieOfParts(x: Word, p: StatusParts)
    requires HasParts(x, p)
    ensures Mie(x) == p.mie
  {
    var half := 512 * p.high + 128 * p.mpp + 16 * p.mid + 8 * p.mpie + p.low;
    QuotRem(x, 8, 2 * half + p.mie, p.rest);
    QuotRem(2 * half + p.mie, 2, half, p.mie);
  }

  lemma MpieOfParts(x: Word, p: StatusParts)
    requires HasParts(x, p)
    ensures Mpie(x) == p.mpie
  {
    var half := 32 * p.high + 8 * p.mpp + p.mid;
    QuotRem(x, 128, 2 * half + p.mpie, 16 * p.low + 8 * p.mie + p.rest);
    QuotRem(2 * half + p.mpie, 2, half, p.mpie);
  }

  lemma MppOfParts(x: Word, p: StatusParts)
    requires HasParts(x, p)
    ensures Mpp(x) == p.mpp
  {
    QuotRem(x, 2048, 4 * p.high + p.mpp, 256 * p.mid + 128 * p.mpie + 16 * p.low + 8 * p.mie + p.rest);
    QuotRem(4 * p.high + p.mpp, 4, p.high, p.mpp);
  }

  lemma StatusFields(mstatus: Word)
    ensures Mie(TrapStatus(mstatus)) == 0 && Mpie(TrapStatus(mstatus)) == Mie(mstatus) && Mpp(TrapStatus(mstatus)) == 3
  {
    hide Mie, Mpie, Mpp;
    var p := CutStatus(mstatus);
    FieldsOfParts(mstatus, p);
    FieldsOfParts(TrapStatus(mstatus), p.(mpp := 3, mpie := p.mie, mie := 0));
  }

  lemma VectorAligned(mtvec: Word, cause: Trap)
    requires 0 <= cause < 12
    ensures Vector(mtvec, cause) % 4 == 0
  {
    var q := mtvec / 4;
    assert mtvec - mtvec % 4 == 4 * q;
    WrapAligned(q + cause);
  }

  lemma WrapAligned(q: int)
    ensures Wrap(4 * q) % 4 == 0
  {}

  /**
   * A step that reports a trap changes no register (x0 is cleared, as always), no RAM byte and no halt flag, and
   * records no register or memory access. Except for ECALL it saves the faulting pc, masks interrupts and redirects to
   * a 4-aligned vector; ECALL changes no CSR and only steps over itself.
   */
  lemma PreciseTraps(m: Machine)
    requires Step(m).1.trap != TRAP_NONE
    ensures var (m', r) := Step(m);
      && m'.gpr == m.gpr[0 := 0]
      && RamView(m'.bus) == RamView(m.bus) && m'.bus.halted == m.bus.halted
      && r.write == None && r.load == None && r.store == None && r.pc == m.pc && r.nextPc == m'.pc
    ensures var (m', r) := Step(m);
      if r.trap == TRAP_ECALL_M then m'.csr == m.csr && m'.pc == Wrap(m.pc + 4)
      else
        && m'.csr.mepc == m.pc && Mie(m'.csr.mstatus) == 0 && Mpie(m'.csr.mstatus) == Mie(m.csr.mstatus)
        && m'.csr.mtvec == m.csr.mtvec && m'.csr.mscratch == m.csr.mscratch
        && m'.pc % 4 == 0
  {
    hide EffectOf, WordAt, RamView, TrapStatus, Mie, Mpie, Mpp, Vector, RecordedWrite;
    FaultCauses(m);
    TrapKeepsBus(m);
    StatusFields(m.csr.mstatus);
    if EffectOf(m).Fault? {
      VectorAligned(m.csr.mtvec, EffectOf(m).cause);
    }
  }

  // Trap entry and MRET.

  /** mstatus with MPIE and MPP set, as it reads after any trap has been taken and returned from. */
  function Settled(mstatus: Word): Word {
    mstatus - 128 * Mpie(mstatus) - 2048 * Mpp(mstatus) + 128 + 2048 * 3
  }

  lemma StatusRoundTrip(mstatus: Word)
    ensures MretStatus(TrapStatus(mstatus)) == Settled(mstatus)
    ensures Mie(Settled(mstatus)) == Mie(mstatus) && Mpie(Settled(mstatus)) == 1 && Mpp(Settled(mstatus)) == 3
    ensures Settled(Settled(mstatus)) == Settled(mstatus)
  {
    hide Mie, Mpie, Mpp;
    var p := CutStatus(mstatus);
    FieldsOfParts(mstatus, p);
    FieldsOfParts(TrapStatus(mstatus), p.(mpp := 3, mpie := p.mie, mie := 0));
    FieldsOfParts(Settled(mstatus), p.(mpp := 3, mpie := 1));
  }

  predicate AtMret(m: Machine) {
    Fetch(m).GotWord? && OpOf(Fetch(m).w) == MRET
  }

  lemma MretStep(m: Machine)
    requires AtMret(m)
    ensures Next(m) == Machine(m.gpr[0 := 0], m.csr.(mstatus := MretStatus(m.csr.mstatus)), m.csr.mepc, Fetch(m).bus)
  {
    hide Decode, OpOf, Exec, MretStatus, Fetch;
    ExecIsOther(m.(bus := Fetch(m).bus), Decode(Fetch(m).w));
    assert Decode(Fetch(m).w).op == MRET by { DecodeOp(Fetch(m).w); }
  }

  /**
   * Taking an interrupt and returning from a state h that still has the CSRs of trap entry restores the pc, the
   * interrupt enable and every other mstatus bit except MPIE and MPP; a further round trip leaves mstatus as it is.
   */
  lemma TrapThenMret(m: Machine, cause: Trap, h: Machine)
    requires IsInterrupt(cause) && h.csr == RaiseInterrupt(m, cause).csr && AtMret(h)
    ensures var after := Next(h);
      && after.pc == m.pc
      && after.csr.mstatus == Settled(m.csr.mstatus) && Mie(after.csr.mstatus) == Mie(m.csr.mstatus)
      && after.csr.mtvec == m.csr.mtvec && after.csr.mscratch == m.csr.mscratch
      && MretStatus(TrapStatus(after.csr.mstatus)) == after.csr.mstatus
  {
    hide TrapStatus, MretStatus, AtMret, Fetch, Next, Settled, Mie;
    MretStep(h);
    StatusRoundTrip(m.csr.mstatus);
    StatusRoundTrip(Settled(m.csr.mstatus));
  }

  // When a step ends in an access fault or an ECALL, told from the state before it.

  /** No device, a TOHOST, or a RAM that does not hold the whole transfer. */
  predicate RefusesRead(b: BusState, addr: Word, size: Size) {
    match Owner(b, addr)
    case None => true
    case Some(d) =>
      match b.devs[d]
      case Ram(base, bytes) => !Holds(base, |bytes|, addr, size / 8)
      case Uart(_) => false
      case Tohost => true
  }

  /** No device, or a RAM that does not hold the whole transfer. */
  predicate RefusesWrite(b: BusState, addr: Word, size: Size) {
    match Owner(b, addr)
    case None => true
    case Some(d) => b.devs[d].Ram? && !Holds(b.devs[d].base, |b.devs[d].bytes|, addr, size / 8)
  }

  lemma Refusals(b: BusState, addr: Word, data: Word, size: Size)
    ensures BusRead(b, addr, size).1.None? <==> RefusesRead(b, addr, size)
    ensures BusWrite(b, addr, data, size).None? <==> RefusesWrite(b, addr, size)
  {
    hide Owner, UartRead, UartWrite, Holds;
  }

  /** The address that a fetched load or store is aimed at. */
  function Target(m: Machine): Word {
    var di := Decode(WordAt(m));
    Wrap(m.gpr[di.rs1] + di.imm)
  }

  /** The step at m fetches a load that the bus refuses. */
  predicate LoadRefused(m: Machine) {
    && Fetch(m).GotWord? && IsLoad(OpOf(Fetch(m).w))
    && RefusesRead(Fetch(m).bus, Target(m), AccessSize(OpOf(Fetch(m).w)))
  }

  /** The step at m fetches a store that the bus refuses. */
  predicate StoreRefused(m: Machine) {
    && Fetch(m).GotWord? && IsStore(OpOf(Fetch(m).w))
    && RefusesWrite(Fetch(m).bus, Target(m), AccessSize(OpOf(Fetch(m).w)))
  }

  predicate AtEcall(m: Machine) {
    Fetch(m).GotWord? && OpOf(Fetch(m).w) == ECALL
  }

  lemma ExecAccess(m: Machine, di: Decoded)
    requires IsLoad(di.op) || IsStore(di.op)
    ensures var e := Exec(m, di); var addr := Wrap(m.gpr[di.rs1] + di.imm);
      && !e.EnvCall?
      && (e.Fault? <==> if IsLoad(di.op) then RefusesRead(m.bus, addr, AccessSize(di.op))
                        else RefusesWrite(m.bus, addr, AccessSize(di.op)))
      && (e.Fault? ==> e.cause == if IsLoad(di.op) then TRAP_LOAD_ACCESS_FAULT else TRAP_STORE_ACCESS_FAULT)
      && (e.Fault? ==> e.tval == 0)
  {
    hide Exec, BusRead, BusWrite, RefusesRead, RefusesWrite, Extend, Truncate, AccessSize, SetReg, IsLoad, IsStore;
    var addr, data := Wrap(m.gpr[di.rs1] + di.imm), Truncate(di.op, m.gpr[di.rs2]);
    Refusals(m.bus, addr, data, AccessSize(di.op));
    if IsLoad(di.op) {
      ExecIsLoad(m, di);
    } else {
      ExecIsStore(m, di);
    }
  }

  lemma ExecNoAccess(m: Machine, di: Decoded)
    requires !IsLoad(di.op) && !IsStore(di.op)
    ensures var e := Exec(m, di);
      && (e.Fault? ==> e.cause != TRAP_LOAD_ACCESS_FAULT && e.cause != TRAP_STORE_ACCESS_FAULT)
      && (e.EnvCall? <==> di.op == ECALL)
  {
    hide Exec, Alu, CsrGet, CsrPut, CsrResult, CsrOperand, MretStatus, Taken, Funct12Of, SetReg;
    hide IsAlu, IsBranch, IsLoad, IsStore, IsCsr;
    EcallClass();
    if IsAlu(di.op) {
      ExecAlu(m, di);
    } else if di.op == JAL || di.op == JALR {
      ExecIsJump(m, di);
    } else if IsBranch(di.op) {
      ExecIsBranch(m, di);
    } else if IsCsr(di.op) {
      ExecIsCsr(m, di);
    } else {
      OtherOps(di.op);
      ExecIsOther(m, di);
    }
  }

  lemma EcallClass()
    ensures !IsAlu(ECALL) && !IsBranch(ECALL) && !IsLoad(ECALL) && !IsStore(ECALL) && !IsCsr(ECALL)
  {}

  lemma UnknownClass()
    ensures !IsLoad(Unknown) && !IsStore(Unknown)
  {}

  lemma FetchCauses(m: Machine)
    ensures Fetch(m).NoWord? ==> Fetch(m).cause == TRAP_INSTR_MISALIGNED || Fetch(m).cause == TRAP_INSTR_ACCESS_FAULT
  {
    hide BusRead;
  }

  lemma LoadOrStore(op: Op)
    ensures !(IsLoad(op) && IsStore(op))
  {}

  /**
   * A load, store or ECALL trap is reported exactly when the fetched word is a refused load, a refused store or ECALL.
   */
  lemma CausesExactly(m: Machine)
    ensures Step(m).1.trap == TRAP_LOAD_ACCESS_FAULT <==> LoadRefused(m)
    ensures Step(m).1.trap == TRAP_STORE_ACCESS_FAULT <==> StoreRefused(m)
    ensures Step(m).1.trap == TRAP_ECALL_M <==> AtEcall(m)
    ensures LoadRefused(m) || StoreRefused(m) ==> EffectOf(m).Fault? && EffectOf(m).tval == 0
  {
    hide Fetch, Exec, Decode, OpOf, RefusesRead, RefusesWrite, IsLoad, IsStore, TrapCsr, Vector, RecordedWrite;
    FaultCauses(m);
    FetchCauses(m);
    EcallClass();
    UnknownClass();
    if Fetch(m).GotWord? {
      var n, di := m.(bus := Fetch(m).bus), Decode(Fetch(m).w);
      DecodeOp(Fetch(m).w);
      LoadOrStore(di.op);
      if IsLoad(di.op) || IsStore(di.op) { ExecAccess(n, di); } else { ExecNoAccess(n, di); }
    }
  }

  // Departures from the Privileged Architecture and from the code's own comments.

  /** The step reported a trap that is taken by the hart; ECALL is left to the caller. */
  predicate TookException(r: Retire) {
    r.trap != TRAP_NONE && r.trap != TRAP_ECALL_M
  }

  /**
   * The standard has mcause hold an exception's code (section 3.1.15) and every exception go to the base of mtvec
   * (section 3.1.7). That fails for refused stores alone, whose code is also the timer interrupt's, and for the vector
   * only in vectored mode.
   */
  lemma McauseDeparture(m: Machine)
    ensures var (m', r) := Step(m);
      && ((TookException(r) ==> m'.csr.mcause == r.trap) <==> !StoreRefused(m))
      && ((TookException(r) ==> m'.pc == m.csr.mtvec - m.csr.mtvec % 4) <==> !(StoreRefused(m) && m.csr.mtvec % 4 == 1))
  {
    hide EffectOf, WordAt, TrapStatus, StoreRefused, LoadRefused, AtEcall, RecordedWrite;
    FaultCauses(m);
    CausesExactly(m);
  }

  /**
   * Load and store faults are meant to leave the faulting address in mtval. A refused access leaves 0, which is the
   * address exactly when the access is aimed at address 0.
   */
  lemma MtvalDeparture(m: Machine)
    requires LoadRefused(m) || StoreRefused(m)
    ensures Next(m).csr.mtval == Target(m) <==> Target(m) == 0
  {
    hide EffectOf, WordAt, TrapStatus, StoreRefused, LoadRefused, Target;
    FaultCauses(m);
    CausesExactly(m);
  }
}
