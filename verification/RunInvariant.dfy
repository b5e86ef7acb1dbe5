/** What holds at every step boundary of an emulation, interrupts and system calls included. */
module RunInvariant {
  import opened Words
  import opened Instructions
  import opened Platform
  import opened Isa
  import opened Traps
  import opened Emulation

  /** What can happen between two observations: a step of the emulator or an interrupt raised from outside. */
  datatype Event = Tick | Irq(cause: Trap)

  function Happen(e: EmuState, event: Event): EmuState {
    match event
    case Tick => After(e)
    case Irq(cause) => e.(m := RaiseInterrupt(e.m, cause))
  }

  function Happens(e: EmuState, events: seq<Event>): EmuState
    decreases |events|
  {
    hide Happen;
    if events == [] then e else Happen(Happens(e, events[..|events| - 1]), events[|events| - 1])
  }

  lemma AlignedPlus4(pc: Word)
    requires pc % 4 == 0
    ensures Wrap(pc + 4) % 4 == 0
  {}

  /** Control transfer within a step leaves the pc aligned, except for an MRET to an unaligned mepc. */
  lemma ExecPc(m: Machine, di: Decoded)
    requires m.pc % 4 == 0
    ensures Exec(m, di).Done? ==> (Exec(m, di).nextPc % 4 != 0 <==> di.op == MRET && m.csr.mepc % 4 != 0)
    ensures Exec(m, di).Done? ==> Exec(m, di).gpr[0] == 0
  {
    hide Exec, Alu, BusRead, BusWrite, CsrGet, CsrPut, CsrResult, CsrOperand, MretStatus, Taken, Extend, Truncate, Wrap;
    hide IsAlu, IsBranch, IsLoad, IsStore, IsCsr;
    AlignedPlus4(m.pc);
    MretClass();
    if IsAlu(di.op) {
      ExecAlu(m, di);
    } else if di.op == JAL || di.op == JALR {
      ExecIsJump(m, di);
    } else if IsBranch(di.op) {
      ExecIsBranch(m, di);
    } else if IsLoad(di.op) {
      ExecIsLoad(m, di);
    } else if IsStore(di.op) {
      ExecIsStore(m, di);
    } else if IsCsr(di.op) {
      ExecIsCsr(m, di);
    } else {
      OtherOps(di.op);
      ExecIsOther(m, di);
    }
  }

  lemma MretClass()
    ensures !IsAlu(MRET) && !IsBranch(MRET) && !IsLoad(MRET) && !IsStore(MRET) && !IsCsr(MRET)
  {}

  /** After any step x0 is 0, and the pc is unaligned exactly when the step was an MRET to an unaligned mepc. */
  lemma StepBoundary(m: Machine)
    ensures Next(m).gpr[0] == 0
    ensures Next(m).pc % 4 != 0 <==> AtMret(m) && m.csr.mepc % 4 != 0
  {
    hide Fetch, Exec, Decode, OpOf, Vector, TrapStatus, RecordedWrite;
    FaultCauses(m);
    FetchedAligned(m);
    if EffectOf(m).Fault? {
      VectorAligned(m.csr.mtvec, EffectOf(m).cause);
    }
    if Fetch(m).GotWord? && OpOf(Fetch(m).w) != Unknown {
      DecodeOp(Fetch(m).w);
      ExecPc(m.(bus := Fetch(m).bus), Decode(Fetch(m).w));
      AlignedPlus4(m.pc);
      if OpOf(Fetch(m).w) == MRET { MretCompletes(m.(bus := Fetch(m).bus), Decode(Fetch(m).w)); }
    }
  }

  lemma FetchedAligned(m: Machine)
    ensures Fetch(m).GotWord? ==> m.pc % 4 == 0
  {
    hide BusRead;
  }

  lemma MretCompletes(m: Machine, di: Decoded)
    requires di.op == MRET
    ensures Exec(m, di).Done?
  {
    hide Exec, MretStatus;
    ExecIsOther(m, di);
  }

  /** The syscall handler touches register 10 only, and neither pc nor CSRs. */
  lemma SyscallKeeps(e: EmuState)
    ensures var (e', _) := Syscall(e);
      e'.m.pc == e.m.pc && e'.m.csr == e.m.csr && e'.m.gpr[0] == e.m.gpr[0]
  {
    hide Emit;
  }

  /** The emulator is about to execute an MRET to an unaligned address. */
  predicate UnalignedReturn(e: EmuState) {
    !Halted(e) && AtMret(e.m) && e.m.csr.mepc % 4 != 0
  }

  lemma TickBoundary(e: EmuState)
    ensures After(e).m.gpr[0] == (if Halted(e) then e.m.gpr[0] else 0)
    ensures !Halted(e) ==> (After(e).m.pc % 4 != 0 <==> UnalignedReturn(e))
  {
    hide Step, AtMret, Syscall;
    StepBoundary(e.m);
    NextIsStep(e.m);
    SyscallKeeps(e.(m := Next(e.m), cycleCount := (e.cycleCount + 1) % U64));
  }

  lemma NextIsStep(m: Machine)
    ensures Next(m) == Step(m).0
  {}

  lemma IrqBoundary(m: Machine, cause: Trap)
    ensures var m' := RaiseInterrupt(m, cause);
      m'.gpr == m.gpr && m'.bus == m.bus && (IsInterrupt(cause) ==> m'.pc % 4 == 0) && (!IsInterrupt(cause) ==> m' == m)
  {
    hide TrapStatus, Vector;
    if IsInterrupt(cause) { VectorAligned(m.csr.mtvec, cause); }
  }

  /** The last event that did anything was the execution of an MRET to an unaligned address. */
  predicate JustReturned(e0: EmuState, events: seq<Event>)
    decreases |events|
  {
    hide Happens, UnalignedReturn;
    events != [] &&
    var before := events[..|events| - 1];
    match events[|events| - 1]
    case Tick => UnalignedReturn(Happens(e0, before))
    case Irq(cause) => !IsInterrupt(cause) && JustReturned(e0, before)
  }

  lemma ReturnIsNotHalted(e: EmuState)
    requires UnalignedReturn(e)
    ensures !Halted(After(e))
  {
    hide AtMret, Fetch, MretStatus, Decode, OpOf, Exec, BusRead, Emit;
    MretStep(e.m);
    NextIsStep(e.m);
    ReadKeeps(e.m.bus, e.m.pc, 32);
    MretFetch(e.m);
  }

  lemma MretFetch(m: Machine)
    requires AtMret(m)
    ensures Fetch(m).bus == BusRead(m.bus, m.pc, 32).0 && Step(m).1.trap == TRAP_NONE
  {
    hide OpOf, Decode, Exec, BusRead, MretStatus, RecordedWrite;
    DecodeOp(Fetch(m).w);
    ExecIsOther(m.(bus := Fetch(m).bus), Decode(Fetch(m).w));
  }

  /**
   * From a running, aligned start with x0 = 0, through any sequence of emulator steps (system calls and halting
   * included) and interrupts: x0 is 0 at every boundary, and the pc is unaligned exactly right after an MRET to an
   * unaligned mepc.
   */
  lemma {:induction false} RunInvariant(e0: EmuState, events: seq<Event>)
    requires e0.m.gpr[0] == 0 && e0.m.pc % 4 == 0
    ensures var e := Happens(e0, events);
      && e.m.gpr[0] == 0
      && (e.m.pc % 4 != 0 <==> JustReturned(e0, events))
      && (e.m.pc % 4 != 0 ==> !Halted(e))
    decreases |events|
  {
    hide After, RaiseInterrupt, UnalignedReturn;
    if events != [] {
      var before := events[..|events| - 1];
      RunInvariant(e0, before);
      var e := Happens(e0, before);
      match events[|events| - 1]
      case Tick =>
        TickBoundary(e);
        if Halted(e) { HaltedStays(e); }
        if UnalignedReturn(e) { ReturnIsNotHalted(e); ReturnRuns(e); }
      case Irq(cause) => IrqBoundary(e.m, cause);
    }
  }

  lemma HaltedStays(e: EmuState)
    requires Halted(e)
    ensures After(e) == e
  {
    hide Step;
  }

  lemma ReturnRuns(e: EmuState)
    requires UnalignedReturn(e)
    ensures !Halted(e)
  {}

  /** A step from an unaligned pc is an instruction-address-misaligned trap, so the next pc is aligned again. */
  lemma UnalignedPcTraps(m: Machine)
    requires m.pc % 4 != 0
    ensures var (m', r) := Step(m);
      && r.trap == TRAP_INSTR_MISALIGNED && m'.pc % 4 == 0
      && m'.csr.mepc == m.pc && m'.csr.mtval == m.pc && m'.csr.mcause == 0 && m'.bus == m.bus
  {
    hide Vector, TrapStatus;
    VectorAligned(m.csr.mtvec, TRAP_INSTR_MISALIGNED);
  }
}
