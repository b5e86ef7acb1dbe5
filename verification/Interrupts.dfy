/** An interrupt whose handler puts back what it used is invisible to the interrupted program. */
module Interrupts {
  import opened Words
  import opened Instructions
  import opened Platform
  import opened Isa
  import opened Traps
  import opened Replay
  import opened Emulation

  function BlindDev(d: DevState): DevState {
    if d.Uart? then Uart(d.uart.(output := [])) else d
  }

  /** A bus without what the hart can never read back: UART output and the two halt fields. */
  function Blind(b: BusState): BusState {
    b.(devs := seq(|b.devs|, i requires 0 <= i < |b.devs| => BlindDev(b.devs[i])), halted := false, exitCode := 0)
  }

  lemma BlindUpdate(b: BusState, d: nat, x: DevState)
    requires d < |b.devs|
    ensures Blind(b.(devs := b.devs[d := x])) == Blind(b).(devs := Blind(b).devs[d := BlindDev(x)])
  {
    assert Blind(b.(devs := b.devs[d := x])).devs == Blind(b).devs[d := BlindDev(x)];
  }

  lemma BlindRead(b1: BusState, b2: BusState, addr: Word, size: Size)
    requires Blind(b1) == Blind(b2)
    ensures BusRead(b1, addr, size).1 == BusRead(b2, addr, size).1
    ensures Blind(BusRead(b1, addr, size).0) == Blind(BusRead(b2, addr, size).0)
  {
    hide Lookup, RamRead;
    BlindOwner(b1, b2, addr);
    if Owner(b1, addr).Some? {
      var d := Owner(b1, addr).value;
      assert Blind(b1).devs[d] == Blind(b2).devs[d];
      assert BlindDev(b1.devs[d]) == BlindDev(b2.devs[d]);
      if b1.devs[d].Uart? {
        BlindUpdate(b1, d, Uart(UartRead(b1.devs[d].uart, addr).0));
        BlindUpdate(b2, d, Uart(UartRead(b2.devs[d].uart, addr).0));
      }
    }
  }

  lemma BlindWrite(b1: BusState, b2: BusState, addr: Word, data: Word, size: Size)
    requires Blind(b1) == Blind(b2)
    ensures BusWrite(b1, addr, data, size).Some? == BusWrite(b2, addr, data, size).Some?
    ensures BusWrite(b1, addr, data, size).Some?
        ==> Blind(BusWrite(b1, addr, data, size).value) == Blind(BusWrite(b2, addr, data, size).value)
  {
    hide Lookup, RamWrite;
    BlindOwner(b1, b2, addr);
    if Owner(b1, addr).Some? {
      var d := Owner(b1, addr).value;
      assert Blind(b1).devs[d] == Blind(b2).devs[d];
      assert BlindDev(b1.devs[d]) == BlindDev(b2.devs[d]);
      if b1.devs[d].Uart? {
        BlindUpdate(b1, d, Uart(UartWrite(b1.devs[d].uart, addr, data)));
        BlindUpdate(b2, d, Uart(UartWrite(b2.devs[d].uart, addr, data)));
      } else if b1.devs[d].Ram? {
        var w := RamWrite(b1.devs[d].base, b1.devs[d].bytes, addr, data, size);
        if w.Some? {
          BlindUpdate(b1, d, Ram(b1.devs[d].base, w.value));
          BlindUpdate(b2, d, Ram(b1.devs[d].base, w.value));
        }
      }
    }
  }

  lemma BlindOwner(b1: BusState, b2: BusState, addr: Word)
    requires Blind(b1) == Blind(b2)
    ensures b1.slots == b2.slots && |b1.devs| == |b2.devs| && Owner(b1, addr) == Owner(b2, addr)
  {
    hide Lookup;
    assert b1.slots == Blind(b1).slots && |b1.devs| == |Blind(b1).devs|;
    assert b2.slots == Blind(b2).slots && |b2.devs| == |Blind(b2).devs|;
  }

  /** Two machines that a program cannot tell apart until it reads a trap CSR or returns from a trap. */
  ghost predicate Alike(m1: Machine, m2: Machine) {
    m1.gpr == m2.gpr && m1.pc == m2.pc && m1.csr.mtvec == m2.csr.mtvec && Blind(m1.bus) == Blind(m2.bus)
  }

  /** The CSRs that a handler may leave changed: the live ones except mtvec. */
  predicate HandlerCsr(addr: nat) {
    LiveCsr(addr) && addr != 0x305
  }

  /** The step at m executes MRET, or a CSR instruction on a CSR that a handler may leave changed. */
  predicate TouchesHandlerCsr(m: Machine) {
    Fetch(m).GotWord? &&
    var w := Fetch(m).w;
    (IsCsr(OpOf(w)) && HandlerCsr(Funct12Of(w))) || OpOf(w) == MRET
  }

  /** Effects that agree on everything but CSRs and what Blind leaves out. */
  ghost predicate SameEffect(e1: Effect, e2: Effect) {
    match e1
    case Done(gpr, _, bus, nextPc, load, store) =>
      && e2.Done? && e2.gpr == gpr && Blind(e2.bus) == Blind(bus)
      && e2.nextPc == nextPc && e2.load == load && e2.store == store
    case Fault(cause, tval, bus) => e2.Fault? && e2.cause == cause && e2.tval == tval && Blind(e2.bus) == Blind(bus)
    case EnvCall(bus) => e2.EnvCall? && Blind(e2.bus) == Blind(bus)
  }

  lemma FetchAlike(m1: Machine, m2: Machine)
    requires Alike(m1, m2)
    ensures Blind(Fetch(m1).bus) == Blind(Fetch(m2).bus)
    ensures Fetch(m1).GotWord? == Fetch(m2).GotWord?
    ensures Fetch(m1).GotWord? ==> Fetch(m1).w == Fetch(m2).w
    ensures Fetch(m1).NoWord? ==> Fetch(m1).cause == Fetch(m2).cause
  {
    hide Blind, BusRead;
    BlindRead(m1.bus, m2.bus, m1.pc, 32);
  }

  lemma RegisterAlike(m1: Machine, m2: Machine, di: Decoded)
    requires Alike(m1, m2) && IsAlu(di.op)
    ensures SameEffect(Exec(m1, di), Exec(m2, di))
    ensures Exec(m1, di).Done? ==> Exec(m1, di).csr.mtvec == Exec(m2, di).csr.mtvec
  {
    hide Exec, Alu, Blind, IsAlu;
    ExecAlu(m1, di);
    ExecAlu(m2, di);
  }

  lemma JumpAlike(m1: Machine, m2: Machine, di: Decoded)
    requires Alike(m1, m2) && (di.op == JAL || di.op == JALR || IsBranch(di.op))
    ensures SameEffect(Exec(m1, di), Exec(m2, di))
    ensures Exec(m1, di).Done? ==> Exec(m1, di).csr.mtvec == Exec(m2, di).csr.mtvec
  {
    hide Exec, Blind, Taken, IsBranch, Wrap;
    if IsBranch(di.op) {
      ExecIsBranch(m1, di);
      ExecIsBranch(m2, di);
    } else if di.op == JAL {
      ExecIsJump(m1, di);
      ExecIsJump(m2, di);
    } else {
      ExecIsJump(m1, di);
      ExecIsJump(m2, di);
    }
  }

  lemma MemoryAlike(m1: Machine, m2: Machine, di: Decoded)
    requires Alike(m1, m2) && (IsLoad(di.op) || IsStore(di.op))
    ensures SameEffect(Exec(m1, di), Exec(m2, di))
    ensures Exec(m1, di).Done? ==> Exec(m1, di).csr.mtvec == Exec(m2, di).csr.mtvec
  {
    hide Exec, BusRead, BusWrite, Blind, Extend, Truncate;
    var addr := Wrap(m1.gpr[di.rs1] + di.imm);
    if IsLoad(di.op) {
      ExecIsLoad(m1, di);
      ExecIsLoad(m2, di);
      BlindRead(m1.bus, m2.bus, addr, AccessSize(di.op));
    } else {
      ExecIsStore(m1, di);
      ExecIsStore(m2, di);
      BlindWrite(m1.bus, m2.bus, addr, Truncate(di.op, m1.gpr[di.rs2]), AccessSize(di.op));
    }
  }

  lemma CsrAlike(m1: Machine, m2: Machine, di: Decoded)
    requires Alike(m1, m2) && IsCsr(di.op) && !HandlerCsr(Funct12Of(di.instruction))
    ensures SameEffect(Exec(m1, di), Exec(m2, di))
    ensures Exec(m1, di).Done? ==> Exec(m1, di).csr.mtvec == Exec(m2, di).csr.mtvec
  {
    hide Exec, Blind, CsrGet, CsrPut, CsrResult, IsCsr, HandlerCsr, Funct12Of;
    ExecIsCsr(m1, di);
    ExecIsCsr(m2, di);
    var addr := Funct12Of(di.instruction);
    GetAlike(m1.csr, m2.csr, addr);
    if CsrGet(m1.csr, addr).Some? {
      PutAlike(m1.csr, m2.csr, addr, CsrResult(di.op, CsrGet(m1.csr, addr).value, CsrOperand(di, m1.gpr)));
    }
  }

  lemma GetAlike(c1: CsrFile, c2: CsrFile, addr: nat)
    requires c1.mtvec == c2.mtvec && !HandlerCsr(addr)
    ensures CsrGet(c1, addr) == CsrGet(c2, addr)
  {}

  lemma PutAlike(c1: CsrFile, c2: CsrFile, addr: nat, value: Word)
    requires c1.mtvec == c2.mtvec && !HandlerCsr(addr)
    ensures CsrPut(c1, addr, value).mtvec == CsrPut(c2, addr, value).mtvec
  {}

  lemma ExecAlike(m1: Machine, m2: Machine, di: Decoded)
    requires Alike(m1, m2) && !(IsCsr(di.op) && HandlerCsr(Funct12Of(di.instruction))) && di.op != MRET
    ensures SameEffect(Exec(m1, di), Exec(m2, di))
    ensures Exec(m1, di).Done? ==> Exec(m1, di).csr.mtvec == Exec(m2, di).csr.mtvec
  {
    hide Exec, Blind, HandlerCsr, Funct12Of;
    if IsAlu(di.op) {
      RegisterAlike(m1, m2, di);
    } else if di.op == JAL || di.op == JALR || IsBranch(di.op) {
      JumpAlike(m1, m2, di);
    } else if IsLoad(di.op) || IsStore(di.op) {
      MemoryAlike(m1, m2, di);
    } else if IsCsr(di.op) {
      CsrAlike(m1, m2, di);
    } else {
      ExecIsOther(m1, di);
      ExecIsOther(m2, di);
    }
  }

  /** Alike machines step alike and produce the same retirement record. */
  lemma StepAlike(m1: Machine, m2: Machine)
    requires Alike(m1, m2) && !TouchesHandlerCsr(m1)
    ensures Alike(Next(m1), Next(m2)) && Step(m1).1 == Step(m2).1 && TouchesHandlerCsr(m1) == TouchesHandlerCsr(m2)
  {
    hide Fetch, Exec, Decode, OpOf, Blind, TrapStatus, Vector, RecordedWrite, HandlerCsr, Funct12Of;
    FetchAlike(m1, m2);
    FaultCauses(m1);
    FaultCauses(m2);
    if Fetch(m1).GotWord? && OpOf(Fetch(m1).w) != Unknown {
      var w := Fetch(m1).w;
      DecodeOp(w);
      ExecAlike(m1.(bus := Fetch(m1).bus), m2.(bus := Fetch(m2).bus), Decode(w));
    }
  }

  /** None of the n steps from m executes MRET or a CSR instruction on a CSR that a handler may leave changed. */
  predicate NoHandlerCsr(m: Machine, n: nat)
    decreases n
  {
    hide Next;
    n == 0 || (!TouchesHandlerCsr(m) && NoHandlerCsr(Next(m), n - 1))
  }

  lemma {:induction false} RunAlike(m1: Machine, m2: Machine, n: nat)
    requires Alike(m1, m2) && NoHandlerCsr(m1, n)
    ensures Alike(Run(m1, n), Run(m2, n)) && Records(m1, n) == Records(m2, n)
    decreases n
  {
    hide Next, Step, Alike, TouchesHandlerCsr;
    if n > 0 {
      StepAlike(m1, m2);
      RunAlike(Next(m1), Next(m2), n - 1);
    }
  }

  /**
   * A handler from interrupt entry at h0 that is at its MRET after k steps, having put back the registers, the devices
   * (up to UART output and the halt fields) and the CSRs it found.
   */
  ghost predicate Restores(m: Machine, cause: Trap, k: nat) {
    var h := Run(RaiseInterrupt(m, cause), k);
    && AtMret(h)
    && h.gpr == m.gpr && Blind(Fetch(h).bus) == Blind(m.bus)
    && h.csr.mepc == m.pc && h.csr.mtvec == m.csr.mtvec
  }

  /**
   * If an interrupt is taken and its handler restores and returns, then n further steps lead to the registers, pc, RAM
   * and UART input that n steps of the uninterrupted program lead to, as long as those execute no MRET and access no
   * live CSR other than mtvec; the retirement records along the way are the same as well.
   */
  lemma InterruptIsTransparent(m: Machine, cause: Trap, k: nat, n: nat)
    requires m.gpr[0] == 0 && IsInterrupt(cause) && Restores(m, cause, k) && NoHandlerCsr(m, n)
    ensures Alike(Run(m, n), Run(RaiseInterrupt(m, cause), k + 1 + n))
    ensures Records(m, n) == Records(Run(RaiseInterrupt(m, cause), k + 1), n)
  {
    hide Next, TrapStatus, MretStatus, AtMret, Fetch, Blind, RaiseInterrupt, NoHandlerCsr, Run, Records;
    var start := RaiseInterrupt(m, cause);
    var h := Run(start, k);
    MretStep(h);
    assert m.gpr[0 := 0] == m.gpr;
    assert Alike(m, Next(h));
    RunAlike(m, Next(h), n);
    RunAdd(start, k, 1 + n);
    RunNext(h, n);
    RunAdd(start, k, 1);
    RunNext(h, 0);
    RunZero(Next(h));
  }

  lemma RunNext(m: Machine, n: nat)
    ensures Run(m, 1 + n) == Run(Next(m), n)
  {
    hide Next;
  }

  lemma {:induction false} RunAdd(m: Machine, k: nat, n: nat)
    ensures Run(m, k + n) == Run(Run(m, k), n)
    decreases k
  {
    hide Next;
    if k > 0 {
      RunAdd(Next(m), k - 1, n);
    }
  }

  /** With the entry CSRs intact at the MRET, the interrupt enable and the rest of mstatus come back too. */
  lemma InterruptRestoresStatus(m: Machine, cause: Trap, k: nat)
    requires IsInterrupt(cause) && Restores(m, cause, k)
    requires Run(RaiseInterrupt(m, cause), k).csr.mstatus == TrapStatus(m.csr.mstatus)
    ensures var after := Run(RaiseInterrupt(m, cause), k + 1);
      after.pc == m.pc && after.csr.mstatus == Settled(m.csr.mstatus) && Mie(after.csr.mstatus) == Mie(m.csr.mstatus)
  {
    hide Next, TrapStatus, MretStatus, AtMret, Fetch, Blind, RaiseInterrupt, Run, Settled, Mie;
    var start := RaiseInterrupt(m, cause);
    var h := Run(start, k);
    MretStep(h);
    RunAdd(start, k, 1);
    RunNext(h, 0);
    assert Run(Next(h), 0) == Next(h) by { RunZero(Next(h)); }
    StatusRoundTrip(m.csr.mstatus);
  }

  /** The smallest such handler is a lone MRET in memory that reading does not change. */
  lemma LoneMretRestores(m: Machine, cause: Trap)
    requires IsInterrupt(cause)
    requires var h := RaiseInterrupt(m, cause); AtMret(h) && Fetch(h).bus == m.bus
    ensures Restores(m, cause, 0)
  {
    hide Fetch, Blind, AtMret, TrapStatus, Vector;
    RunZero(RaiseInterrupt(m, cause));
  }

  lemma RunZero(m: Machine)
    ensures Run(m, 0) == m
  {}
}
