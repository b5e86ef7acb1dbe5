/** What traps and MRET do to the bits of mstatus, and what a raised interrupt leaves in the CSRs and the pc. */
module TrapEntry {
  import opened Words
  import opened Bits
  import opened Instructions
  import opened Platform
  import opened Isa
  import opened Traps
  import opened Harts
  import opened Emulation

  /** Bit k of mstatus after a trap: MIE is 0, MPIE is the old MIE, MPP is machine mode, and the others stay. */
  function EntryBit(was: Word, k: nat): Bit {
    if k == 3 then 0 else if k == 7 then BitAt(was, 3) else if k == 11 || k == 12 then 1 else BitAt(was, k)
  }

  /** Bit k of mstatus after MRET: MIE is the old MPIE, MPIE is 1, and the others stay. */
  function ReturnBit(was: Word, k: nat): Bit {
    if k == 3 then BitAt(was, 7) else if k == 7 then 1 else BitAt(was, k)
  }

  ghost predicate EntryStatus(was: Word, now: Word) {
    forall k: nat :: k < 32 ==> BitAt(now, k) == EntryBit(was, k)
  }

  ghost predicate ReturnStatus(was: Word, now: Word) {
    forall k: nat :: k < 32 ==> BitAt(now, k) == ReturnBit(was, k)
  }

  lemma EntryBits(mstatus: Word)
    ensures EntryStatus(mstatus, TrapStatus(mstatus))
  {
    hide And, Or, Not, Shl, Shr, BitAt, TrapStatus, Xor;
    StatusOnTrap(mstatus);
    var mie := And(Shr(mstatus, 3), 1);
    forall k: nat | k < 32
      ensures BitAt(TrapStatus(mstatus), k) == EntryBit(mstatus, k)
    {
      var kept := And(mstatus, Not(0x88));
      WordBits(Or(kept, Shl(mie, 7)), Shl(3, 11), k);
      WordBits(kept, Shl(mie, 7), k);
      WordBits(mstatus, Not(0x88), k);
      WordBits(0x88, 0x88, k);
      MovedBit(mstatus, 3, 7, k);
      ConstantBits(k);
    }
  }

  lemma ReturnBits(mstatus: Word)
    ensures ReturnStatus(mstatus, MretStatus(mstatus))
  {
    hide And, Or, Not, Shl, Shr, BitAt, MretStatus, Xor;
    StatusOnMret(mstatus);
    var mpie := And(Shr(mstatus, 7), 1);
    forall k: nat | k < 32
      ensures BitAt(MretStatus(mstatus), k) == ReturnBit(mstatus, k)
    {
      var kept := And(mstatus, Not(8));
      WordBits(Or(kept, Shl(mpie, 3)), Shl(1, 7), k);
      WordBits(kept, Shl(mpie, 3), k);
      WordBits(mstatus, Not(8), k);
      WordBits(8, 8, k);
      MovedBit(mstatus, 7, 3, k);
      ConstantBits(k);
    }
  }

  /** Bit i of x moved to bit j of an otherwise zero word. */
  lemma MovedBit(x: Word, i: nat, j: nat, k: nat)
    requires i < 32 && j < 32 && k < 32
    ensures BitAt(Shl(And(Shr(x, i), 1), j), k) == if k == j then BitAt(x, i) else 0
  {
    hide Pow2, BitAt, And;
    LeftBit(And(Shr(x, i), 1), j, k);
    if k >= j {
      WordBits(Shr(x, i), 1, k - j);
      BitOfQuotient(x, i, 0);
      BitOfOne(k - j);
    }
  }

  lemma BitOfOne(k: nat)
    ensures BitAt(1, k) == if k == 0 then 1 else 0
  {
    assert Pow2(1) == 2 by { Pow2Table(); }
    if k > 0 { NoHighBits(1, 1, k); }
  }

  lemma ConstantBits(k: nat)
    requires k < 32
    ensures BitAt(8, k) == (if k == 3 then 1 else 0) && BitAt(0x88, k) == (if k == 3 || k == 7 then 1 else 0)
    ensures BitAt(Shl(1, 7), k) == if k == 7 then 1 else 0
    ensures BitAt(Shl(3, 11), k) == if k == 11 || k == 12 then 1 else 0
  {
    hide Pow2, BitAt;
    Pow2Table();
    LeftBit(1, 3, k);
    LeftBit(0x11, 3, k);
    LeftBit(1, 7, k);
    LeftBit(3, 11, k);
    if k >= 3 { BitOfOne(k - 3); SmallBits(k - 3); }
    if k >= 7 { BitOfOne(k - 7); }
    if k >= 11 { SmallBits(k - 11); }
  }

  lemma SmallBits(k: nat)
    ensures BitAt(3, k) == (if k < 2 then 1 else 0) && BitAt(0x11, k) == if k == 0 || k == 4 then 1 else 0
  {
    assert BitAt(3, 0) == 1;
    if k >= 1 { BitOfOne(k - 1); }
    if k >= 4 { BitOfOne(k - 4); }
    assert k == 2 ==> BitAt(0x11, 2) == BitAt(4, 0);
    assert k == 3 ==> BitAt(0x11, 3) == BitAt(4, 1) == BitAt(2, 0);
    assert k >= 4 ==> BitAt(0x11, k) == BitAt(8, k - 1) == BitAt(4, k - 2) == BitAt(2, k - 3) == BitAt(1, k - 4);
  }

  /** An exception leaves these bits in mstatus; a step that executes MRET leaves those. */
  lemma StatusOfSteps(m: Machine)
    ensures TookException(Step(m).1) ==> EntryStatus(m.csr.mstatus, Next(m).csr.mstatus)
    ensures AtMret(m) ==> ReturnStatus(m.csr.mstatus, Next(m).csr.mstatus)
  {
    hide EffectOf, WordAt, Vector, TrapStatus, MretStatus, EntryStatus, ReturnStatus, AtMret, RecordedWrite;
    FaultCauses(m);
    EntryBits(m.csr.mstatus);
    ReturnBits(m.csr.mstatus);
    if AtMret(m) { MretStep(m); }
  }

  /**
   * soc_raise_interrupt with software, timer or external cause saves the pc in mepc, clears mtval, sets mcause to the
   * cause with bit 31 and mstatus as at any trap, and goes to the base of mtvec, or to the cause's entry in vectored
   * mode. It changes nothing else, and with any other cause nothing at all.
   */
  lemma RaisedInterrupt(m: Machine, cause: Trap)
    ensures var m' := RaiseInterrupt(m, cause); var base := m.csr.mtvec / 4 * 4;
      if cause == 3 || cause == 7 || cause == 11 then
        && m'.csr.mepc == m.pc && m'.csr.mtval == 0 && m'.csr.mcause == 0x8000_0000 + cause
        && EntryStatus(m.csr.mstatus, m'.csr.mstatus)
        && m'.pc == (if m.csr.mtvec == base + 1 then Wrap(base + 4 * cause) else base)
        && m'.csr.mtvec == m.csr.mtvec && m'.csr.mscratch == m.csr.mscratch && m'.gpr == m.gpr && m'.bus == m.bus
      else m' == m
  {
    hide EntryStatus, TrapStatus;
    EntryBits(m.csr.mstatus);
  }

  /** A fetch from an aligned pc fails exactly where the bus refuses to read a word; mtval is then the pc. */
  lemma FetchFault(m: Machine)
    ensures Step(m).1.trap == TRAP_INSTR_ACCESS_FAULT <==> m.pc % 4 == 0 && RefusesRead(m.bus, m.pc, 32)
    ensures Step(m).1.trap == TRAP_INSTR_ACCESS_FAULT ==>
      Next(m).csr.mtval == m.pc && Next(m).csr.mcause == 1 && Next(m).csr.mepc == m.pc
  {
    hide BusRead, Exec, Decode, OpOf, RefusesRead, RecordedWrite, Vector, TrapStatus;
    FaultCauses(m);
    Refusals(m.bus, m.pc, 0, 32);
    match Fetch(m)
    case NoWord(_, _) =>
    case GotWord(w, bus) => ExecFaultCauses(m.(bus := bus), Decode(w));
  }
}
