/** One-word programs on which the code departs from the standard or from its own comments. */
module Examples {
  import opened Words
  import opened Instructions
  import opened Encoding
  import opened Platform
  import opened Isa
  import opened Traps
  import opened CsrLaws
  import opened Emulation
  import opened EmulatorRuns
  import opened EmulatorReplay
  import opened Syscalls
  import opened Replay

  const ZEROS: Registers := seq(32, i => 0)
  const RESET: CsrFile := CsrFile(0, 0, 0, 0, 0, 0)

  /** A machine about to execute w from a RAM of one word at address 0, with nothing else on the bus. */
  function Tiny(w: Word, gpr: Registers, csr: CsrFile): Machine {
    Machine(gpr, csr, 0, BusState([Slot(true, 0, 4, 0)], [Ram(0, ToBytes(w, 4))], false, 0))
  }

  lemma TinyFetch(w: Word, gpr: Registers, csr: CsrFile)
    ensures var m := Tiny(w, gpr, csr); Fetch(m) == GotWord(w, m.bus)
    ensures var b := Tiny(w, gpr, csr).bus; forall addr: Word :: addr >= 4 ==> Owner(b, addr) == None
  {
    hide Pow2, ToBytes, LittleEndian;
    var b := Tiny(w, gpr, csr).bus;
    BytesRoundTrip(w, 4);
    Pow2Of32();
    LookupOne(b.slots[0]);
    assert ToBytes(w, 4)[0..4] == ToBytes(w, 4);
  }

  lemma LookupOne(s: Slot)
    ensures forall addr :: Lookup([s], addr) == if Covers(s, addr) then Some(0) else None
  {
    assert [s][1..] == [];
  }

  /**
   * sw x0, 0x100(x0) where nothing answers, in vectored mode: an interrupt cause, no address, and interrupt 7's vector.
   */
  lemma RefusedStore()
    ensures var m := Tiny(0x1000_2023, ZEROS, RESET.(mtvec := 0x41)); var m' := Next(m);
      && StoreRefused(m) && Target(m) == 0x100
      && m'.csr.mcause == 0x8000_0007 && m'.csr.mtval == 0 && m'.pc == 0x40 + 28
  {
    hide OpOf, Decode, Fetch, EffectOf, TrapStatus, Owner, Holds, WordAt;
    var w, m := 0x1000_2023, Tiny(0x1000_2023, ZEROS, RESET.(mtvec := 0x41));
    StoreWord();
    TinyFetch(w, ZEROS, m.csr);
    assert WordAt(m) == w by { FetchedWord(m); }
    assert Target(m) == 0x100 && StoreRefused(m);
    CausesExactly(m);
    FaultCauses(m);
  }

  lemma FetchedWord(m: Machine)
    requires Fetch(m).GotWord?
    ensures WordAt(m) == Fetch(m).w
  {
    hide Fetch;
  }

  lemma StoreWord()
    ensures var w := 0x1000_2023; OpOf(w) == SW && Decode(w).rs1 == 0 && Decode(w).imm == 0x100
  {
    hide OpcodeOf, RdOf, Rs1Of, Rs2Of, Funct3Of, Funct7Of, Funct12Of, OpOf, ImmS, ImmB, ImmI, ImmU, ImmJ;
    var w := 0x1000_2023;
    AssembleFields(0x23, 0, 2, 0, 0, 8);
    RowDecodes(w, SW);
    ImmSOf(w, 0x100);
  }

  lemma CsrWord(w: Word, addr: nat, rs1: Reg, rd: Reg)
    requires addr < 0x1000 && w == Assemble(0x73, rd, 1, rs1, addr % 0x20, addr / 0x20)
    ensures OpOf(w) == CSRRW && Decode(w).rs1 == rs1 && Funct12Of(w) == addr && Decode(w).instruction == w
  {
    hide OpcodeOf, RdOf, Rs1Of, Rs2Of, Funct3Of, Funct7Of, Funct12Of, OpOf, Assemble;
    AssembleFields(0x73, rd, 1, rs1, addr % 0x20, addr / 0x20);
    FieldsOf(w);
    RowDecodes(w, CSRRW);
  }

  /** A CSRRW on a CSR that exists retires and writes the CSR unless its rs1 field is 0. */
  lemma CsrrwStep(m: Machine, w: Word)
    requires Fetch(m) == GotWord(w, m.bus) && OpOf(w) == CSRRW && CsrGet(m.csr, Funct12Of(w)).Some?
    ensures Step(m).1.trap == TRAP_NONE
    ensures var di := Decode(w);
      Next(m).csr == if di.rs1 != 0 then CsrPut(m.csr, Funct12Of(w), m.gpr[di.rs1]) else m.csr
  {
    hide OpOf, Decode, Fetch, Exec, Funct12Of, CsrGet, CsrPut, RecordedWrite;
    DecodeOp(w);
    ExecIsCsr(m, Decode(w));
  }

  /** csrrw x1, mvendorid, x1 retires, although it writes a read-only CSR. */
  lemma IgnoredWrite()
    ensures var w := 0xF110_90F3; var m := Tiny(w, ZEROS, RESET);
      StandardTraps(Decode(w)) && Step(m).1.trap == TRAP_NONE
  {
    hide OpOf, Decode, Fetch, Funct12Of, Step;
    var w, m := 0xF110_90F3, Tiny(0xF110_90F3, ZEROS, RESET);
    TinyFetch(w, ZEROS, RESET);
    CsrWord(w, 0xF11, 1, 1);
    CsrrwStep(m, w);
  }

  /** csrrw x0, mscratch, x0 should clear mscratch and leaves it. */
  lemma UnclearedCsr()
    ensures var w := 0x3400_1073; var m := Tiny(w, ZEROS, RESET.(mscratch := 5));
      && Next(m).csr.mscratch == 5
      && StandardMap(View(m.csr), Decode(w), CsrOperand(Decode(w), m.gpr))[0x340] == 0
  {
    hide OpOf, Decode, Fetch, Funct12Of, Next, Step, StandardMap;
    var w, m := 0x3400_1073, Tiny(0x3400_1073, ZEROS, RESET.(mscratch := 5));
    TinyFetch(w, ZEROS, m.csr);
    CsrWord(w, 0x340, 0, 0);
    CsrrwStep(m, w);
    DecodeOp(w);
    ClearsByStandard(View(m.csr), Decode(w), CsrOperand(Decode(w), m.gpr));
  }

  lemma ClearsByStandard(v: map<nat, Word>, di: Decoded, operand: Word)
    requires di.op == CSRRW && Funct12Of(di.instruction) in v
    ensures StandardMap(v, di, operand)[Funct12Of(di.instruction)] == operand
  {}

  /** csrrw x0, mepc, x1 with x1 = 2 leaves an unaligned mepc. */
  lemma UnalignedMepc()
    ensures var m := Tiny(0x3410_9073, ZEROS[1 := 2], RESET);
      m.csr.mepc % 4 == 0 && Next(m).csr.mepc == 2
  {
    hide OpOf, Decode, Fetch, Funct12Of, Next, Step;
    var w, m := 0x3410_9073, Tiny(0x3410_9073, ZEROS[1 := 2], RESET);
    TinyFetch(w, m.gpr, RESET);
    CsrWord(w, 0x341, 1, 0);
    CsrrwStep(m, w);
  }

  /** A program that is a single exit(0), run with a limit of one step, exits with 0 and is reported with 1. */
  lemma LostExitCode()
    ensures var e := EmuState(Tiny(0x73, ZEROS[17 := 93], RESET), 0, [], []);
      FirstHaltAt(e, 1) && ExitCode(Iterate(e, 1)) == 0 && ExitCode(RunResult(e, 1, 0)) == 1
  {
    var e := EmuState(Tiny(0x73, ZEROS[17 := 93], RESET), 0, [], []);
    EcallWord();
    TinyFetch(0x73, ZEROS[17 := 93], RESET);
    hide OpOf, Fetch, After, RunResult, StoresToHost;
    WhyAStepHalts(e);
    HostOrCall(e.m);
    IterateUnfold(e, 0);
    IterateUnfold(After(e), 0);
    assert FirstHaltAt(e, 1);
    ExitCodeAtLimit(e, 1, 1);
  }

  lemma EcallWord()
    ensures OpOf(0x73) == ECALL
  {
    hide OpcodeOf, RdOf, Rs1Of, Rs2Of, Funct3Of, Funct7Of, OpOf;
    AssembleFields(0x73, 0, 0, 0, 0, 0);
    RowDecodes(0x73, ECALL);
  }

  /** write(1, 0, 0) puts 0 into a0, which its record does not say. */
  lemma UnrecordedResult()
    ensures var e := EmuState(Tiny(0x73, ZEROS[17 := 64][10 := 1], RESET), 0, [], []);
      ReplayOne(MirrorOf(e.m), EmuStep(e).1) != MirrorOf(After(e).m)
  {
    var e := EmuState(Tiny(0x73, ZEROS[17 := 64][10 := 1], RESET), 0, [], []);
    EcallWord();
    TinyFetch(0x73, ZEROS[17 := 64][10 := 1], RESET);
    hide OpOf, Fetch, EmuStep, After, ReplayOne, MirrorOf;
    assert CallsWrite(e) && WriteResult(e) == 0;
    EmuStepReplays(e);
  }
}
