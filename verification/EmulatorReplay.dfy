/** The records that emulator_step returns, as a log to replay: they leave out what a write call does to a0. */
module EmulatorReplay {
  import opened Words
  import opened Platform
  import opened Isa
  import opened Traps
  import opened Emulation
  import opened Replay
  import opened Syscalls
  import opened EmulatorRuns

  /** What a write call puts into a0. */
  function WriteResult(e: EmuState): Word {
    if e.m.gpr[10] == 1 || e.m.gpr[10] == 2 then |Emit(Fetch(e.m).bus, e.m.gpr[11], e.m.gpr[12]).0| else 0xFFFF_FFFF
  }

  lemma WriteReplays(e: EmuState)
    requires CallsWrite(e) && e.m.gpr[0] == 0
    ensures MirrorOf(After(e).m) == ReplayOne(MirrorOf(e.m), EmuStep(e).1).(gpr := e.m.gpr[10 := WriteResult(e)])
    ensures ReplayOne(MirrorOf(e.m), EmuStep(e).1).gpr == e.m.gpr && After(e).m.gpr[0] == 0
  {
    hide Fetch, AtEcall, Emit, Step, RamView, AfterReads, LongestPrefix, Readable, Peek;
    assert e.m.gpr[0 := 0] == e.m.gpr;
    var b, addr, count := Fetch(e.m).bus, e.m.gpr[11], e.m.gpr[12];
    EcallStep(e.m);
    EcallFetch(e.m);
    EmitsLongestPrefix(b, addr, count);
    ReadsKeepMemory(b, addr, |Emit(b, addr, count).0|);
  }

  lemma EcallFetch(m: Machine)
    requires AtEcall(m)
    ensures RamView(Fetch(m).bus) == RamView(m.bus) && Fetch(m).bus.slots == m.bus.slots
    ensures Step(m).1.write == None && Step(m).1.store == None && Step(m).1.nextPc == Wrap(m.pc + 4)
  {
    hide Fetch, RamView, EffectOf, TrapCsr, Vector, RecordedWrite, LoadRefused, StoreRefused, AtEcall;
    CausesExactly(m);
    FaultCauses(m);
    assert Fetch(m).GotWord? by { GotEcall(m); }
    FetchKeeps(m);
  }

  lemma GotEcall(m: Machine)
    requires AtEcall(m)
    ensures Fetch(m).GotWord?
  {}

  lemma OtherReplays(e: EmuState)
    requires !Halted(e) && !CallsWrite(e) && e.m.gpr[0] == 0
    ensures ReplayOne(MirrorOf(e.m), EmuStep(e).1) == MirrorOf(After(e).m) && After(e).m.gpr[0] == 0
  {
    hide Step, RamView, ReplayStore, LoadRefused, StoreRefused, AtEcall, Emit;
    StepReplays(e.m);
    CausesExactly(e.m);
    if AtEcall(e.m) {
      EcallStep(e.m);
      HaltKeepsRam(Next(e.m).bus, true, Signed(e.m.gpr[10]));
    }
  }

  lemma HaltKeepsRam(b: BusState, halted: bool, exitCode: int)
    ensures RamView(b.(halted := halted, exitCode := exitCode)) == RamView(b)
  {}

  /**
   * The record that emulator_step returns reproduces registers, pc and RAM except when the step is a write call whose
   * result differs from the descriptor that was in a0.
   */
  lemma EmuStepReplays(e: EmuState)
    requires !Halted(e) && e.m.gpr[0] == 0
    ensures ReplayOne(MirrorOf(e.m), EmuStep(e).1) == MirrorOf(After(e).m)
            <==> !(CallsWrite(e) && WriteResult(e) != e.m.gpr[10])
  {
    hide Step, EmuStep, ReplayOne, RamView, CallsWrite, WriteResult, After;
    if CallsWrite(e) {
      WriteReplays(e);
      if WriteResult(e) == e.m.gpr[10] { assert e.m.gpr[10 := WriteResult(e)] == e.m.gpr; }
    } else {
      OtherReplays(e);
    }
  }

  /** A live step returns the hart's record, a write call without its trap; a halted one does nothing. */
  lemma ReturnedRecord(e: EmuState)
    ensures !Halted(e) ==> EmuStep(e).1 == if CallsWrite(e) then Step(e.m).1.(trap := TRAP_NONE) else Step(e.m).1
    ensures Halted(e) ==> After(e) == e
    ensures Halted(e) ==> EmuStep(e).1.trap == 2 && EmuStep(e).1.write == None && EmuStep(e).1.store == None
  {
    hide Step, AtEcall, LoadRefused, StoreRefused, Emit;
    CausesExactly(e.m);
    if AtEcall(e.m) { EcallStep(e.m); }
  }

  /** A returned record, with the result of the call where the step was a write call. */
  datatype Entry = Entry(record: Retire, a0: Option<Word>)

  /** The entries of n steps, as far as they are taken before the emulator halts. */
  function Log(e: EmuState, n: nat): seq<Entry>
    decreases n
  {
    hide After, EmuStep;
    if n == 0 || Halted(e) then []
    else [Entry(EmuStep(e).1, if CallsWrite(e) then Some(WriteResult(e)) else None)] + Log(After(e), n - 1)
  }

  function ReplayEntry(v: Mirror, entry: Entry): Mirror {
    var v' := ReplayOne(v, entry.record);
    if entry.a0.Some? then v'.(gpr := v'.gpr[10 := entry.a0.value]) else v'
  }

  function ReplayLog(v: Mirror, log: seq<Entry>): Mirror
    decreases |log|
  {
    if log == [] then v else ReplayLog(ReplayEntry(v, log[0]), log[1..])
  }

  /** With the results of write calls added, the records of any emulator run reproduce its registers, pc and RAM. */
  lemma {:induction false} EmuRunReplays(e: EmuState, n: nat)
    requires e.m.gpr[0] == 0
    ensures ReplayLog(MirrorOf(e.m), Log(e, n)) == MirrorOf(Iterate(e, n).m)
    decreases n
  {
    hide After, EmuStep, ReplayOne, RamView, CallsWrite, WriteResult, Halted;
    if Halted(e) {
      HaltedIsSticky(e, 0, n);
    } else if n > 0 {
      if CallsWrite(e) { WriteReplays(e); } else { OtherReplays(e); }
      EmuRunReplays(After(e), n - 1);
      assert Log(e, n)[1..] == Log(After(e), n - 1);
    }
  }
}
