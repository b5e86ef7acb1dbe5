/** How many steps a run takes, why it stops and what it returns. */
module EmulatorRuns {
  import opened Words
  import opened Instructions
  import opened Platform
  import opened Isa
  import opened Traps
  import opened Emulation

  /** The emulator is first halted after exactly k steps from e. */
  ghost predicate FirstHaltAt(e: EmuState, k: nat) {
    Halted(Iterate(e, k)) && forall j: nat :: j < k ==> !Halted(Iterate(e, j))
  }

  lemma HaltedFixed(e: EmuState)
    requires Halted(e)
    ensures After(e) == e
  {
    hide Step;
  }

  lemma IterateUnfold(e: EmuState, n: nat)
    ensures Iterate(e, 0) == e && Iterate(e, n + 1) == Iterate(After(e), n)
  {
    hide After;
  }

  /** Halting is final: once halted, further steps change nothing. */
  lemma {:induction false} HaltedIsSticky(e: EmuState, k: nat, n: nat)
    requires Halted(Iterate(e, k)) && k <= n
    ensures Iterate(e, n) == Iterate(e, k)
    decreases n
  {
    hide After, Halted;
    if k > 0 {
      HaltedIsSticky(After(e), k - 1, n - 1);
    } else if n > 0 {
      HaltedFixed(e);
      HaltedIsSticky(e, 0, n - 1);
    }
  }

  /** Every step before halting adds one to the cycle count, modulo 2^64. */
  lemma {:induction false} EachStepCounts(e: EmuState, n: nat)
    requires e.cycleCount < U64 && forall j: nat :: j < n ==> !Halted(Iterate(e, j))
    ensures Iterate(e, n).cycleCount == (e.cycleCount + n) % U64
    decreases n
  {
    hide After, Halted, Iterate;
    IterateUnfold(e, if n > 0 then n - 1 else 0);
    CycleSum(e.cycleCount, n);
    if n > 0 {
      assert !Halted(Iterate(e, 0));
      CountStep(e);
      forall j: nat | j < n - 1
        ensures !Halted(Iterate(After(e), j))
      {
        IterateUnfold(e, j);
        assert !Halted(Iterate(e, j + 1));
      }
      EachStepCounts(After(e), n - 1);
    }
  }

  lemma CycleSum(c: nat, n: nat)
    requires c < U64
    ensures n == 0 ==> c == (c + n) % U64
    ensures 0 < n ==> ((c + 1) % U64 + (n - 1)) % U64 == (c + n) % U64
  {
    if n > 0 { ModAdd(c + 1, n - 1, U64); }
  }

  lemma {:induction false} StepsToHaltIsFirst(e: EmuState, n: nat)
    ensures var k := StepsToHalt(e, n);
      (forall j: nat :: j < k ==> !Halted(Iterate(e, j))) && (k < n ==> Halted(Iterate(e, k)))
    decreases n
  {
    hide After, Halted;
    if n > 0 && !Halted(e) {
      StepsToHaltIsFirst(After(e), n - 1);
      var k := StepsToHalt(After(e), n - 1);
      forall j: nat | j < 1 + k
        ensures !Halted(Iterate(e, j))
      {
        if j > 0 { IterateUnfold(e, j - 1); }
      }
    }
  }

  lemma FirstHaltUnique(e: EmuState, n: nat, k: nat)
    requires FirstHaltAt(e, k)
    ensures StepsToHalt(e, n) == if k < n then k else n
  {
    hide Halted;
    StepsToHaltIsFirst(e, n);
    var s := StepsToHalt(e, n);
    assert s < k ==> !Halted(Iterate(e, s));
    assert k < s ==> !Halted(Iterate(e, k));
  }

  lemma NeverHalts(e: EmuState, n: nat)
    requires forall j: nat :: j < n ==> !Halted(Iterate(e, j))
    ensures StepsToHalt(e, n) == n
  {
    hide Halted;
    StepsToHaltIsFirst(e, n);
  }

  /** max(1, limit - c), except that the cycle count wrapping to 0 in the first step makes it limit + 1. */
  function AllowedSteps(c: nat, limit: nat): int {
    if c == U64 - 1 then limit + 1 else if limit - c >= 1 then limit - c else 1
  }

  /**
   * emulator_run with a limit takes b = AllowedSteps steps unless the program halts earlier. If the first halt comes
   * after k < b steps, that state and its exit code are returned; otherwise the run is stopped after b steps with exit
   * code 1, even when the b-th step itself halted the program with another code.
   */
  lemma RunWithLimit(e: EmuState, limit: nat, k: nat)
    requires e.cycleCount < U64 && 0 < limit && FirstHaltAt(e, k)
    ensures var b := AllowedSteps(e.cycleCount, limit);
      if k < b then
        RunResult(e, limit, 0) == Iterate(e, k) && RunResult(e, limit, 0).cycleCount == (e.cycleCount + k) % U64
      else
        RunResult(e, limit, 0) == Halt(Iterate(e, b), 1) && ExitCode(RunResult(e, limit, 0)) == 1
  {
    hide Iterate, Halted;
    FirstHaltUnique(e, Budget(e.cycleCount, limit), k);
    EachStepCounts(e, k);
  }

  /** The same for a program that does not halt within the limit. */
  lemma RunToLimit(e: EmuState, limit: nat, b: nat)
    requires e.cycleCount < U64 && 0 < limit && b == AllowedSteps(e.cycleCount, limit)
    requires forall j: nat :: j < b ==> !Halted(Iterate(e, j))
    ensures RunResult(e, limit, 0) == Halt(Iterate(e, b), 1)
    ensures RunResult(e, limit, 0).cycleCount == (e.cycleCount + b) % U64
  {
    hide Iterate, Halted;
    assert Budget(e.cycleCount, limit) == b;
    hide Budget, AllowedSteps;
    NeverHalts(e, b);
    EachStepCounts(e, b);
  }

  /** Without a limit the run ends in the first halted state, whatever bound on the number of steps is known. */
  lemma RunWithoutLimit(e: EmuState, k: nat, within: nat)
    requires e.cycleCount < U64 && FirstHaltAt(e, k) && k <= within
    ensures RunResult(e, 0, within) == Iterate(e, k)
  {
    hide Iterate, Halted;
    FirstHaltUnique(e, within, k);
  }

  // Why a step halts.

  /** The step at m stores to a TOHOST device. */
  predicate StoresToHost(m: Machine) {
    Fetch(m).GotWord? &&
    var w := Fetch(m).w;
    var n := m.(bus := Fetch(m).bus);
    IsStore(OpOf(w)) &&
    var d := Owner(n.bus, Wrap(n.gpr[Decode(w).rs1] + Decode(w).imm));
    d.Some? && n.bus.devs[d.value].Tohost?
  }

  function HostValue(m: Machine): Word
    requires StoresToHost(m)
  {
    var di := Decode(Fetch(m).w);
    Truncate(di.op, m.gpr[di.rs2])
  }

  lemma WriteHalts(b: BusState, addr: Word, data: Word, size: Size)
    requires !b.halted && BusWrite(b, addr, data, size).Some?
    ensures var b' := BusWrite(b, addr, data, size).value; var d := Owner(b, addr);
      && (b'.halted <==> b.devs[d.value].Tohost?)
      && (b'.halted ==> b'.exitCode == if data == 1 then 0 else data / 2)
      && (!b'.halted ==> b'.exitCode == b.exitCode)
  {
    hide Lookup, RamWrite, UartWrite;
  }

  lemma OnlyStoresHalt(m: Machine, di: Decoded)
    requires !m.bus.halted && Exec(m, di).Done? && !IsStore(di.op)
    ensures !Exec(m, di).bus.halted
  {
    hide Exec, Alu, BusRead, CsrGet, CsrPut, CsrResult, CsrOperand, MretStatus, Taken, Extend, RamView;
    hide IsAlu, IsBranch, IsLoad, IsStore, IsCsr;
    if IsAlu(di.op) {
      ExecAlu(m, di);
    } else if di.op == JAL || di.op == JALR {
      ExecIsJump(m, di);
    } else if IsBranch(di.op) {
      ExecIsBranch(m, di);
    } else if IsLoad(di.op) {
      ExecIsLoad(m, di);
      ReadKeeps(m.bus, Wrap(m.gpr[di.rs1] + di.imm), AccessSize(di.op));
    } else if IsCsr(di.op) {
      ExecIsCsr(m, di);
    } else {
      OtherOps(di.op);
      ExecIsOther(m, di);
    }
  }

  lemma StoreHalts(m: Machine, di: Decoded)
    requires !m.bus.halted && Exec(m, di).Done? && IsStore(di.op)
    ensures var b := Exec(m, di).bus; var addr := Wrap(m.gpr[di.rs1] + di.imm);
      var value := Truncate(di.op, m.gpr[di.rs2]);
      && (b.halted <==> Owner(m.bus, addr).Some? && m.bus.devs[Owner(m.bus, addr).value].Tohost?)
      && (b.halted ==> b.exitCode == if value == 1 then 0 else value / 2)
  {
    hide Exec, BusWrite, Truncate, Lookup;
    ExecIsStore(m, di);
    HostWrite(m.bus, Wrap(m.gpr[di.rs1] + di.imm), Truncate(di.op, m.gpr[di.rs2]), AccessSize(di.op));
  }

  lemma HostWrite(b: BusState, addr: Word, data: Word, size: Size)
    requires !b.halted
    ensures BusWrite(b, addr, data, size).Some? ==>
      var b' := BusWrite(b, addr, data, size).value; var d := Owner(b, addr);
      && (b'.halted <==> d.Some? && b.devs[d.value].Tohost?)
      && (b'.halted ==> b'.exitCode == if data == 1 then 0 else data / 2)
  {
    hide Lookup, BusWrite;
    if BusWrite(b, addr, data, size).Some? {
      WriteHalts(b, addr, data, size);
      WriteHasOwner(b, addr, data, size);
    }
  }

  lemma WriteHasOwner(b: BusState, addr: Word, data: Word, size: Size)
    requires BusWrite(b, addr, data, size).Some?
    ensures Owner(b, addr).Some?
  {
    hide Lookup, RamWrite, UartWrite;
  }

  /** The step at m is an ECALL that the default handler does not handle: anything but a write. */
  predicate UnhandledCall(m: Machine) {
    AtEcall(m) && m.gpr[17] != 64
  }

  /**
   * A running emulator is halted by a step exactly when the step stores to TOHOST or is an ECALL other than write. The
   * exit code is then 0 for a stored 1 and half the stored value otherwise, or a0 as a signed number.
   */
  lemma WhyAStepHalts(e: EmuState)
    requires !Halted(e)
    ensures Halted(After(e)) <==> StoresToHost(e.m) || UnhandledCall(e.m)
    ensures StoresToHost(e.m) ==> ExitCode(After(e)) == if HostValue(e.m) == 1 then 0 else HostValue(e.m) / 2
    ensures UnhandledCall(e.m) ==> ExitCode(After(e)) == Signed(e.m.gpr[10])
  {
    hide Step, Fetch, Owner, Decode, OpOf, Truncate, Emit, Next, AtEcall, LoadRefused, StoreRefused;
    CausesExactly(e.m);
    StepHalts(e.m);
    AfterCases(e);
    CallKeeps(e.m);
  }

  lemma CallKeeps(m: Machine)
    ensures Step(m).1.trap == TRAP_ECALL_M ==> Next(m).gpr == m.gpr[0 := 0]
  {
    hide EffectOf, Vector, TrapStatus, RecordedWrite, WordAt;
    FaultCauses(m);
  }

  lemma StepHalts(m: Machine)
    requires !m.bus.halted
    ensures Next(m).bus.halted <==> StoresToHost(m)
    ensures StoresToHost(m) ==> Step(m).1.trap == TRAP_NONE
    ensures StoresToHost(m) ==> Next(m).bus.exitCode == if HostValue(m) == 1 then 0 else HostValue(m) / 2
  {
    hide Fetch, Exec, Decode, OpOf, Owner, Truncate, Vector, TrapStatus, RecordedWrite, RamView;
    FaultCauses(m);
    if Fetch(m).GotWord? {
      var n := m.(bus := Fetch(m).bus);
      FetchRuns(m);
      DecodeOp(Fetch(m).w);
      if EffectOf(m).Done? {
        if IsStore(OpOf(Fetch(m).w)) {
          StoreHalts(n, Decode(Fetch(m).w));
        } else {
          OnlyStoresHalt(n, Decode(Fetch(m).w));
        }
      } else {
        TrapKeepsBus(m);
        if StoresToHost(m) { HostStoreIsDone(n, Decode(Fetch(m).w)); }
      }
    } else {
      TrapKeepsBus(m);
    }
  }

  lemma FetchRuns(m: Machine)
    requires Fetch(m).GotWord?
    ensures Fetch(m).bus.halted == m.bus.halted
  {
    hide BusRead, RamView;
    ReadKeeps(m.bus, m.pc, 32);
  }

  lemma HostStoreIsDone(m: Machine, di: Decoded)
    requires IsStore(di.op)
    requires var d := Owner(m.bus, Wrap(m.gpr[di.rs1] + di.imm)); d.Some? && m.bus.devs[d.value].Tohost?
    ensures Exec(m, di).Done?
  {
    hide Exec, Lookup, Truncate;
    ExecIsStore(m, di);
  }

  lemma AfterCases(e: EmuState)
    requires !Halted(e)
    ensures var (m, r) := Step(e.m);
      && (r.trap != TRAP_ECALL_M ==> After(e).m == m)
      && (r.trap == TRAP_ECALL_M && m.gpr[17] == 64 ==> Halted(After(e)) == m.bus.halted)
      && (r.trap == TRAP_ECALL_M && m.gpr[17] != 64 ==> Halted(After(e)) && ExitCode(After(e)) == Signed(m.gpr[10]))
      && Next(e.m) == m
  {
    hide Step, Emit;
    var m := Step(e.m).0;
    EmitKeeps(m.bus, m.gpr[11], m.gpr[12]);
  }

  lemma {:induction false} EmitKeeps(b: BusState, addr: Word, count: nat)
    ensures Emit(b, addr, count).1.halted == b.halted
    decreases count
  {
    hide BusRead, RamView;
    if count > 0 {
      ReadKeeps(b, addr, 8);
      EmitKeeps(BusRead(b, addr, 8).0, Wrap(addr + 1), count - 1);
    }
  }

  // The exit code at the limit.

  lemma {:induction false} IterateLast(e: EmuState, n: nat)
    ensures Iterate(e, n + 1) == After(Iterate(e, n))
    decreases n
  {
    hide After;
    if n == 0 {
      IterateUnfold(e, 0);
      IterateUnfold(After(e), 0);
    } else {
      IterateLast(After(e), n - 1);
      IterateUnfold(e, n);
      IterateUnfold(e, n - 1);
    }
  }

  /** The step at m ends the program with exit code 1. */
  predicate ExitsWithOne(m: Machine) {
    || (StoresToHost(m) && (HostValue(m) == 2 || HostValue(m) == 3))
    || (UnhandledCall(m) && m.gpr[10] == 1)
  }

  /**
   * A program that halts on the very step that uses up its limit gets exit code 1. Its own exit code survives exactly
   * when that last step exits with 1: a store of 2 or 3 to TOHOST, or an exiting ECALL with a0 = 1.
   */
  lemma ExitCodeAtLimit(e: EmuState, limit: nat, k: nat)
    requires e.cycleCount < U64 && 0 < limit && FirstHaltAt(e, k) && 0 < k && AllowedSteps(e.cycleCount, limit) == k
    ensures ExitCode(RunResult(e, limit, 0)) == 1
    ensures ExitCode(RunResult(e, limit, 0)) == ExitCode(Iterate(e, k)) <==> ExitsWithOne(Iterate(e, k - 1).m)
  {
    hide Iterate, Halted, RunResult, AllowedSteps, After, StoresToHost, UnhandledCall, HostValue;
    RunWithLimit(e, limit, k);
    IterateLast(e, k - 1);
    var last := Iterate(e, k - 1);
    assert !Halted(last) && Halted(After(last));
    WhyAStepHalts(last);
    HostOrCall(last.m);
  }

  lemma HostOrCall(m: Machine)
    ensures !(StoresToHost(m) && UnhandledCall(m))
  {
    hide Fetch, OpOf, Decode, Owner, IsStore;
    EcallClass();
  }
}
