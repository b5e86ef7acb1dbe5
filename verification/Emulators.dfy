/** src/soc.c and src/emulator.c: the system-on-chip and the emulator around it. */
module Emulators {
  import opened Words
  import opened Platform
  import opened Devices
  import opened SystemBus
  import opened Isa
  import opened Harts
  import opened Emulation

  class Soc {
    const hart: Hart
    const bus: Bus

    ghost predicate Valid()
      reads hart, bus, bus.Repr
    {
      hart.bus == bus && hart.Valid()
    }

    /** soc_init */
    constructor (halt: HaltCell, resetPc: Word)
      ensures Valid() && fresh(hart) && fresh(hart.gpr) && fresh(bus.Repr - {halt})
      ensures bus.halt == halt && bus.count == 0
      ensures bus.state == BusState(seq(10, i => Slot(false, 0, 0, 0)), [], halt.halted, halt.exitCode)
      ensures hart.State() == Machine(seq(32, i => 0), CsrFile(0, 0, 0, 0, 0, 0), resetPc, bus.state)
    {
      var b := new Bus(halt);
      var h := new Hart(b, resetPc);
      bus := b;
      hart := h;
    }

    /** soc_add_memory */
    method AddMemory(addrStart: Word, size: nat) returns (ok: bool)
      requires Valid()
      modifies bus, bus.slots
      ensures Valid() && fresh(bus.Repr - old(bus.Repr))
      ensures ok == (old(bus.count) < BUS_MAX_PERIPHERALS)
      ensures bus.count == old(bus.count) + if ok then 1 else 0
      ensures var b := old(bus.state); ok ==>
        bus.state == b.(slots := b.slots[old(bus.count) := Slot(true, addrStart, Wrap(addrStart + size), |b.devs|)],
                        devs := b.devs + [Ram(addrStart, Zeros(size))])
    {
      var mem := new Memory(addrStart, size);
      var ctx := bus.Attach(RamDev(mem));
      ok := bus.AddPeripheral(addrStart, Wrap(addrStart + size), ctx);
    }

    /** The calls by which emulator_init populates an empty bus. */
    method AddDefaultDevices()
      requires Valid() && bus.count == 0
      requires bus.state == BusState(seq(10, i => Slot(false, 0, 0, 0)), [], false, 0)
      modifies bus, bus.slots
      ensures Valid() && fresh(bus.Repr - old(bus.Repr)) && bus.state == ResetBus()
    {
      hide Zeros;
      var ok := AddTohost(0x8000_1000, 0x8000_1008);
      ok := AddMemory(0x0000_0000, 4 * 1024 * 1024);
      ok := AddMemory(0x8000_0000, 16 * 1024 * 1024);
      assert bus.state.devs == [Tohost, Ram(0, Zeros(RAM_LOW)), Ram(0x8000_0000, Zeros(RAM_HIGH))];
      ok := AddUart(0x1000_0000, 0x1000_0008);
      assert bus.state.slots == ResetBus().slots;
    }

    method AddTohost(addrStart: Word, addrEnd: Word) returns (ok: bool)
      requires Valid() && bus.count < BUS_MAX_PERIPHERALS
      modifies bus, bus.slots
      ensures Valid() && bus.Repr == old(bus.Repr) && ok && bus.count == old(bus.count) + 1
      ensures var b := old(bus.state);
        bus.state == b.(slots := b.slots[old(bus.count) := Slot(true, addrStart, addrEnd, |b.devs|)],
                        devs := b.devs + [Tohost])
    {
      var ctx := bus.Attach(TohostDev);
      ok := bus.AddPeripheral(addrStart, addrEnd, ctx);
    }

    /** A UART without an input file. */
    method AddUart(addrStart: Word, addrEnd: Word) returns (ok: bool)
      requires Valid() && bus.count < BUS_MAX_PERIPHERALS
      modifies bus, bus.slots
      ensures Valid() && fresh(bus.Repr - old(bus.Repr)) && ok && bus.count == old(bus.count) + 1
      ensures var b := old(bus.state);
        bus.state == b.(slots := b.slots[old(bus.count) := Slot(true, addrStart, addrEnd, |b.devs|)],
                        devs := b.devs + [Uart(UartState(0, 0, 0, 0, 1, 0, false, 0, [], []))])
    {
      var uart := new UartDevice([]);
      var ctx := bus.Attach(UartDev(uart));
      ok := bus.AddPeripheral(addrStart, addrEnd, ctx);
    }

    /** soc_load_binary; the target, if any, must be RAM. */
    method LoadBinary(data: seq<Byte>, loadAddr: Word) returns (rc: int)
      requires Valid()
      requires Owner(bus.state, loadAddr).Some? ==> bus.state.devs[Owner(bus.state, loadAddr).value].Ram?
      modifies bus.Repr
      ensures Valid() && bus.Repr == old(bus.Repr)
      ensures var b := LoadImage(old(bus.state), loadAddr, data);
        rc == (if b.Some? then 0 else -1) && bus.state == if b.Some? then b.value else old(bus.state)
    {
      var k := bus.GetPeripheral(loadAddr);
      if k < 0 {
        return -1;
      }
      var d := bus.slots[k].dev;
      match bus.devices[d] {
        case RamDev(m) => rc := bus.LoadRam(d, m, loadAddr, data);
      }
    }

    /** soc_raise_interrupt */
    method RaiseInterrupt(interrupt: Trap)
      requires Valid()
      modifies hart`csr, hart`pc
      ensures Valid() && hart.State() == Emulation.RaiseInterrupt(old(hart.State()), interrupt)
    {
      if !IsInterrupt(interrupt) {
        return;
      }
      hart.TakeTrap(interrupt, 0);
    }
  }

  class Emulator {
    const soc: Soc
    const halt: HaltCell   // the fields halted and exit_code
    var cycleCount: nat    // a uint64_t
    var stdout: seq<Byte>
    var stderr: seq<Byte>

    ghost predicate Valid()
      reads this, soc.hart, soc.bus, soc.bus.Repr
    {
      && soc.Valid() && soc.bus.halt == halt && cycleCount < U64
      && this !in soc.bus.Repr
    }

    ghost function State(): EmuState
      requires Valid()
      reads this, soc.hart, soc.hart.gpr, soc.bus, soc.bus.Repr
    {
      EmuState(soc.hart.State(), cycleCount, stdout, stderr)
    }

    /** emulator_init */
    constructor (resetPc: Word)
      ensures Valid() && State() == ResetState(resetPc)
    {
      var cell := new HaltCell();
      var s := new Soc(cell, resetPc);
      soc := s;
      halt := cell;
      cycleCount, stdout, stderr := 0, [], [];
      new;
      soc.AddDefaultDevices();
    }

    /** default_syscall_handler */
    method DefaultSyscallHandler() returns (handled: bool)
      requires Valid()
      modifies this`stdout, this`stderr, soc.hart.gpr, soc.bus.Repr
      ensures Valid() && soc.bus.Repr == old(soc.bus.Repr)
      ensures (State(), handled) == Syscall(old(State()))
    {
      hide BusRead;
      var gpr := soc.hart.gpr;
      var a7, a0, a1, a2 := gpr[17], gpr[10], gpr[11], gpr[12];
      if a7 == 93 {
        gpr[10] := a0;
        return false;
      } else if a7 == 64 {
        if a0 != 1 && a0 != 2 {
          gpr[10] := 0xFFFF_FFFF;
          return true;
        }
        var written := EmitBytes(a0, a1, a2);
        gpr[10] := written;
        return true;
      } else {
        return false;
      }
    }

    /** The loop of the write syscall. */
    method EmitBytes(fd: Word, addr: Word, count: Word) returns (written: Word)
      requires Valid() && (fd == 1 || fd == 2)
      modifies this`stdout, this`stderr, soc.bus.Repr
      ensures Valid() && soc.bus.Repr == old(soc.bus.Repr) && soc.hart.gpr[..] == old(soc.hart.gpr[..])
      ensures soc.hart.csr == old(soc.hart.csr) && soc.hart.pc == old(soc.hart.pc) && cycleCount == old(cycleCount)
      ensures var (bytes, bus) := Emit(old(soc.bus.state), addr, count);
        && written == |bytes| && soc.bus.state == bus
        && stdout == (if fd == 1 then old(stdout) + bytes else old(stdout))
        && stderr == (if fd == 2 then old(stderr) + bytes else old(stderr))
    {
      hide BusRead, Emit, And, EmitsRest;
      EmitStart(soc.bus.state, addr, count);
      written := 0;
      var i := 0;
      ghost var sent: seq<Byte> := [];
      while i < count
        invariant 0 <= i <= count && written == |sent| == i
        invariant Valid() && soc.bus.Repr == old(soc.bus.Repr)
        invariant stdout == (if fd == 1 then old(stdout) + sent else old(stdout))
        invariant stderr == (if fd == 2 then old(stderr) + sent else old(stderr))
        invariant EmitsRest(old(soc.bus.state), addr, count, sent, soc.bus.state, i)
        invariant soc.hart.gpr[..] == old(soc.hart.gpr[..])
        invariant soc.hart.csr == old(soc.hart.csr) && soc.hart.pc == old(soc.hart.pc) && cycleCount == old(cycleCount)
      {
        EmitStep(old(soc.bus.state), addr, count, sent, soc.bus.state, i);
        var ok, byteVal := soc.bus.Read(Wrap(addr + i), 8);
        if !ok {
          break;
        }
        LowByte(byteVal);
        if fd == 1 {
          stdout := stdout + [And(byteVal, 0xFF)];
        } else {
          stderr := stderr + [And(byteVal, 0xFF)];
        }
        sent := sent + [byteVal % 0x100];
        written := written + 1;
        i := i + 1;
      }
      if i == count {
        EmitEnd(old(soc.bus.state), addr, count, sent, soc.bus.state);
      }
    }

    /** emulator_step with the default handler and no trace callback. */
    method Step() returns (r: Retire)
      requires Valid()
      modifies this`cycleCount, this`stdout, this`stderr, soc.hart`csr, soc.hart`pc, soc.hart.gpr, soc.bus.Repr
      ensures Valid() && soc.bus.Repr == old(soc.bus.Repr)
      ensures (State(), r) == EmuStep(old(State()))
    {
      hide Isa.Step, Syscall;
      if halt.halted {
        return Retire(0, 0, 0, None, None, None, TRAP_ILLEGAL_INSTR);
      }
      var di;
      r, di := soc.hart.Step();
      cycleCount := (cycleCount + 1) % U64;
      if r.trap == TRAP_ECALL_M {
        var handled := DefaultSyscallHandler();
        if !handled {
          soc.bus.SetHalt(Signed(soc.hart.gpr[10]));
        }
        if handled {
          r := r.(trap := TRAP_NONE);
        }
      }
    }

    /**
     * emulator_run. With limit 0 it returns only if the program halts, which is what the second requires says;
     * within is then any number of steps after which it has.
     */
    method Run(maxSteps: nat, ghost within: nat) returns (exitCode: int)
      requires Valid() && maxSteps < U64
      requires maxSteps == 0 ==> Halted(Iterate(State(), within))
      modifies this, halt, soc.hart, soc.hart.gpr, soc.bus.Repr
      ensures Valid()
      ensures State() == RunResult(old(State()), maxSteps, within) && exitCode == ExitCode(State())
    {
      hide After, Iterate, StepsToHalt, EmuStep, RunFrom;
      ghost var limited := maxSteps != 0;
      ghost var left: nat := if limited then Budget(cycleCount, maxSteps) else within;
      while !halt.halted
        invariant Valid() && soc.bus.Repr == old(soc.bus.Repr)
        invariant RunFrom(State(), left, limited) == RunResult(old(State()), maxSteps, within)
        invariant limited && !halt.halted ==> left == Budget(cycleCount, maxSteps)
        invariant limited ==> 0 < left
        invariant !limited ==> Halted(Iterate(State(), left))
        decreases left
      {
        ghost var e := State();
        HaltsLater(e, left);
        var r := Step();
        assert State() == After(e) by { AfterIsStep(e); }
        RunFromStep(e, left, limited);
        BudgetStep(e.cycleCount, maxSteps, State().cycleCount) by { CountStep(e); }
        if maxSteps != 0 && cycleCount >= maxSteps {
          soc.bus.SetHalt(1);
          return halt.exitCode;
        }
        left := left - 1;
      }
      RunFromHalted(State(), left, limited);
      exitCode := halt.exitCode;
    }
  }

  /** After i successful reads that delivered sent, the bus is b and the rest of the emission is still to come. */
  ghost predicate EmitsRest(b0: BusState, addr: Word, count: nat, sent: seq<Byte>, b: BusState, i: nat)
    requires i <= count
  {
    var (rest, bus) := Emit(b, Wrap(addr + i), count - i);
    Emit(b0, addr, count) == (sent + rest, bus)
  }

  lemma EmitStart(b: BusState, addr: Word, count: nat)
    ensures EmitsRest(b, addr, count, [], b, 0)
  {
    hide BusRead, Emit;
    assert [] + Emit(b, addr, count).0 == Emit(b, addr, count).0;
  }

  lemma EmitStep(b0: BusState, addr: Word, count: nat, sent: seq<Byte>, b: BusState, i: nat)
    requires i < count && EmitsRest(b0, addr, count, sent, b, i)
    ensures var (b', v) := BusRead(b, Wrap(addr + i), 8);
      if v.None? then Emit(b0, addr, count) == (sent, b')
      else EmitsRest(b0, addr, count, sent + [v.value % 0x100], b', i + 1)
  {
    hide BusRead, Wrap;
    var (b', v) := BusRead(b, Wrap(addr + i), 8);
    WrapNext(addr, i);
    if v.Some? {
      var rest := Emit(b', Wrap(addr + (i + 1)), count - (i + 1)).0;
      assert sent + ([v.value % 0x100] + rest) == sent + [v.value % 0x100] + rest;
    } else {
      assert sent + [] == sent;
    }
  }

  lemma WrapNext(addr: Word, i: nat)
    ensures Wrap(Wrap(addr + i) + 1) == Wrap(addr + (i + 1))
  {
    ModAdd(addr + i, 1, 0x1_0000_0000);
  }

  lemma EmitEnd(b0: BusState, addr: Word, count: nat, sent: seq<Byte>, b: BusState)
    requires EmitsRest(b0, addr, count, sent, b, count)
    ensures Emit(b0, addr, count) == (sent, b)
  {
    hide BusRead;
    assert sent + [] == sent;
  }

  lemma LowByte(v: Word)
    ensures And(v, 0xFF) == v % 0x100
  {
    hide And;
    assert Pow2(8) == 0x100 by { Pow2Table(); }
    AndMask(v, 0x100, 8);
  }
}
