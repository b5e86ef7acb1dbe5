/** Which device answers at which address of the emulator's reset bus, and how a UART is reached through a bus. */
module ResetMap {
  import opened Words
  import opened Platform
  import opened Emulation

  /**
   * TOHOST answers at its eight addresses inside the upper RAM, the RAMs at the rest of their four and sixteen
   * megabytes, the UART at its eight addresses, and nothing anywhere else. Both RAMs are zero, and the UART is as reset
   * without input.
   */
  lemma AddressMap(addr: Word)
    ensures var b := ResetBus(); var d := Owner(b, addr);
      if 0x8000_1000 <= addr < 0x8000_1008 then d.Some? && b.devs[d.value].Tohost?
      else if addr < 0x40_0000 then d.Some? && b.devs[d.value] == Ram(0, seq(0x40_0000, i => 0))
      else if 0x8000_0000 <= addr < 0x8100_0000 then
        d.Some? && b.devs[d.value] == Ram(0x8000_0000, seq(0x100_0000, i => 0))
      else if 0x1000_0000 <= addr < 0x1000_0008 then
        d.Some? && b.devs[d.value] == Uart(UartState(0, 0, 0, 0, 1, 0, false, 0, [], []))
      else d.None?
  {
    hide Zeros, Lookup;
    var slots := ResetBus().slots;
    SlotsOfReset();
    assert forall j :: 0 <= j < 4 ==> slots[j] == slots[..4][j];
    LookupIsSelection(slots, addr);
    if 0x8000_1000 <= addr < 0x8000_1008 {
      assert Selects(slots, addr, 0);
    } else if addr < 0x40_0000 {
      assert Selects(slots, addr, 1);
    } else if 0x8000_0000 <= addr < 0x8100_0000 {
      assert Selects(slots, addr, 2);
    } else if 0x1000_0000 <= addr < 0x1000_0008 {
      assert Selects(slots, addr, 3);
    }
    ZeroBytes();
  }

  /** The emulator starts running at the given pc with everything else zero or empty. */
  lemma ResetValues(pc: Word)
    ensures var e := ResetState(pc);
      && e.m.pc == pc && (forall r: nat :: r < 32 ==> e.m.gpr[r] == 0)
      && e.m.csr.mstatus == e.m.csr.mtvec == e.m.csr.mepc == e.m.csr.mcause == e.m.csr.mtval == e.m.csr.mscratch == 0
      && !Halted(e) && ExitCode(e) == 0 && e.cycleCount == 0 && e.stdout == [] && e.stderr == []
  {
    hide Zeros;
  }

  lemma SlotsOfReset()
    ensures |ResetBus().slots| == 10 && forall j :: 4 <= j < 10 ==> !ResetBus().slots[j].active
    ensures ResetBus().slots[..4] == [Slot(true, 0x8000_1000, 0x8000_1008, 0), Slot(true, 0, 0x40_0000, 1),
                                      Slot(true, 0x8000_0000, 0x8100_0000, 2), Slot(true, 0x1000_0000, 0x1000_0008, 3)]
  {
    hide Zeros;
  }

  lemma ZeroBytes()
    ensures Zeros(0x40_0000) == seq(0x40_0000, i => 0) && Zeros(0x100_0000) == seq(0x100_0000, i => 0)
  {}

  /**
   * A bus access at an address that a UART answers, whatever its width, is the access to that UART's register alone.
   */
  lemma UartOnBus(b: BusState, addr: Word, data: Word, size: Size, d: nat)
    requires Owner(b, addr) == Some(d) && b.devs[d].Uart?
    ensures var (u', v) := UartRead(b.devs[d].uart, addr);
      BusRead(b, addr, size) == (b.(devs := b.devs[d := Uart(u')]), Some(v))
    ensures BusWrite(b, addr, data, size) == Some(b.(devs := b.devs[d := Uart(UartWrite(b.devs[d].uart, addr, data))]))
  {
    hide Lookup, UartRead, UartWrite;
  }
}
