/** The emulator loop and its syscall policy, as functions on values. */
module Emulation {
  import opened Words
  import opened Platform
  import opened Isa

  const U64: nat := 0x1_0000_0000_0000_0000

  /** cycleCount is a uint64_t; stdout and stderr are what write syscalls have sent to them. */
  datatype EmuState = EmuState(m: Machine, cycleCount: nat, stdout: seq<Byte>, stderr: seq<Byte>)

  predicate Halted(e: EmuState) {
    e.m.bus.halted
  }

  function ExitCode(e: EmuState): int {
    e.m.bus.exitCode
  }

  /** The emulator's two halt fields set. */
  function Halt(e: EmuState, exitCode: int): EmuState {
    e.(m := e.m.(bus := e.m.bus.(halted := true, exitCode := exitCode)))
  }

  /** The bytes that count successive one-byte reads from addr deliver before one of them fails. */
  function Emit(bus: BusState, addr: Word, count: nat): (r: (seq<Byte>, BusState))
    ensures |r.0| <= count
    decreases count
  {
    if count == 0 then ([], bus)
    else
      var (bus', v) := BusRead(bus, addr, 8);
      match v
      case None => ([], bus')
      case Some(value) =>
        var (rest, bus'') := Emit(bus', Wrap(addr + 1), count - 1);
        ([value % 0x100] + rest, bus'')
  }

  /** The default syscall handler: the new state, and whether execution continues. */
  function Syscall(e: EmuState): (EmuState, bool) {
    var a7, a0, a1, a2 := e.m.gpr[17], e.m.gpr[10], e.m.gpr[11], e.m.gpr[12];
    if a7 == 64 then
      if a0 == 1 || a0 == 2 then
        var (bytes, bus) := Emit(e.m.bus, a1, a2);
        var e' := e.(m := e.m.(gpr := e.m.gpr[10 := |bytes|], bus := bus));
        (if a0 == 1 then e'.(stdout := e.stdout + bytes) else e'.(stderr := e.stderr + bytes), true)
      else (e.(m := e.m.(gpr := e.m.gpr[10 := 0xFFFF_FFFF])), true)
    else (e, false)
  }

  /** emulator_step: a halted emulator stays as it is. */
  function EmuStep(e: EmuState): (EmuState, Retire) {
    if Halted(e) then (e, Retire(0, 0, 0, None, None, None, TRAP_ILLEGAL_INSTR))
    else
      var (m, r) := Step(e.m);
      var e1 := e.(m := m, cycleCount := (e.cycleCount + 1) % U64);
      if r.trap == TRAP_ECALL_M then
        var (e2, handled) := Syscall(e1);
        if handled then (e2, r.(trap := TRAP_NONE)) else (Halt(e2, Signed(e2.m.gpr[10])), r)
      else (e1, r)
  }

  function After(e: EmuState): EmuState {
    EmuStep(e).0
  }

  /** The state after n calls of emulator_step. */
  function Iterate(e: EmuState, n: nat): EmuState
    decreases n
  {
    hide After;
    if n == 0 then e else Iterate(After(e), n - 1)
  }

  /** The number of steps until the emulator is halted, but at most n. */
  function StepsToHalt(e: EmuState, n: nat): (k: nat)
    ensures k <= n
    decreases n
  {
    hide After;
    if n == 0 || Halted(e) then 0 else 1 + StepsToHalt(After(e), n - 1)
  }

  /** How many steps emulator_run takes from cycle count c before its limit test first succeeds. */
  function Budget(c: nat, limit: nat): nat
    requires c < U64 && 0 < limit
  {
    if c + 1 == U64 then limit + 1 else if limit <= c + 1 then 1 else limit - c
  }

  /** Where a run ends that has left steps to go, and halts with exit code 1 after the last of them if it is limited. */
  function RunFrom(e: EmuState, left: nat, limited: bool): EmuState {
    var k := StepsToHalt(e, left);
    if limited && k == left then Halt(Iterate(e, left), 1) else Iterate(e, k)
  }

  /** The state in which emulator_run returns; within matters only when there is no limit. */
  function RunResult(e: EmuState, limit: nat, within: nat): EmuState
    requires e.cycleCount < U64
  {
    if limit == 0 then RunFrom(e, within, false) else RunFrom(e, Budget(e.cycleCount, limit), true)
  }

  lemma AfterIsStep(e: EmuState)
    ensures After(e) == EmuStep(e).0
  {}

  lemma CountStep(e: EmuState)
    requires !Halted(e)
    ensures After(e).cycleCount == (e.cycleCount + 1) % U64
  {
    hide Step, Emit;
  }

  /** A run that is not halted and still has to halt has steps left. */
  lemma HaltsLater(e: EmuState, left: nat)
    ensures !Halted(e) && Halted(Iterate(e, left)) ==> 0 < left
    ensures !Halted(e) && 0 < left ==> Iterate(e, left) == Iterate(After(e), left - 1)
  {
    hide After;
  }

  lemma RunFromStep(e: EmuState, left: nat, limited: bool)
    requires !Halted(e) && 0 < left
    ensures RunFrom(e, left, limited) == RunFrom(After(e), left - 1, limited)
    ensures limited && left == 1 ==> RunFrom(e, left, limited) == Halt(After(e), 1)
  {
    hide After;
  }

  lemma RunFromHalted(e: EmuState, left: nat, limited: bool)
    requires Halted(e) && (limited ==> 0 < left)
    ensures RunFrom(e, left, limited) == e
  {
    hide After;
  }

  lemma BudgetStep(c: nat, limit: nat, c': nat)
    requires c < U64 && limit < U64 && c' == (c + 1) % U64
    ensures 0 < limit <= c' ==> Budget(c, limit) == 1
    ensures 0 < limit && c' < limit ==> Budget(c, limit) == 1 + Budget(c', limit)
  {}

  // The system-on-chip calls.

  /** soc_load_binary onto RAM: the new bus, or None for -1. */
  function LoadImage(b: BusState, addr: Word, data: seq<Byte>): Option<BusState>
    requires Owner(b, addr).Some? ==> b.devs[Owner(b, addr).value].Ram?
  {
    match Owner(b, addr)
    case None => None
    case Some(d) =>
      var ram := b.devs[d];
      if Holds(ram.base, |ram.bytes|, addr, |data|) then
        Some(b.(devs := b.devs[d := Ram(ram.base, Splice(ram.bytes, addr - ram.base, data))]))
      else None
  }

  /** soc_raise_interrupt: causes that are not interrupts are ignored. */
  function RaiseInterrupt(m: Machine, cause: Trap): Machine {
    if IsInterrupt(cause) then m.(csr := TrapCsr(m.csr, cause, 0, m.pc), pc := Vector(m.csr.mtvec, cause)) else m
  }

  function Zeros(n: nat): seq<Byte> {
    seq(n, i => 0)
  }

  const RAM_LOW: nat := 4 * 1024 * 1024
  const RAM_HIGH: nat := 16 * 1024 * 1024

  /** The bus that emulator_init builds: TOHOST, two RAMs and a UART, the TOHOST window inside the second RAM. */
  function ResetBus(): BusState {
    BusState(
      [Slot(true, 0x8000_1000, 0x8000_1008, 0), Slot(true, 0, RAM_LOW, 1),
       Slot(true, 0x8000_0000, 0x8000_0000 + RAM_HIGH, 2), Slot(true, 0x1000_0000, 0x1000_0008, 3)]
      + seq(6, i => Slot(false, 0, 0, 0)),
      [Tohost, Ram(0, Zeros(RAM_LOW)), Ram(0x8000_0000, Zeros(RAM_HIGH)),
       Uart(UartState(0, 0, 0, 0, 1, 0, false, 0, [], []))],
      false, 0)
  }

  /** The state after emulator_init. */
  function ResetState(pc: Word): EmuState {
    EmuState(Machine(seq(32, i => 0), CsrFile(0, 0, 0, 0, 0, 0), pc, ResetBus()), 0, [], [])
  }
}
