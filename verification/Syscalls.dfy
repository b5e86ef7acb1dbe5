/** The write system call emits the longest readable prefix of its buffer. */
module Syscalls {
  import opened Words
  import opened Instructions
  import opened Platform
  import opened Isa
  import opened Traps
  import opened Emulation

  /** No UART answers at the address, so reading there has no side effect. */
  predicate Quiet(b: BusState, addr: Word) {
    var d := Owner(b, addr);
    d.Some? ==> !b.devs[d.value].Uart?
  }

  /** The RAM byte at the address, if RAM answers there. */
  function Peek(b: BusState, addr: Word): Option<Byte> {
    match Owner(b, addr)
    case None => None
    case Some(d) =>
      match b.devs[d]
      case Ram(base, bytes) => if Holds(base, |bytes|, addr, 1) then Some(bytes[addr - base]) else None
      case _ => None
  }

  /** The i-th address of a buffer. */
  function At(addr: Word, i: nat): Word {
    Wrap(addr + i)
  }

  lemma AtNext(addr: Word, i: nat)
    ensures At(At(addr, 1), i) == At(addr, i + 1) && At(addr, 0) == addr
  {
    ModAdd(addr + 1, i, 0x1_0000_0000);
  }

  lemma QuietRead(b: BusState, addr: Word)
    requires Quiet(b, addr)
    ensures BusRead(b, addr, 8).0 == b
  {
    hide Lookup;
  }

  lemma OneByte(x: Byte)
    ensures LittleEndian([x]) == x
  {
    assert [x][1..] == [];
  }

  /** A read of the byte at addr succeeds: a RAM byte or a UART register. */
  predicate Readable(b: BusState, addr: Word) {
    match Owner(b, addr)
    case None => false
    case Some(d) =>
      match b.devs[d]
      case Ram(base, bytes) => Holds(base, |bytes|, addr, 1)
      case Uart(_) => true
      case Tohost => false
  }

  /** The bus after one-byte reads from n consecutive addresses. */
  function AfterReads(b: BusState, addr: Word, n: nat): BusState
    decreases n
  {
    if n == 0 then b else BusRead(AfterReads(b, addr, n - 1), At(addr, n - 1), 8).0
  }

  /** What the i-th of these reads delivers, or 0. */
  function Delivers(b: BusState, addr: Word, i: nat): Byte {
    match BusRead(AfterReads(b, addr, i), At(addr, i), 8).1
    case Some(v) => v % 0x100
    case None => 0
  }

  /**
   * text is the longest readable run at addr, addr + 1, ... modulo 2^32, of length at most count, as it is read in
   * order.
   */
  ghost predicate LongestPrefix(b: BusState, addr: Word, count: nat, text: seq<Byte>) {
    && |text| <= count
    && (forall i :: 0 <= i < |text| ==> Readable(b, At(addr, i)) && text[i] == Delivers(b, addr, i))
    && (|text| < count ==> !Readable(b, At(addr, |text|)))
  }

  /** Reading changes neither RAM nor which addresses can be read. */
  ghost predicate SameMemory(b: BusState, b': BusState) {
    RamView(b') == RamView(b) && b'.slots == b.slots && b'.halted == b.halted && b'.exitCode == b.exitCode
    && forall a: Word :: Readable(b', a) == Readable(b, a) && Peek(b', a) == Peek(b, a)
  }

  lemma ReadSucceeds(b: BusState, addr: Word)
    ensures BusRead(b, addr, 8).1.Some? <==> Readable(b, addr)
    ensures !Readable(b, addr) ==> BusRead(b, addr, 8).0 == b
    ensures Peek(b, addr).Some? ==> BusRead(b, addr, 8) == (b, Peek(b, addr))
  {
    hide Lookup, UartRead;
    var d := Owner(b, addr);
    if d.Some? && b.devs[d.value].Ram? && Holds(b.devs[d.value].base, |b.devs[d.value].bytes|, addr, 1) {
      var offset: nat := addr - b.devs[d.value].base;
      assert b.devs[d.value].bytes[offset..offset + 1] == [b.devs[d.value].bytes[offset]];
      OneByte(b.devs[d.value].bytes[offset]);
    }
  }

  lemma ReadKeepsMemory(b: BusState, addr: Word)
    ensures SameMemory(b, BusRead(b, addr, 8).0)
  {
    hide Lookup, UartRead, RamRead, RamView, Holds;
    ReadKeeps(b, addr, 8);
  }

  lemma {:induction false} ReadsKeepMemory(b: BusState, addr: Word, n: nat)
    ensures SameMemory(b, AfterReads(b, addr, n))
    decreases n
  {
    hide BusRead, Readable, Peek, RamView;
    if n > 0 {
      ReadsKeepMemory(b, addr, n - 1);
      ReadKeepsMemory(AfterReads(b, addr, n - 1), At(addr, n - 1));
    }
  }

  /** Reads continued from the next address. */
  lemma {:induction false} ReadsShift(b: BusState, addr: Word, n: nat)
    ensures AfterReads(BusRead(b, addr, 8).0, At(addr, 1), n) == AfterReads(b, addr, n + 1)
    ensures Delivers(BusRead(b, addr, 8).0, At(addr, 1), n) == Delivers(b, addr, n + 1)
    decreases n
  {
    hide BusRead, At;
    AtNext(addr, n);
    if n > 0 {
      ReadsShift(b, addr, n - 1);
      AtNext(addr, n - 1);
    }
  }

  lemma {:induction false} EmitsLongestPrefix(b: BusState, addr: Word, count: nat)
    ensures var (text, b') := Emit(b, addr, count);
      LongestPrefix(b, addr, count, text) && b' == AfterReads(b, addr, |text|)
    decreases count
  {
    hide BusRead, Peek, Readable, RamView;
    if count > 0 {
      AtNext(addr, 0);
      ReadSucceeds(b, addr);
      if Readable(b, addr) {
        var b1 := BusRead(b, addr, 8).0;
        EmitsLongestPrefix(b1, At(addr, 1), count - 1);
        PrefixExtends(b, addr, count, Emit(b1, At(addr, 1), count - 1).0);
        ReadsShift(b, addr, |Emit(b1, At(addr, 1), count - 1).0|);
      }
    }
  }

  lemma PrefixExtends(b: BusState, addr: Word, count: nat, rest: seq<Byte>)
    requires 0 < count && Readable(b, addr) && LongestPrefix(BusRead(b, addr, 8).0, At(addr, 1), count - 1, rest)
    ensures LongestPrefix(b, addr, count, [Delivers(b, addr, 0)] + rest)
  {
    hide Readable, At, BusRead, Delivers, Peek, RamView;
    var text := [Delivers(b, addr, 0)] + rest;
    ReadKeepsMemory(b, addr);
    AtNext(addr, 0);
    forall i | 0 <= i < |text|
      ensures Readable(b, At(addr, i)) && text[i] == Delivers(b, addr, i)
    {
      if i > 0 {
        AtNext(addr, i - 1);
        ReadsShift(b, addr, i - 1);
      }
    }
    AtNext(addr, |rest|);
  }

  lemma PrefixIsUnique(b: BusState, addr: Word, count: nat, s: seq<Byte>, t: seq<Byte>)
    requires LongestPrefix(b, addr, count, s) && LongestPrefix(b, addr, count, t)
    ensures s == t
  {
    hide Readable, At, Delivers;
    assert |s| == |t|;
  }

  /** Every byte of the prefix that comes from RAM is the one that RAM holds. */
  lemma PrefixHoldsRam(b: BusState, addr: Word, count: nat, text: seq<Byte>, i: nat)
    requires LongestPrefix(b, addr, count, text) && i < |text| && Peek(b, At(addr, i)).Some?
    ensures Some(text[i]) == Peek(b, At(addr, i))
  {
    hide Readable, BusRead, Peek, RamView, At;
    ReadsKeepMemory(b, addr, i);
    ReadSucceeds(AfterReads(b, addr, i), At(addr, i));
  }

  /** Where no UART is read, reading has no side effect. */
  lemma {:induction false} QuietReads(b: BusState, addr: Word, n: nat)
    requires forall i :: 0 <= i < n ==> Quiet(b, At(addr, i))
    ensures AfterReads(b, addr, n) == b
    decreases n
  {
    hide BusRead, Peek, Readable, At, Quiet;
    if n > 0 {
      QuietReads(b, addr, n - 1);
      QuietRead(b, At(addr, n - 1));
    }
  }

  /** The step at e is an ECALL for write(a0, a1, a2). */
  predicate CallsWrite(e: EmuState) {
    !Halted(e) && AtEcall(e.m) && e.m.gpr[17] == 64
  }

  /** e' is e after a write call that sent text to descriptor fd. */
  ghost predicate Wrote(e: EmuState, e': EmuState, fd: Word, text: seq<Byte>) {
    var b := Fetch(e.m).bus;
    && |text| < 0x1_0000_0000
    && e'.m == Machine(e.m.gpr[0 := 0][10 := |text|], e.m.csr, Wrap(e.m.pc + 4), AfterReads(b, e.m.gpr[11], |text|))
    && SameMemory(b, e'.m.bus)
    && e'.stdout == (if fd == 1 then e.stdout + text else e.stdout)
    && e'.stderr == (if fd == 2 then e.stderr + text else e.stderr)
    && e'.cycleCount == (e.cycleCount + 1) % U64
  }

  /**
   * write to stdout or stderr sends exactly the longest readable prefix of the buffer to that stream, sets a0 to its
   * length, resumes after the ECALL, and changes no other register, no CSR, no RAM byte and no halt field. RAM bytes
   * are sent as RAM holds them, and the bus ends up as those reads leave it, which is unchanged when none of them is of
   * a UART.
   */
  lemma WriteCall(e: EmuState)
    requires CallsWrite(e) && (e.m.gpr[10] == 1 || e.m.gpr[10] == 2)
    ensures var b := Fetch(e.m).bus; var addr, count := e.m.gpr[11], e.m.gpr[12]; exists text ::
      && LongestPrefix(b, addr, count, text)
      && Wrote(e, After(e), e.m.gpr[10], text)
      && (forall i: nat :: i < |text| && Peek(b, At(addr, i)).Some? ==> Some(text[i]) == Peek(b, At(addr, i)))
      && ((forall i :: 0 <= i < count ==> Quiet(b, At(addr, i))) ==> After(e).m.bus == b)
    ensures EmuStep(e).1.trap == TRAP_NONE
  {
    hide Fetch, AtEcall, Emit, LongestPrefix, Step, Quiet, Wrap, Peek, At, AfterReads, SameMemory;
    EcallStep(e.m);
    var b, addr, count := Fetch(e.m).bus, e.m.gpr[11], e.m.gpr[12];
    EmitsLongestPrefix(b, addr, count);
    var text := Emit(b, addr, count).0;
    assert |text| <= count by { PrefixLength(b, addr, count, text); }
    forall i: nat | i < |text| && Peek(b, At(addr, i)).Some?
      ensures Some(text[i]) == Peek(b, At(addr, i))
    {
      PrefixHoldsRam(b, addr, count, text, i);
    }
    ReadsKeepMemory(b, addr, |text|);
    if forall i :: 0 <= i < count ==> Quiet(b, At(addr, i)) { QuietReads(b, addr, |text|); }
  }

  lemma PrefixLength(b: BusState, addr: Word, count: nat, text: seq<Byte>)
    requires LongestPrefix(b, addr, count, text)
    ensures |text| <= count
  {}

  /** An ECALL steps over itself and leaves the rest to the emulator. */
  lemma EcallStep(m: Machine)
    requires AtEcall(m)
    ensures Step(m).0 == Machine(m.gpr[0 := 0], m.csr, Wrap(m.pc + 4), Fetch(m).bus) && Step(m).1.trap == TRAP_ECALL_M
  {
    hide Fetch, OpOf, Exec, Decode;
    DecodeOp(Fetch(m).w);
    ExecIsOther(m.(bus := Fetch(m).bus), Decode(Fetch(m).w));
  }

  /** Any other descriptor is refused with -1 and nothing is sent. */
  lemma WriteRefused(e: EmuState)
    requires CallsWrite(e) && e.m.gpr[10] != 1 && e.m.gpr[10] != 2
    ensures var e' := After(e);
      && e'.m == Machine(e.m.gpr[0 := 0][10 := 0xFFFF_FFFF], e.m.csr, Wrap(e.m.pc + 4), Fetch(e.m).bus)
      && e'.stdout == e.stdout && e'.stderr == e.stderr
  {
    hide Fetch, AtEcall, Emit, Step, Wrap;
    EcallStep(e.m);
  }
}
