/** Which bytes each load and store transfers, and what becomes of them. */
module AccessLaws {
  import opened Words
  import opened Instructions
  import opened Encoding
  import opened Platform
  import opened Isa
  import opened Replay
  import opened RegisterLaws

  /** Byte i of a word, from the low end. */
  function ByteOf(v: Word, i: nat): Byte
    requires i < 4
  {
    if i == 0 then v % 0x100 else if i == 1 then v / 0x100 % 0x100 else if i == 2 then v / 0x1_0000 % 0x100
    else v / 0x100_0000
  }

  /** The number that four bytes spell, least significant first. */
  function Spell(b0: int, b1: int, b2: int, b3: int): int {
    b0 + 0x100 * b1 + 0x1_0000 * b2 + 0x100_0000 * b3
  }

  /** The number that n bytes spell, the byte at the lowest address being the least significant. */
  function NumberAt(bytes: seq<Byte>, at: nat, n: nat): int
    requires (n == 1 || n == 2 || n == 4) && at + n <= |bytes|
  {
    if n == 1 then Spell(bytes[at], 0, 0, 0)
    else if n == 2 then Spell(bytes[at], bytes[at + 1], 0, 0)
    else Spell(bytes[at], bytes[at + 1], bytes[at + 2], bytes[at + 3])
  }

  lemma BytesOfWord(v: Word)
    ensures ToBytes(v % 0x100, 1) == [ByteOf(v, 0)]
    ensures ToBytes(v % 0x1_0000, 2) == [ByteOf(v, 0), ByteOf(v, 1)]
    ensures ToBytes(v, 4) == [ByteOf(v, 0), ByteOf(v, 1), ByteOf(v, 2), ByteOf(v, 3)]
  {
    hide *;
    LowByteOf(v);
    LowHalfOf(v);
    FourBytesOf(v);
  }

  lemma LowByteOf(v: Word)
    ensures ToBytes(v % 0x100, 1) == [ByteOf(v, 0)]
  {
    hide ToBytes;
    OneByteOf(v % 0x100);
  }

  lemma LowHalfOf(v: Word)
    ensures ToBytes(v % 0x1_0000, 2) == [ByteOf(v, 0), ByteOf(v, 1)]
  {
    hide ToBytes;
    var h := v % 0x1_0000;
    TwoBytesOf(h);
    HalfOf(v);
    assert h / 0x100 % 0x100 == h / 0x100;
  }

  lemma HalfOf(v: Word)
    ensures v % 0x1_0000 % 0x100 == v % 0x100 && v % 0x1_0000 / 0x100 == v / 0x100 % 0x100
  {
    var q, r := v / 0x1_0000, v % 0x1_0000;
    QuotRem(v, 0x100, 0x100 * q + r / 0x100, r % 0x100);
    QuotRem(v / 0x100, 0x100, q, r / 0x100);
  }

  lemma OneByteOf(v: nat)
    ensures ToBytes(v, 1) == [v % 0x100]
  {
    assert ToBytes(v / 0x100, 0) == [];
  }

  lemma TwoBytesOf(v: nat)
    ensures ToBytes(v, 2) == [v % 0x100, v / 0x100 % 0x100]
  {
    OneByteOf(v / 0x100);
    assert ToBytes(v, 2) == [v % 0x100] + ToBytes(v / 0x100, 1);
  }

  lemma FourBytesOf(v: Word)
    ensures ToBytes(v, 4) == [ByteOf(v, 0), ByteOf(v, 1), ByteOf(v, 2), ByteOf(v, 3)]
  {
    TwoBytesOf(v / 0x1_0000);
    DivDiv(v, 0x100, 0x100);
    DivDiv(v, 0x1_0000, 0x100);
    assert ToBytes(v / 0x100, 3) == [v / 0x100 % 0x100] + ToBytes(v / 0x1_0000, 2);
    assert ToBytes(v, 4) == [v % 0x100] + ToBytes(v / 0x100, 3);
  }

  lemma NumberOfBytes(bytes: seq<Byte>, at: nat, n: nat)
    requires (n == 1 || n == 2 || n == 4) && at + n <= |bytes|
    ensures LittleEndian(bytes[at..at + n]) == NumberAt(bytes, at, n)
  {
    var s := bytes[at..at + n];
    Spelled(s);
    assert forall i :: 0 <= i < n ==> s[i] == bytes[at + i];
  }

  lemma Spelled(s: seq<Byte>)
    ensures |s| == 1 ==> LittleEndian(s) == Spell(s[0], 0, 0, 0)
    ensures |s| == 2 ==> LittleEndian(s) == Spell(s[0], s[1], 0, 0)
    ensures |s| == 4 ==> LittleEndian(s) == Spell(s[0], s[1], s[2], s[3])
  {
    if |s| == 1 {
      assert s[1..] == [];
    } else if |s| == 2 {
      Spelled(s[1..]);
    } else if |s| == 4 {
      assert s[1..][1..] == s[2..];
      Spelled(s[2..]);
      assert LittleEndian(s[1..]) == s[1] + 0x100 * LittleEndian(s[2..]);
    }
  }

  // Widths.

  predicate StoresBytes(op: Op, n: nat) {
    (op == SB && n == 1) || (op == SH && n == 2) || (op == SW && n == 4)
  }

  predicate LoadsBytes(op: Op, n: nat) {
    || ((op == LB || op == LBU) && n == 1)
    || ((op == LH || op == LHU) && n == 2)
    || (op == LW && n == 4)
  }

  lemma DecodedStore(w: Word, n: nat)
    requires StoresBytes(OpOf(w), n)
    ensures var di := Decode(w); di.rs1 == Rs1Of(w) && di.rs2 == Rs2Of(w) && di.imm == Wrap(ImmS(w))
  {
    hide Decode, OpOf, Rs1Of, Rs2Of, ImmS;
    DecodeOp(w);
    OperandsReading(w);
  }

  lemma WrapTwice(a: Word, x: int)
    ensures Wrap(a + Wrap(x)) == Wrap(a + x)
  {
    ModAdd(x, a, 0x1_0000_0000);
  }

  /** The low n bytes of a word as a number. */
  function LowBytes(v: Word, n: nat): Word {
    if n == 1 then v % 0x100 else if n == 2 then v % 0x1_0000 else v
  }

  // Stores.

  /** The address of the store at m. */
  function StoreAddress(m: Machine): Word { Wrap(Source1(m) + ImmS(WordAt(m))) }

  /** The address of the load at m. */
  function LoadAddress(m: Machine): Word { Wrap(Source1(m) + ImmI(WordAt(m))) }

  /** Device d of b is a RAM and answers at addr. */
  predicate InRam(b: BusState, addr: Word, d: nat) {
    Owner(b, addr) == Some(d) && b.devs[d].Ram? && b.devs[d].base <= addr
  }

  /** b' is b with the n low bytes of v at place at of RAM d, the least significant first. */
  ghost predicate BytesStored(b: BusState, b': BusState, d: nat, at: nat, n: nat, v: Word)
    requires n <= 4 && d < |b.devs| && b.devs[d].Ram?
  {
    && |b'.devs| == |b.devs| && b' == b.(devs := b'.devs)
    && (forall i: nat :: i < |b.devs| && i != d ==> b'.devs[i] == b.devs[i])
    && b'.devs[d].Ram? && b'.devs[d].base == b.devs[d].base && |b'.devs[d].bytes| == |b.devs[d].bytes|
    && forall k: nat :: k < |b.devs[d].bytes| ==>
         b'.devs[d].bytes[k] == (if at <= k < at + n then ByteOf(v, k - at) else b.devs[d].bytes[k])
  }

  lemma RamStore(b: BusState, addr: Word, v: Word, op: Op, n: nat, d: nat)
    requires StoresBytes(op, n) && InRam(b, addr, d)
    ensures var at := addr - b.devs[d].base; var w := BusWrite(b, addr, Truncate(op, v), AccessSize(op));
      if at + n <= |b.devs[d].bytes| then w.Some? && BytesStored(b, w.value, d, at, n, v) else w.None?
    ensures AccessSize(op) == 8 * n && Truncate(op, v) == LowBytes(v, n)
  {
    hide Owner, ToBytes, ByteOf, Splice, Truncate, AccessSize, StoresBytes;
    StoredBytes(v, op, n);
    var ram, at, patch := b.devs[d], addr - b.devs[d].base, ToBytes(Truncate(op, v), n);
    if at + n <= |ram.bytes| { SpliceBytes(ram.bytes, at, patch); }
  }

  lemma StoredBytes(v: Word, op: Op, n: nat)
    requires StoresBytes(op, n)
    ensures AccessSize(op) == 8 * n && n <= 4 && Truncate(op, v) == LowBytes(v, n)
    ensures forall i: nat :: i < n ==> ToBytes(Truncate(op, v), n)[i] == ByteOf(v, i)
  {
    hide ToBytes, ByteOf;
    BytesOfWord(v);
  }

  lemma SpliceBytes(bytes: seq<Byte>, at: nat, patch: seq<Byte>)
    requires at + |patch| <= |bytes|
    ensures forall k: nat :: k < |bytes| ==>
      Splice(bytes, at, patch)[k] == if at <= k < at + |patch| then patch[k - at] else bytes[k]
  {}

  /**
   * SB, SH and SW at an address that a RAM answers retire exactly when 1, 2 or 4 bytes fit there. They change exactly
   * those bytes, to the low bytes of x[rs2], the least significant first; nothing else changes but the pc.
   */
  lemma StoreStep(m: Machine, op: Op, n: nat, d: nat)
    requires Runs(m, op) && StoresBytes(op, n) && InRam(Fetch(m).bus, StoreAddress(m), d)
    ensures var b := Fetch(m).bus; var at := StoreAddress(m) - b.devs[d].base;
      if at + n <= |b.devs[d].bytes| then
        && Step(m).1.trap == TRAP_NONE && BytesStored(b, Next(m).bus, d, at, n, Source2(m))
        && Next(m).gpr == m.gpr[0 := 0] && Next(m).csr == m.csr && Next(m).pc == Wrap(m.pc + 4)
        && Step(m).1.store == Some(Access(StoreAddress(m), LowBytes(Source2(m), n), 8 * n))
      else Step(m).1.trap == TRAP_STORE_ACCESS_FAULT && Next(m).bus == b
  {
    hide Fetch, Exec, Decode, OpOf, Rs1Of, Rs2Of, ImmS, Wrap, RecordedWrite, TrapCsr, Vector;
    hide BusWrite, Truncate, AccessSize, BytesStored, InRam, StoresBytes;
    var w := Fetch(m).w;
    IsAStore(op, n);
    DecodeOp(w);
    DecodedStore(w, n);
    WrapTwice(Source1(m), ImmS(w));
    ExecIsStore(m.(bus := Fetch(m).bus), Decode(w));
    RamStore(Fetch(m).bus, StoreAddress(m), Source2(m), op, n, d);
  }

  lemma IsAStore(op: Op, n: nat)
    requires StoresBytes(op, n)
    ensures IsStore(op) && op != Unknown && n <= 4
  {}

  // Loads.

  /** What a load makes of the number it reads: the number, or the word that holds it as a signed number. */
  ghost predicate Extended(op: Op, u: int, v: Word) {
    match op
    case LB => v % 0x100 == u && (if u < 0x80 then v < 0x80 else v >= 0xFFFF_FF80)
    case LH => v % 0x1_0000 == u && (if u < 0x8000 then v < 0x8000 else v >= 0xFFFF_8000)
    case _ => v == u
  }

  lemma RamLoad(b: BusState, addr: Word, op: Op, n: nat, d: nat)
    requires LoadsBytes(op, n) && InRam(b, addr, d)
    ensures var at := addr - b.devs[d].base; var (b', r) := BusRead(b, addr, AccessSize(op));
      && b' == b
      && (if at + n <= |b.devs[d].bytes|
          then r.Some? && r.value == NumberAt(b.devs[d].bytes, at, n) && Extended(op, r.value, Extend(op, r.value))
          else r.None?)
    ensures AccessSize(op) == 8 * n
  {
    hide Owner, LittleEndian, NumberAt, Extend, Extended;
    var ram, at := b.devs[d], addr - b.devs[d].base;
    if at + n <= |ram.bytes| {
      NumberOfBytes(ram.bytes, at, n);
      NumberBound(ram.bytes, at, n);
      ExtendMeans(op, n, NumberAt(ram.bytes, at, n));
    }
  }

  lemma NumberBound(bytes: seq<Byte>, at: nat, n: nat)
    requires (n == 1 || n == 2 || n == 4) && at + n <= |bytes|
    ensures 0 <= NumberAt(bytes, at, n) < 0x1_0000_0000
    ensures n == 1 ==> NumberAt(bytes, at, n) < 0x100
    ensures n == 2 ==> NumberAt(bytes, at, n) < 0x1_0000
  {}

  lemma ExtendMeans(op: Op, n: nat, u: Word)
    requires LoadsBytes(op, n) && (n == 1 ==> u < 0x100) && (n == 2 ==> u < 0x1_0000)
    ensures Extended(op, u, Extend(op, u))
  {
    match op
    case LB => SignedValue(u, 0x100);
    case LH => SignedValue(u, 0x1_0000);
    case _ =>
  }

  lemma SignedValue(u: Word, p: nat)
    requires (p == 0x100 || p == 0x1_0000) && u < p
    ensures var v := Wrap(Twos(u, p)); v % p == u && if 2 * u < p then v == u else v == 0x1_0000_0000 - p + u
  {
    QuotRem(u, p, 0, u);
    if 2 * u >= p {
      QuotRem(u - p, 0x1_0000_0000, -1, 0x1_0000_0000 - p + u);
      QuotRem(0x1_0000_0000 - p + u, p, 0x1_0000_0000 / p - 1, u);
    }
  }

  /**
   * LB, LBU, LH, LHU and LW at an address that a RAM answers retire exactly when 1, 2 or 4 bytes fit there. They read
   * the number that those bytes spell and put it, sign- or zero-extended, into rd; the record names address, value and
   * width.
   */
  lemma LoadStep(m: Machine, op: Op, n: nat, d: nat)
    requires Runs(m, op) && LoadsBytes(op, n) && InRam(Fetch(m).bus, LoadAddress(m), d)
    ensures var ram := Fetch(m).bus.devs[d]; var at := LoadAddress(m) - ram.base;
      if at + n <= |ram.bytes| then
        exists v: Word ::
          && Retires(m, v) && Extended(op, NumberAt(ram.bytes, at, n), v)
          && Step(m).1.load == Some(Access(LoadAddress(m), v, 8 * n))
      else Step(m).1.trap == TRAP_LOAD_ACCESS_FAULT && Next(m).bus == Fetch(m).bus
  {
    hide Fetch, Exec, Decode, OpOf, Rs1Of, RdOf, ImmI, RecordedWrite, TrapCsr, Vector;
    hide BusRead, AccessSize, Extend, Extended, NumberAt, InRam, Wrap;
    var w := Fetch(m).w;
    IsALoad(op, n);
    DecodeOp(w);
    DecodedI(w);
    WrapTwice(Source1(m), ImmI(w));
    ExecIsLoad(m.(bus := Fetch(m).bus), Decode(w));
    RamLoad(Fetch(m).bus, LoadAddress(m), op, n, d);
    if Step(m).1.trap == TRAP_NONE {
      var r := BusRead(Fetch(m).bus, LoadAddress(m), AccessSize(op)).1;
      assert Retires(m, Extend(op, r.value));
    }
  }

  lemma IsALoad(op: Op, n: nat)
    requires LoadsBytes(op, n)
    ensures IsLoad(op) && op != Unknown && KindOf(op) == KindI && (n == 1 || n == 2 || n == 4)
  {}

  /**
   * A load of the same width right after a store to the same address gives back the low bytes of the stored register:
   * all of it after SW, the low half or byte, zero- or sign-extended, after SH or SB.
   */
  lemma StoreThenLoad(m: Machine, store: Op, load: Op, n: nat, d: nat)
    requires Runs(m, store) && StoresBytes(store, n) && InRam(Fetch(m).bus, StoreAddress(m), d)
    requires Step(m).1.trap == TRAP_NONE && Runs(Next(m), load) && LoadsBytes(load, n)
    requires Fetch(Next(m)).bus == Next(m).bus && LoadAddress(Next(m)) == StoreAddress(m)
    ensures exists v: Word :: Retires(Next(m), v) && Extended(load, LowBytes(Source2(m), n), v)
  {
    hide Fetch, OpOf, Step, Next, ByteOf, StoreAddress, LoadAddress, Source2, Extended, NumberAt, Retires, Lookup;
    StoreStep(m, store, n, d);
    var b, v := Next(m), Source2(m);
    OwnerKept(Fetch(m).bus, b.bus, StoreAddress(m));
    LoadStep(b, load, n, d);
    NumberOfWord(b.bus.devs[d].bytes, StoreAddress(m) - b.bus.devs[d].base, n, v);
  }

  lemma OwnerKept(b: BusState, b': BusState, addr: Word)
    requires b'.slots == b.slots && |b'.devs| == |b.devs|
    ensures Owner(b', addr) == Owner(b, addr)
  {
    hide Lookup;
  }

  lemma NumberOfWord(bytes: seq<Byte>, at: nat, n: nat, v: Word)
    requires (n == 1 || n == 2 || n == 4) && at + n <= |bytes|
    requires forall k: nat :: at <= k < at + n ==> bytes[k] == ByteOf(v, k - at)
    ensures NumberAt(bytes, at, n) == LowBytes(v, n)
  {
    HalfOf(v);
    WordOfBytes(v);
  }

  lemma WordOfBytes(v: Word)
    ensures v == Spell(ByteOf(v, 0), ByteOf(v, 1), ByteOf(v, 2), ByteOf(v, 3))
  {
    DivDiv(v, 0x100, 0x100);
    DivDiv(v, 0x1_0000, 0x100);
  }

  // Records.

  /** Every record names the pc, the fetched word and the next pc; it names a load or store only at one that retires. */
  lemma RecordHeader(m: Machine)
    ensures var r := Step(m).1;
      && r.pc == m.pc && r.instruction == WordAt(m) && r.nextPc == Next(m).pc
      && (r.load.Some? ==> IsLoad(OpOf(WordAt(m))) && r.trap == TRAP_NONE)
      && (r.store.Some? ==> IsStore(OpOf(WordAt(m))) && r.trap == TRAP_NONE)
  {
    hide Fetch, Exec, Decode, OpOf, RecordedWrite, TrapCsr, Vector, IsLoad, IsStore;
    FaultCauses(m);
    if Fetch(m).GotWord? {
      DecodeOp(Fetch(m).w);
      NoStrayAccess(m.(bus := Fetch(m).bus), Decode(Fetch(m).w));
    }
  }

  /**
   * The record names rd and its new value exactly when the step retires, rd is not x0, and the word is not a branch or
   * a store; so a fence whose rd field is not 0 is recorded as a write of the value that is already there.
   */
  lemma RecordedRegister(m: Machine)
    ensures var r, op := Step(m).1, OpOf(WordAt(m));
      r.write ==
        if r.trap == TRAP_NONE && Dest(m) != 0 && !IsBranch(op) && !IsStore(op)
        then Some(RegWrite(Dest(m), Next(m).gpr[Dest(m)])) else None
  {
    hide Fetch, Exec, Decode, OpOf, TrapCsr, Vector, IsBranch, IsStore, RdOf;
    FaultCauses(m);
    if Fetch(m).GotWord? && OpOf(Fetch(m).w) != Unknown {
      DecodedFormat(Fetch(m).w);
    }
  }

  lemma DecodedFormat(w: Word)
    requires OpOf(w) != Unknown
    ensures var di := Decode(w);
      if IsBranch(OpOf(w)) then di.format == FormatB
      else if IsStore(OpOf(w)) then di.format == FormatS
      else di.format != FormatB && di.format != FormatS && di.rd == RdOf(w)
  {
    hide OpOf, Decode, FormatOf, Row, RdOf, OpcodeOf, IsBranch, IsStore;
    DecodedRowOpcode(w);
    FormatIsOpcodes(w);
    FormatOfOpcodes(OpcodeOf(w));
    if IsBranch(OpOf(w)) || IsStore(OpOf(w)) { RowOfBranchOrStore(OpOf(w)); } else { RowOfOthers(OpOf(w)); }
  }

  lemma FormatIsOpcodes(w: Word)
    requires OpOf(w) != Unknown
    ensures Decode(w).format == FormatOf(OpcodeOf(w))
    ensures Decode(w).format != FormatB ==> Decode(w).rd == RdOf(w)
  {
    hide RdOf, Funct3Of, Funct7Of, ImmOf, OpcodeOf;
  }

  lemma NoStrayAccess(m: Machine, di: Decoded)
    ensures var e := Exec(m, di);
      e.Done? ==> (e.load.Some? ==> IsLoad(di.op)) && (e.store.Some? ==> IsStore(di.op))
  {
    hide Exec, Alu, BusRead, BusWrite, CsrGet, CsrPut, CsrResult, CsrOperand, MretStatus, Taken, Extend, Truncate;
    hide IsAlu, IsBranch, IsLoad, IsStore, IsCsr;
    if IsAlu(di.op) {
      ExecAlu(m, di);
    } else if di.op == JAL || di.op == JALR {
      ExecIsJump(m, di);
    } else if IsBranch(di.op) {
      ExecIsBranch(m, di);
    } else if IsLoad(di.op) {
      ExecIsLoad(m, di);
    } else if IsStore(di.op) {
      ExecIsStore(m, di);
    } else if IsCsr(di.op) {
      ExecIsCsr(m, di);
    } else {
      OtherOps(di.op);
      ExecIsOther(m, di);
    }
  }
}
