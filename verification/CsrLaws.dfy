/** CSR instructions act on the CSR file as on a map from addresses to words. */
module CsrLaws {
  import opened Words
  import opened Instructions
  import opened Platform
  import opened Isa
  import opened IllegalWords
  import opened Encoding
  import opened RegisterLaws

  /** The addresses of the CSRs that hold a value. */
  const LIVE: set<nat> := {0x300, 0x305, 0x340, 0x341, 0x342, 0x343}

  function View(csr: CsrFile): (v: map<nat, Word>)
    ensures v.Keys == LIVE
  {
    map[0x300 := csr.mstatus, 0x305 := csr.mtvec, 0x340 := csr.mscratch,
        0x341 := csr.mepc, 0x342 := csr.mcause, 0x343 := csr.mtval]
  }

  /** What a read returns: the map's word, or the constant of an identity or stub register. */
  function ReadMap(v: map<nat, Word>, addr: nat): Option<Word> {
    if addr in v then Some(v[addr])
    else if addr == 0x301 then Some(0x4000_1100)
    else if ZeroCsr(addr) then Some(0)
    else None
  }

  /** One atomic read-modify-write on the map. A zero rs1 field suppresses the write. */
  function RmwMap(v: map<nat, Word>, di: Decoded, operand: Word): map<nat, Word> {
    var addr := Funct12Of(di.instruction);
    if addr in v && di.rs1 != 0 then v[addr := CsrResult(di.op, v[addr], operand)] else v
  }

  lemma GetIsReadMap(csr: CsrFile, addr: nat)
    ensures CsrGet(csr, addr) == ReadMap(View(csr), addr)
  {}

  lemma PutIsUpdate(csr: CsrFile, addr: nat, value: Word)
    ensures View(CsrPut(csr, addr, value)) == if addr in LIVE then View(csr)[addr := value] else View(csr)
  {}

  /** A CSR instruction that does not trap reads one CSR into one register and rewrites at most that CSR. */
  lemma CsrInstruction(m: Machine, di: Decoded)
    requires IsCsr(di.op)
    ensures var addr := Funct12Of(di.instruction); var e := Exec(m, di);
      if ReadMap(View(m.csr), addr).None? then e == Fault(TRAP_ILLEGAL_INSTR, di.instruction, m.bus)
      else
        && e.Done? && e.gpr == SetReg(m.gpr, di.rd, ReadMap(View(m.csr), addr).value)
        && View(e.csr) == RmwMap(View(m.csr), di, CsrOperand(di, m.gpr))
        && e.bus == m.bus && e.nextPc == Wrap(m.pc + 4)
  {
    hide Exec, CsrGet, CsrPut, View, CsrResult, CsrOperand, Funct12Of, ReadMap;
    ExecIsCsr(m, di);
    var addr := Funct12Of(di.instruction);
    GetIsReadMap(m.csr, addr);
    LiveReads(m.csr, addr);
    if CsrGet(m.csr, addr).Some? {
      PutIsUpdate(m.csr, addr, CsrResult(di.op, CsrGet(m.csr, addr).value, CsrOperand(di, m.gpr)));
    }
  }

  lemma LiveReads(csr: CsrFile, addr: nat)
    ensures addr in LIVE ==> CsrGet(csr, addr) == Some(View(csr)[addr])
  {}

  // Sequences of CSR instructions.

  /** Registers, CSR file and the words read, after a sequence of CSR instructions; traps leave both files alone. */
  function RunCsr(m: Machine, dis: seq<Decoded>): Machine
    decreases |dis|
  {
    if dis == [] then m
    else
      match Exec(m, dis[0])
      case Done(gpr, csr, _, _, _, _) => RunCsr(m.(gpr := gpr, csr := csr), dis[1..])
      case _ => RunCsr(m, dis[1..])
  }

  /** The same sequence on a register file and an address-to-word map. */
  function RunMap(gpr: Registers, v: map<nat, Word>, dis: seq<Decoded>): (Registers, map<nat, Word>)
    decreases |dis|
  {
    if dis == [] then (gpr, v)
    else
      var di := dis[0];
      match ReadMap(v, Funct12Of(di.instruction))
      case None => RunMap(gpr, v, dis[1..])
      case Some(was) => RunMap(SetReg(gpr, di.rd, was), RmwMap(v, di, CsrOperand(di, gpr)), dis[1..])
  }

  lemma {:induction false} CsrFileIsAMap(m: Machine, dis: seq<Decoded>)
    requires forall di :: di in dis ==> IsCsr(di.op)
    ensures (RunCsr(m, dis).gpr, View(RunCsr(m, dis).csr)) == RunMap(m.gpr, View(m.csr), dis)
    decreases |dis|
  {
    hide Exec, View, ReadMap, RmwMap, CsrOperand, Funct12Of, IsCsr;
    if dis != [] {
      CsrInstruction(m, dis[0]);
      var e := Exec(m, dis[0]);
      if e.Done? {
        CsrFileIsAMap(m.(gpr := e.gpr, csr := e.csr), dis[1..]);
      } else {
        CsrFileIsAMap(m, dis[1..]);
      }
    }
  }

  /** Swapping a register other than x0 with a live CSR twice is the identity on both. */
  lemma SwapTwice(m: Machine, di: Decoded)
    requires di.op == CSRRW && di.rd == di.rs1 != 0 && Funct12Of(di.instruction) in LIVE && m.gpr[0] == 0
    ensures RunCsr(m, [di, di]).gpr == m.gpr && RunCsr(m, [di, di]).csr == m.csr
    ensures RunCsr(m, [di]).gpr[di.rd] == View(m.csr)[Funct12Of(di.instruction)]
  {
    hide Exec, Funct12Of, ReadMap, View, RunMap, RunCsr, SetReg, RmwMap;
    var v, addr := View(m.csr), Funct12Of(di.instruction);
    var g1, v1 := SetReg(m.gpr, di.rd, v[addr]), v[addr := m.gpr[di.rs1]];
    CsrFileIsAMap(m, [di, di]);
    CsrFileIsAMap(m, [di]);
    assert [di, di] == [di] + [di];
    OneSwap(m.gpr, v, di, [di]);
    OneSwap(g1, v1, di, []);
    SwapBack(m.gpr, di.rd, v[addr]);
    assert v1[addr := v[addr]] == v;
    ViewInjective(RunCsr(m, [di, di]).csr, m.csr);
  }

  lemma OneSwap(gpr: Registers, v: map<nat, Word>, di: Decoded, rest: seq<Decoded>)
    requires di.op == CSRRW && di.rs1 != 0 && Funct12Of(di.instruction) in v
    ensures var addr := Funct12Of(di.instruction); var g1, v1 := SetReg(gpr, di.rd, v[addr]), v[addr := gpr[di.rs1]];
      && RunMap(gpr, v, [di] + rest) == RunMap(g1, v1, rest)
      && RunMap(gpr, v, [di]) == (g1, v1)
  {
    hide Funct12Of, SetReg;
    LiveMap(v, Funct12Of(di.instruction));
    assert ([di] + rest)[1..] == rest && [di][1..] == [];
  }

  lemma SwapBack(gpr: Registers, rd: Reg, was: Word)
    requires rd != 0 && gpr[0] == 0
    ensures var g1 := SetReg(gpr, rd, was); g1[rd] == was && SetReg(g1, rd, gpr[rd]) == gpr
  {}

  lemma LiveMap(v: map<nat, Word>, addr: nat)
    requires addr in v
    ensures ReadMap(v, addr) == Some(v[addr])
  {}

  lemma ViewInjective(a: CsrFile, b: CsrFile)
    requires View(a) == View(b)
    ensures a == b
  {
    assert forall addr :: addr in LIVE ==> View(a)[addr] == View(b)[addr];
    assert 0x300 in LIVE && 0x305 in LIVE && 0x340 in LIVE && 0x341 in LIVE && 0x342 in LIVE && 0x343 in LIVE;
  }

  // One step that accesses a live CSR, told by the bits it leaves.

  predicate TakesRegister(op: Op) {
    op == CSRRW || op == CSRRS || op == CSRRC
  }

  /** The operand of the CSR instruction at m: x[rs1], or the rs1 field itself for the I forms. */
  function CsrSource(m: Machine, op: Op): Word {
    if TakesRegister(op) then Source1(m) else Rs1Of(WordAt(m))
  }

  /** Bit k of a CSR after CSRRW, CSRRS or CSRRC, or their I forms, by its bit and the operand's before. */
  function BitAfter(op: Op, was: Bit, operand: Bit): Bit {
    if op.CSRRW? || op.CSRRWI? then operand
    else if op.CSRRS? || op.CSRRSI? then (if was == 1 || operand == 1 then 1 else 0)
    else (if was == 1 && operand == 0 then 1 else 0)
  }

  lemma DecodedCsr(w: Word)
    requires IsCsr(OpOf(w))
    ensures var di := Decode(w); di.rd == RdOf(w) && di.rs1 == Rs1Of(w)
  {
    hide Decode, OpOf, RdOf, Rs1Of;
    DecodeOp(w);
    CsrKind(OpOf(w));
    OperandsReading(w);
  }

  lemma CsrKind(op: Op)
    requires IsCsr(op)
    ensures KindOf(op) == KindCsr && op != Unknown
  {}

  /**
   * A step that executes a CSR instruction on a live CSR puts the CSR's value into rd. With an rs1 field other than 0,
   * CSRRW leaves the operand in the CSR, CSRRS sets and CSRRC clears the bits that are 1 in the operand, and so do the
   * I forms; with rs1 field 0 the CSR stays. No other CSR changes.
   */
  lemma CsrStep(m: Machine, op: Op)
    requires Runs(m, op) && IsCsr(op) && Funct12Of(WordAt(m)) in LIVE
    ensures var addr, v, v' := Funct12Of(WordAt(m)), View(m.csr), View(Next(m).csr);
      && Step(m).1.trap == TRAP_NONE
      && Next(m).gpr == m.gpr[Dest(m) := v[addr]][0 := 0] && Next(m).pc == Wrap(m.pc + 4) && Next(m).bus == Fetch(m).bus
      && (forall a :: a in LIVE && a != addr ==> v'[a] == v[a])
      && (Rs1Of(WordAt(m)) == 0 ==> v'[addr] == v[addr])
      && (Rs1Of(WordAt(m)) != 0 ==> forall k: nat :: k < 32 ==>
            BitAt(v'[addr], k) == BitAfter(op, BitAt(v[addr], k), BitAt(CsrSource(m, op), k)))
      && (Rs1Of(WordAt(m)) != 0 && (op == CSRRW || op == CSRRWI) ==> v'[addr] == CsrSource(m, op))
  {
    hide Fetch, Exec, Decode, OpOf, Funct12Of, RdOf, Rs1Of, RecordedWrite, IsCsr;
    hide View, ReadMap, CsrResult, BitAt, BitAfter;
    var w, n := Fetch(m).w, m.(bus := Fetch(m).bus);
    CsrKind(op);
    DecodeOp(w);
    DecodedCsr(w);
    CsrInstruction(n, Decode(w));
    LiveMap(View(m.csr), Funct12Of(w));
    assert CsrOperand(Decode(w), m.gpr) == CsrSource(m, op) by { OperandIsSource(m, op); }
    CsrResultBits(op, View(m.csr)[Funct12Of(w)], CsrSource(m, op));
  }

  lemma OperandIsSource(m: Machine, op: Op)
    requires Runs(m, op) && IsCsr(op) && Decode(WordAt(m)).rs1 == Rs1Of(WordAt(m))
    ensures CsrOperand(Decode(WordAt(m)), m.gpr) == CsrSource(m, op)
  {
    hide Fetch, Decode, OpOf, Rs1Of;
    DecodeOp(WordAt(m));
  }

  lemma CsrResultBits(op: Op, was: Word, operand: Word)
    requires IsCsr(op)
    ensures op == CSRRW || op == CSRRWI ==> CsrResult(op, was, operand) == operand
    ensures forall k: nat :: k < 32 ==>
      BitAt(CsrResult(op, was, operand), k) == BitAfter(op, BitAt(was, k), BitAt(operand, k))
  {
    hide And, Or, Not, BitAt, BitAfter, IsCsr;
    forall k: nat | k < 32
      ensures BitAt(CsrResult(op, was, operand), k) == BitAfter(op, BitAt(was, k), BitAt(operand, k))
    {
      CsrResultBit(op, was, operand, k);
    }
  }

  lemma CsrResultBit(op: Op, was: Word, operand: Word, k: nat)
    requires IsCsr(op) && k < 32
    ensures BitAt(CsrResult(op, was, operand), k) == BitAfter(op, BitAt(was, k), BitAt(operand, k))
  {
    hide And, Or, Not, BitAt, CsrResult;
    CsrResultOf(op, was, operand);
    if op.CSRRS? || op.CSRRSI? { SetBit(was, operand, k); }
    if op.CSRRC? || op.CSRRCI? { ClearedBit(was, operand, k); }
  }

  lemma CsrResultOf(op: Op, was: Word, operand: Word)
    requires IsCsr(op)
    ensures op.CSRRW? || op.CSRRWI? ==> CsrResult(op, was, operand) == operand
    ensures op.CSRRS? || op.CSRRSI? ==> CsrResult(op, was, operand) == Or(was, operand)
    ensures op.CSRRC? || op.CSRRCI? ==> CsrResult(op, was, operand) == And(was, Not(operand))
  {
    hide And, Or, Not;
  }

  lemma SetBit(was: Word, operand: Word, k: nat)
    requires k < 32
    ensures BitAt(Or(was, operand), k) == if BitAt(was, k) == 1 || BitAt(operand, k) == 1 then 1 else 0
  {
    hide And, Or, Xor, Not, BitAt;
    WordBits(was, operand, k);
  }

  lemma ClearedBit(was: Word, operand: Word, k: nat)
    requires k < 32
    ensures BitAt(And(was, Not(operand)), k) == if BitAt(was, k) == 1 && BitAt(operand, k) == 0 then 1 else 0
  {
    hide And, Or, Xor, Not, BitAt;
    WordBits(operand, operand, k);
    WordBits(was, Not(operand), k);
  }

  // Departures from the standard: which writes are suppressed, which accesses trap, and the low bits of mepc.

  /** The instruction writes its CSR, by section 9.1 of the Unprivileged ISA. */
  predicate Writes(di: Decoded) {
    di.op == CSRRW || di.op == CSRRWI || di.rs1 != 0
  }

  /** The writes that section 9.1 asks for. What the CSR makes of the value written is not looked at. */
  function StandardMap(v: map<nat, Word>, di: Decoded, operand: Word): map<nat, Word> {
    var addr := Funct12Of(di.instruction);
    if addr in v && Writes(di) then v[addr := CsrResult(di.op, v[addr], operand)] else v
  }

  /**
   * On when a live CSR is written, the emulator agrees with section 9.1 except for a CSRRW or CSRRWI whose rs1 field is
   * 0 on a CSR that is not 0 already: that instruction should clear the CSR and here leaves it.
   */
  lemma ZeroSourceDeparture(m: Machine, di: Decoded)
    requires IsCsr(di.op) && m.gpr[0] == 0
    ensures var v := View(m.csr); var addr := Funct12Of(di.instruction);
      RmwMap(v, di, CsrOperand(di, m.gpr)) == StandardMap(v, di, CsrOperand(di, m.gpr))
      <==> !((di.op == CSRRW || di.op == CSRRWI) && di.rs1 == 0 && addr in v && v[addr] != 0)
  {
    hide Funct12Of, View, And, Or;
    var v, addr := View(m.csr), Funct12Of(di.instruction);
    if addr in v && di.rs1 == 0 && (di.op == CSRRW || di.op == CSRRWI) {
      assert StandardMap(v, di, CsrOperand(di, m.gpr))[addr] == 0;
      if v[addr] == 0 { assert v[addr := 0] == v; }
    }
  }

  /** The address's top bits 11 mark a read-only CSR (section 2.1 of the Privileged Architecture). */
  predicate ReadOnly(addr: nat) {
    addr / 0x400 == 3
  }

  /** A missing CSR, or a write to a read-only one, is an illegal instruction by the standard. */
  predicate StandardTraps(di: Decoded) {
    var addr := Funct12Of(di.instruction);
    !CsrExists(addr) || (ReadOnly(addr) && Writes(di))
  }

  /**
   * On which CSR instructions trap, the emulator agrees with the standard except for writes to the four identity
   * registers at 0xF11 to 0xF14: those should trap and are ignored here.
   */
  lemma ReadOnlyDeparture(m: Machine, di: Decoded)
    requires IsCsr(di.op)
    ensures var addr := Funct12Of(di.instruction);
      (Exec(m, di).Fault? <==> StandardTraps(di)) <==> !(0xF11 <= addr <= 0xF14 && Writes(di))
  {
    hide Exec, CsrGet, CsrPut, CsrResult, CsrOperand, Funct12Of, Writes, IsCsr, CsrExists;
    ExecIsCsr(m, di);
    CsrExistsIff(m.csr, Funct12Of(di.instruction));
    ReadOnlyAddresses(Funct12Of(di.instruction));
  }

  lemma ReadOnlyAddresses(addr: nat)
    ensures CsrExists(addr) && ReadOnly(addr) <==> 0xF11 <= addr <= 0xF14
  {}

  /**
   * mepc must be a multiple of 4 when all instructions are (section 3.1.14 of the Privileged Architecture). From such a
   * state a CSR instruction keeps it so except for a write of an operand that is not one, other than by CSRRC or
   * CSRRCI.
   */
  lemma MepcDeparture(m: Machine, di: Decoded)
    requires IsCsr(di.op) && Funct12Of(di.instruction) == 0x341 && m.csr.mepc % 4 == 0
    ensures var e := Exec(m, di);
      && e.Done?
      && (e.csr.mepc % 4 == 0
          <==> di.rs1 == 0 || di.op == CSRRC || di.op == CSRRCI || CsrOperand(di, m.gpr) % 4 == 0)
  {
    hide Exec, Funct12Of, CsrOperand, And, Or, Not;
    ExecIsCsr(m, di);
    LowBits(m.csr.mepc, CsrOperand(di, m.gpr));
  }

  lemma LowBits(a: Word, b: Word)
    requires a % 4 == 0
    ensures Or(a, b) % 4 == b % 4 && And(a, Not(b)) % 4 == 0
  {
    hide And, Or, Not, BitAt;
    LastTwo(a);
    LastTwo(b);
    LastTwo(Or(a, b));
    LastTwo(And(a, Not(b)));
    WordBits(a, b, 0);
    WordBits(a, b, 1);
    WordBits(a, Not(b), 0);
    WordBits(a, Not(b), 1);
  }

  lemma LastTwo(x: nat)
    ensures x % 4 == BitAt(x, 0) + 2 * BitAt(x, 1)
  {
    var q := x / 2 / 2;
    assert x == 4 * q + (2 * (x / 2 % 2) + x % 2);
    QuotRem(x, 4, q, 2 * (x / 2 % 2) + x % 2);
    assert BitAt(x, 1) == BitAt(x / 2, 0);
  }
}
