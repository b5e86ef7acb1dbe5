/** What a step of each register operation does to the registers, told by laws of its result. */
module RegisterLaws {
  import opened Words
  import opened Bits
  import opened Instructions
  import opened Encoding
  import opened Isa

  // What the step at m fetches, and the registers that the fetched word names.

  predicate Runs(m: Machine, op: Op) {
    Fetch(m).GotWord? && OpOf(Fetch(m).w) == op
  }

  function Source1(m: Machine): Word { m.gpr[Rs1Of(WordAt(m))] }
  function Source2(m: Machine): Word { m.gpr[Rs2Of(WordAt(m))] }
  function Dest(m: Machine): Reg { RdOf(WordAt(m)) }

  /**
   * The step at m retires with v in its rd, x0 being zero, and changes nothing else but the pc and a UART it fetched
   * from.
   */
  ghost predicate Retires(m: Machine, v: Word) {
    && Next(m) == Machine(m.gpr[Dest(m) := v][0 := 0], m.csr, Wrap(m.pc + 4), Fetch(m).bus)
    && Step(m).1.trap == TRAP_NONE
  }

  // Decoded operands of known words.

  lemma DecodedR(w: Word)
    requires KindOf(OpOf(w)) == KindR
    ensures var di := Decode(w); di.rd == RdOf(w) && di.rs1 == Rs1Of(w) && di.rs2 == Rs2Of(w)
  {
    hide Decode, OpOf, RdOf, Rs1Of, Rs2Of;
    DecodeOp(w);
    OperandsReading(w);
  }

  lemma DecodedI(w: Word)
    requires KindOf(OpOf(w)) == KindI || KindOf(OpOf(w)) == KindShift
    ensures var di := Decode(w); di.rd == RdOf(w) && di.rs1 == Rs1Of(w)
    ensures KindOf(OpOf(w)) == KindI ==> Decode(w).imm == Wrap(ImmI(w))
    ensures KindOf(OpOf(w)) == KindShift ==> Decode(w).imm == Rs2Of(w)
  {
    hide Decode, OpOf, RdOf, Rs1Of, Rs2Of, ImmI;
    DecodeOp(w);
    OperandsReading(w);
  }

  lemma DecodedU(w: Word)
    requires KindOf(OpOf(w)) == KindU
    ensures var di := Decode(w); di.rd == RdOf(w) && di.imm == ImmU(w)
  {
    hide Decode, OpOf, RdOf, ImmU;
    DecodeOp(w);
    OperandsReading(w);
  }

  lemma AluStep(m: Machine)
    requires Fetch(m).GotWord? && IsAlu(OpOf(Fetch(m).w)) && Decode(Fetch(m).w).rd == Dest(m)
    ensures var di := Decode(Fetch(m).w);
      Retires(m, Alu(di.op, m.gpr[di.rs1], m.gpr[di.rs2], di.imm, m.pc))
  {
    hide Fetch, Exec, Decode, OpOf, Alu, IsAlu, RdOf, RecordedWrite;
    var w := Fetch(m).w;
    DecodeOp(w);
    NoneUnknown();
    ExecAlu(m.(bus := Fetch(m).bus), Decode(w));
  }

  lemma NoneUnknown()
    ensures !IsAlu(Unknown)
  {}

  lemma BaseStep(m: Machine, op: Op)
    requires Runs(m, op) && IsBaseOp(op)
    ensures Retires(m, BaseResult(op, Source1(m), Source2(m)))
  {
    hide Fetch, Decode, OpOf, BaseResult, RdOf, Rs1Of, Rs2Of, Retires;
    BaseKind(op);
    DecodeOp(Fetch(m).w);
    DecodedR(Fetch(m).w);
    AluStep(m);
  }

  /**
   * A multiplication or division retires with the result that the laws of MulDivLaws are about, operands in this order.
   */
  lemma MulDivStep(m: Machine, op: Op)
    requires Runs(m, op) && IsMulDiv(op)
    ensures Retires(m, MulDiv(op, Source1(m), Source2(m)))
  {
    hide Fetch, Decode, OpOf, MulDiv, RdOf, Rs1Of, Rs2Of, Retires;
    MulDivKind(op);
    DecodeOp(Fetch(m).w);
    DecodedR(Fetch(m).w);
    AluStep(m);
  }

  lemma MulDivKind(op: Op)
    requires IsMulDiv(op)
    ensures KindOf(op) == KindR && IsAlu(op) && !IsImmediateOp(op) && !IsBaseOp(op)
  {}

  lemma BaseKind(op: Op)
    requires IsBaseOp(op)
    ensures KindOf(op) == KindR && IsAlu(op) && !IsImmediateOp(op)
  {}

  lemma ImmediateStep(m: Machine, op: Op)
    requires Runs(m, op) && IsImmediateOp(op) && op != LUI && op != AUIPC
    ensures Retires(m, ImmediateResult(op, Source1(m), Immediate(m), m.pc))
  {
    hide Fetch, Decode, OpOf, ImmediateResult, RdOf, Rs1Of, Rs2Of, Retires, ImmI;
    ImmediateKind(op);
    DecodeOp(Fetch(m).w);
    DecodedI(Fetch(m).w);
    AluStep(m);
  }

  lemma ImmediateKind(op: Op)
    requires IsImmediateOp(op) && op != LUI && op != AUIPC
    ensures KindOf(op) == if IsShift(op) then KindShift else KindI
  {}

  predicate IsShift(op: Op) {
    op.SLLI? || op.SRLI? || op.SRAI?
  }

  /** The operand that the word at m carries: the sign-extended immediate, or the amount of a shift. */
  function Immediate(m: Machine): Word {
    if IsShift(OpOf(WordAt(m))) then Rs2Of(WordAt(m)) else Wrap(ImmI(WordAt(m)))
  }

  // Addition and subtraction.

  /** ADD writes the number that gives x[rs1] back when x[rs2] is taken away, modulo 2^32. */
  lemma Addition(m: Machine)
    requires Runs(m, ADD)
    ensures exists v: Word :: Retires(m, v) && Wrap(v - Source2(m)) == Source1(m)
  {
    hide Fetch, OpOf, Retires, Source1, Source2;
    BaseStep(m, ADD);
    AddSub(Source1(m), Source2(m));
    assert Retires(m, Wrap(Source1(m) + Source2(m)));
  }

  /** SUB writes the number that gives x[rs1] back when x[rs2] is added, modulo 2^32. */
  lemma Subtraction(m: Machine)
    requires Runs(m, SUB)
    ensures exists v: Word :: Retires(m, v) && Wrap(v + Source2(m)) == Source1(m)
  {
    hide Fetch, OpOf, Retires, Source1, Source2;
    BaseStep(m, SUB);
    AddSub(Source1(m), Source2(m));
    assert Retires(m, Wrap(Source1(m) - Source2(m)));
  }

  lemma AddSub(a: Word, b: Word)
    ensures Wrap(Wrap(a + b) - b) == a && Wrap(Wrap(a - b) + b) == a
  {
    ModAdd(a + b, 0 - b, 0x1_0000_0000);
    ModAdd(a - b, b, 0x1_0000_0000);
  }

  /** ADD followed by SUB of the same register from the sum gives the first operand. */
  lemma SubAfterAdd(m: Machine)
    requires Runs(m, ADD) && Runs(Next(m), SUB)
    requires m.gpr[0] == 0 && Dest(m) != 0 && Dest(Next(m)) != 0
    requires Rs1Of(WordAt(Next(m))) == Dest(m) && Rs2Of(WordAt(Next(m))) == Rs2Of(WordAt(m)) != Dest(m)
    ensures Next(Next(m)).gpr[Dest(Next(m))] == Source1(m)
  {
    hide Fetch, OpOf, Next, Step, Runs, WordAt, Rs1Of, Rs2Of, RdOf;
    var n := Next(m);
    Addition(m);
    Subtraction(n);
    var v: Word :| Retires(m, v) && Wrap(v - Source2(m)) == Source1(m);
    var u: Word :| Retires(n, u) && Wrap(u + Source2(n)) == Source1(n);
    assert Source1(n) == v && Source2(n) == Source2(m);
    SameSum(u, Source2(m), v);
  }

  lemma SameSum(u: Word, b: Word, v: Word)
    requires Wrap(u + b) == v
    ensures Wrap(v - b) == u
  {
    ModAdd(u + b, 0 - b, 0x1_0000_0000);
  }

  // Logic.

  /** Every bit of v is both, either or exactly one of the bits of a and b. */
  ghost predicate Combines(op: Op, a: Word, b: Word, v: Word) {
    forall k: nat :: k < 32 ==>
      (BitAt(v, k) == 1 <==> if op == AND || op == ANDI then BitAt(a, k) == 1 && BitAt(b, k) == 1
                             else if op == OR || op == ORI then BitAt(a, k) == 1 || BitAt(b, k) == 1
                             else BitAt(a, k) != BitAt(b, k))
  }

  lemma LogicMeans(op: Op, a: Word, b: Word)
    ensures op == AND || op == ANDI ==> Combines(op, a, b, And(a, b))
    ensures op == OR || op == ORI ==> Combines(op, a, b, Or(a, b))
    ensures op == XOR || op == XORI ==> Combines(op, a, b, Xor(a, b))
  {
    hide And, Or, Xor, BitAt;
    forall k: nat | k < 32
      ensures BitAt(And(a, b), k) == 1 <==> BitAt(a, k) == 1 && BitAt(b, k) == 1
      ensures BitAt(Or(a, b), k) == 1 <==> BitAt(a, k) == 1 || BitAt(b, k) == 1
      ensures BitAt(Xor(a, b), k) == 1 <==> BitAt(a, k) != BitAt(b, k)
    {
      WordBits(a, b, k);
    }
  }

  /** AND, OR and XOR write, at every bit, both, either, or exactly one of the operands' bits. */
  lemma LogicBits(m: Machine, op: Op)
    requires Runs(m, op) && (op == AND || op == OR || op == XOR)
    ensures exists v: Word :: Retires(m, v) && Combines(op, Source1(m), Source2(m), v)
  {
    hide Fetch, OpOf, Retires, Source1, Source2, Combines, And, Or, Xor;
    BaseStep(m, op);
    LogicMeans(op, Source1(m), Source2(m));
  }

  /** ANDI, ORI and XORI do the same with the sign-extended immediate. */
  lemma ImmediateLogicBits(m: Machine, op: Op)
    requires Runs(m, op) && (op == ANDI || op == ORI || op == XORI)
    ensures exists v: Word :: Retires(m, v) && Combines(op, Source1(m), Immediate(m), v)
  {
    hide Fetch, OpOf, Retires, Source1, Immediate, Combines, And, Or, Xor;
    ImmediateStep(m, op);
    LogicMeans(op, Source1(m), Immediate(m));
  }

  // Shifts, by the low five bits of the amount.

  /** SLL moves bit k - n to bit k and clears the n lowest bits. */
  lemma LeftShift(m: Machine)
    requires Runs(m, SLL)
    ensures var n := Source2(m) % 32; exists v: Word :: Retires(m, v) && forall k: nat :: k < 32 ==>
      BitAt(v, k) == if k < n then 0 else BitAt(Source1(m), k - n)
  {
    hide Fetch, OpOf, Retires, Source1, Source2, BitAt, Pow2;
    BaseStep(m, SLL);
    var a, n := Source1(m), Source2(m) % 32;
    var v := Wrap(a * Pow2(n));
    assert Retires(m, v);
    forall k: nat | k < 32
      ensures BitAt(v, k) == if k < n then 0 else BitAt(a, k - n)
    {
      LeftBit(a, n, k);
    }
  }

  /** SRL moves bit k + n to bit k and clears the n highest bits; SRA fills them with the sign bit. */
  lemma RightShift(m: Machine, op: Op)
    requires Runs(m, op) && (op == SRL || op == SRA)
    ensures var n := Source2(m) % 32; exists v: Word :: Retires(m, v) && forall k: nat :: k < 32 ==>
      BitAt(v, k) == if k + n < 32 then BitAt(Source1(m), k + n) else if op == SRL then 0 else BitAt(Source1(m), 31)
  {
    hide Fetch, OpOf, Retires, Source1, Source2, BitAt, Pow2;
    BaseStep(m, op);
    var a, n := Source1(m), Source2(m) % 32;
    var v := if op == SRL then Wrap(a / Pow2(n)) else Wrap(Signed(a) / Pow2(n));
    assert Retires(m, v);
    forall k: nat | k < 32
      ensures BitAt(v, k) == if k + n < 32 then BitAt(a, k + n) else if op == SRL then 0 else BitAt(a, 31)
    {
      RightBit(a, n, k);
      ArithmeticBit(a, n, k);
    }
  }

  // Comparisons.

  /** SLTU writes 1 when x[rs1] is the smaller word and 0 otherwise. */
  lemma UnsignedCompare(m: Machine)
    requires Runs(m, SLTU)
    ensures exists v: Bit :: Retires(m, v) && (v == 1 <==> Source1(m) < Source2(m))
  {
    hide Fetch, OpOf, Retires, Source1, Source2;
    BaseStep(m, SLTU);
    var v: Bit := if Source1(m) < Source2(m) then 1 else 0;
    assert Retires(m, v);
  }

  /** SLT writes what SLTU writes for the same operands with both sign bits flipped. */
  lemma SignedCompare(m: Machine, n: Machine)
    requires Runs(m, SLT) && Runs(n, SLTU)
    requires Source1(n) == Xor(Source1(m), 0x8000_0000) && Source2(n) == Xor(Source2(m), 0x8000_0000)
    ensures exists v: Bit :: Retires(m, v) && Retires(n, v)
  {
    hide Fetch, OpOf, Retires, Source1, Source2, Xor;
    BaseStep(m, SLT);
    BaseStep(n, SLTU);
    FlipSign(Source1(m));
    FlipSign(Source2(m));
    var v: Bit := if Signed(Source1(m)) < Signed(Source2(m)) then 1 else 0;
    assert Retires(m, v) && Retires(n, v);
  }

  /** Of two comparisons with exchanged operands at most one writes 1, and none exactly when the operands are equal. */
  lemma Trichotomy(m: Machine, n: Machine, op: Op)
    requires Runs(m, op) && Runs(n, op) && (op == SLT || op == SLTU)
    requires Source1(n) == Source2(m) && Source2(n) == Source1(m)
    ensures exists v: Bit, u: Bit ::
      Retires(m, v) && Retires(n, u) && v + u <= 1 && (v + u == 0 <==> Source1(m) == Source2(m))
  {
    hide Fetch, OpOf, Retires, Source1, Source2;
    BaseStep(m, op);
    BaseStep(n, op);
    var v: Bit := BaseResult(op, Source1(m), Source2(m));
    var u: Bit := BaseResult(op, Source1(n), Source2(n));
    assert Retires(m, v) && Retires(n, u);
  }

  // Immediate operations.

  /** The register operation that an immediate operation stands for. */
  function RegisterForm(op: Op): Op {
    match op
    case ADDI => ADD case SLTI => SLT case SLTIU => SLTU case XORI => XOR case ORI => OR case ANDI => AND
    case SLLI => SLL case SRLI => SRL case SRAI => SRA case _ => op
  }

  /** An immediate operation writes what its register form writes when x[rs2] holds the sign-extended immediate. */
  lemma ImmediateForm(m: Machine, n: Machine, op: Op)
    requires Runs(m, op) && IsImmediateOp(op) && op != LUI && op != AUIPC && Runs(n, RegisterForm(op))
    requires Source1(n) == Source1(m) && Source2(n) == Immediate(m)
    ensures exists v: Word :: Retires(m, v) && Retires(n, v)
  {
    hide Fetch, OpOf, Retires, Source1, Source2, Immediate, And, Or, Xor, Pow2;
    RegisterFormIsBase(op);
    ImmediateStep(m, op);
    BaseStep(n, RegisterForm(op));
    var v := ImmediateResult(op, Source1(m), Immediate(m), m.pc);
    assert v == BaseResult(RegisterForm(op), Source1(m), Immediate(m)) by {
      SameResult(op, Source1(m), Immediate(m), m.pc);
    }
    assert Retires(m, v) && Retires(n, v);
  }

  lemma RegisterFormIsBase(op: Op)
    requires IsImmediateOp(op) && op != LUI && op != AUIPC
    ensures IsBaseOp(RegisterForm(op))
  {}

  lemma SameResult(op: Op, a: Word, imm: Word, pc: Word)
    requires IsImmediateOp(op) && op != LUI && op != AUIPC
    ensures ImmediateResult(op, a, imm, pc) == BaseResult(RegisterForm(op), a, imm)
  {
    hide And, Or, Xor, Pow2, Signed, Wrap;
  }

  /** LUI writes the upper 20 bits of its word; AUIPC writes that plus the pc. */
  lemma UpperStep(m: Machine, op: Op)
    requires Runs(m, op) && (op == LUI || op == AUIPC)
    ensures exists v: Word ::
      Retires(m, v) && (if op == LUI then v else Wrap(v - m.pc)) == WordAt(m) - WordAt(m) % 0x1000
  {
    hide Fetch, Decode, OpOf, RdOf, Retires, Wrap;
    var w := Fetch(m).w;
    DecodeOp(w);
    DecodedU(w);
    AluStep(m);
    AddSub(ImmU(w), m.pc);
    var v := if op == LUI then ImmU(w) else Wrap(m.pc + ImmU(w));
    assert Retires(m, v);
  }
}
