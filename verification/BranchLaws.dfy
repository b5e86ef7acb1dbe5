/** Where branches and jumps go, told by the comparison and subtraction instructions and by the words' own offsets. */
module BranchLaws {
  import opened Words
  import opened Instructions
  import opened Encoding
  import opened Isa
  import opened Bits
  import opened RegisterLaws

  /**
   * The step at m jumps to target, and puts gpr into the registers; a target that is not a multiple of 4 is a trap
   * instead, which leaves the registers alone and reports the target.
   */
  ghost predicate JumpsTo(m: Machine, target: Word, gpr: Registers) {
    if target % 4 == 0 then Next(m) == Machine(gpr, m.csr, target, Fetch(m).bus) && Step(m).1.trap == TRAP_NONE
    else
      && Step(m).1.trap == TRAP_INSTR_MISALIGNED && Next(m).gpr == m.gpr[0 := 0] && Next(m).bus == Fetch(m).bus
      && Next(m).csr.mepc == m.pc && Next(m).csr.mtval == target && Next(m).csr.mcause == 0
  }

  /** The step at m goes to pc + offset if taken and to the next instruction otherwise. */
  ghost predicate Goes(m: Machine, taken: bool) {
    if taken then JumpsTo(m, Wrap(m.pc + ImmB(WordAt(m))), m.gpr[0 := 0])
    else Next(m) == Machine(m.gpr[0 := 0], m.csr, Wrap(m.pc + 4), Fetch(m).bus) && Step(m).1.trap == TRAP_NONE
  }

  lemma DecodedB(w: Word)
    requires KindOf(OpOf(w)) == KindB
    ensures var di := Decode(w); di.rs1 == Rs1Of(w) && di.rs2 == Rs2Of(w) && di.imm == Wrap(ImmB(w))
  {
    hide Decode, OpOf, Rs1Of, Rs2Of, ImmB;
    DecodeOp(w);
    OperandsReading(w);
  }

  lemma DecodedJ(w: Word)
    requires KindOf(OpOf(w)) == KindJ
    ensures var di := Decode(w); di.rd == RdOf(w) && di.imm == Wrap(ImmJ(w))
  {
    hide Decode, OpOf, RdOf, ImmJ;
    DecodeOp(w);
    OperandsReading(w);
  }

  lemma WrapTwice(pc: Word, x: int)
    ensures Wrap(pc + Wrap(x)) == Wrap(pc + x)
  {
    ModAdd(x, pc, 0x1_0000_0000);
  }

  lemma BranchKind(op: Op)
    requires IsBranch(op)
    ensures KindOf(op) == KindB && op != Unknown
  {}

  lemma BranchStep(m: Machine, op: Op)
    requires Runs(m, op) && IsBranch(op)
    ensures Goes(m, Taken(op, Source1(m), Source2(m)))
  {
    hide Fetch, Exec, Decode, OpOf, Taken, IsBranch, Rs1Of, Rs2Of, ImmB, Wrap, RecordedWrite, TrapStatus, KindOf;
    var w := Fetch(m).w;
    BranchKind(op);
    DecodeOp(w);
    DecodedB(w);
    WrapTwice(m.pc, ImmB(w));
    ExecIsBranch(m.(bus := Fetch(m).bus), Decode(w));
  }

  /** BEQ is taken exactly when SUB of the same operands writes 0, and BNE exactly when it does not. */
  lemma BranchBySub(m: Machine, n: Machine, op: Op)
    requires Runs(m, op) && (op == BEQ || op == BNE) && Runs(n, SUB)
    requires Source1(n) == Source1(m) && Source2(n) == Source2(m)
    ensures exists v: Word :: Retires(n, v) && Goes(m, (v == 0) == (op == BEQ))
  {
    hide Fetch, OpOf, Retires, Goes, Source1, Source2;
    BranchStep(m, op);
    Subtraction(n);
    var v: Word :| Retires(n, v) && Wrap(v + Source2(n)) == Source1(n);
    assert v == 0 <==> Source1(m) == Source2(m);
  }

  /** BLT is taken exactly when SLT of the same operands writes 1, and BGE exactly when it writes 0. */
  lemma BranchBySlt(m: Machine, n: Machine, op: Op)
    requires Runs(m, op) && (op == BLT || op == BGE) && Runs(n, SLT)
    requires Source1(n) == Source1(m) && Source2(n) == Source2(m)
    ensures exists v: Bit :: Retires(n, v) && Goes(m, (v == 1) == (op == BLT))
  {
    hide Fetch, OpOf, Retires, Goes, Source1, Source2;
    BranchStep(m, op);
    BaseStep(n, SLT);
    var v: Bit := BaseResult(SLT, Source1(n), Source2(n));
    assert Retires(n, v);
  }

  /** BLTU is taken exactly when SLTU of the same operands writes 1, and BGEU exactly when it writes 0. */
  lemma BranchBySltu(m: Machine, n: Machine, op: Op)
    requires Runs(m, op) && (op == BLTU || op == BGEU) && Runs(n, SLTU)
    requires Source1(n) == Source1(m) && Source2(n) == Source2(m)
    ensures exists v: Bit :: Retires(n, v) && Goes(m, (v == 1) == (op == BLTU))
  {
    hide Fetch, OpOf, Retires, Goes, Source1, Source2;
    BranchStep(m, op);
    UnsignedCompare(n);
    var v: Bit :| Retires(n, v) && (v == 1 <==> Source1(n) < Source2(n));
  }

  /** The same for each operation by itself: the relation of the operands on which it is taken. */
  lemma BranchTaken(m: Machine, op: Op)
    requires Runs(m, op) && IsBranch(op)
    ensures op == BEQ ==> Goes(m, Source1(m) == Source2(m))
    ensures op == BNE ==> Goes(m, Source1(m) != Source2(m))
    ensures op == BLTU ==> Goes(m, Source1(m) < Source2(m))
    ensures op == BGEU ==> Goes(m, Source2(m) <= Source1(m))
    ensures op == BLT ==> Goes(m, Xor(Source1(m), 0x8000_0000) < Xor(Source2(m), 0x8000_0000))
    ensures op == BGE ==> Goes(m, Xor(Source2(m), 0x8000_0000) <= Xor(Source1(m), 0x8000_0000))
  {
    hide Fetch, OpOf, Goes, Source1, Source2, Xor;
    BranchStep(m, op);
    FlipSign(Source1(m));
    FlipSign(Source2(m));
  }

  // Jumps.

  lemma JumpKinds()
    ensures KindOf(JAL) == KindJ && KindOf(JALR) == KindI
  {}

  lemma JumpEffect(m: Machine, target: Word)
    requires Fetch(m).GotWord? && Decode(Fetch(m).w).rd == Dest(m)
    requires EffectOf(m) == ExecJump(m.(bus := Fetch(m).bus), Decode(Fetch(m).w), target)
    ensures JumpsTo(m, target, m.gpr[Dest(m) := Wrap(m.pc + 4)][0 := 0])
  {
    hide Fetch, Decode, EffectOf, RecordedWrite, TrapStatus, Vector, RdOf, Wrap;
  }

  /** JAL goes to pc + offset and leaves the address of the next instruction in rd. */
  lemma JalStep(m: Machine)
    requires Runs(m, JAL)
    ensures JumpsTo(m, Wrap(m.pc + ImmJ(WordAt(m))), m.gpr[Dest(m) := Wrap(m.pc + 4)][0 := 0])
  {
    hide Fetch, Exec, Decode, OpOf, RdOf, ImmJ, Wrap, KindOf, ExecJump, JumpsTo;
    var w := Fetch(m).w;
    JumpKinds();
    DecodeOp(w);
    DecodedJ(w);
    WrapTwice(m.pc, ImmJ(w));
    ExecIsJump(m.(bus := Fetch(m).bus), Decode(w));
    JumpEffect(m, Wrap(m.pc + ImmJ(w)));
  }

  /** JALR goes to x[rs1] + offset with the lowest bit cleared, taken before rd is written, and leaves the same link. */
  lemma JalrStep(m: Machine)
    requires Runs(m, JALR)
    ensures exists target: Word ::
      && JumpsTo(m, target, m.gpr[Dest(m) := Wrap(m.pc + 4)][0 := 0])
      && target % 2 == 0 && Wrap(Source1(m) + ImmI(WordAt(m))) - target in {0, 1}
  {
    hide Fetch, Exec, Decode, OpOf, RdOf, Rs1Of, ImmI, Wrap, KindOf, ExecJump, JumpsTo;
    var w := Fetch(m).w;
    JumpKinds();
    DecodeOp(w);
    DecodedI(w);
    WrapTwice(Source1(m), ImmI(w));
    var t := Wrap(Source1(m) + ImmI(w));
    ExecIsJump(m.(bus := Fetch(m).bus), Decode(w));
    assert (t - t % 2) % 2 == 0;
    JumpEffect(m, t - t % 2);
    assert JumpsTo(m, t - t % 2, m.gpr[Dest(m) := Wrap(m.pc + 4)][0 := 0]);
  }

  /** A call by JAL is returned from by JALR x0, 0(rd): execution goes on after the JAL. */
  lemma CallAndReturn(m: Machine, n: Machine)
    requires Runs(m, JAL) && Dest(m) != 0 && m.pc % 4 == 0 && Step(m).1.trap == TRAP_NONE
    requires Runs(n, JALR) && n.gpr[Dest(m)] == Next(m).gpr[Dest(m)]
    requires Dest(n) == 0 && Rs1Of(WordAt(n)) == Dest(m) && ImmI(WordAt(n)) == 0
    ensures Next(n).pc == Wrap(m.pc + 4) && Step(n).1.trap == TRAP_NONE && Next(n).gpr == n.gpr[0 := 0]
  {
    hide Fetch, OpOf, Step, Next, RdOf, Rs1Of, ImmI, ImmJ, WordAt;
    JalStep(m);
    JalrStep(n);
    var link := Wrap(m.pc + 4);
    assert Source1(n) == link && link % 4 == 0;
    var target: Word :| JumpsTo(n, target, n.gpr[Dest(n) := Wrap(n.pc + 4)][0 := 0])
      && target % 2 == 0 && Wrap(Source1(n) + ImmI(WordAt(n))) - target in {0, 1};
    assert target == link;
  }

  /** Fences change nothing but the pc. */
  lemma FenceStep(m: Machine, op: Op)
    requires Runs(m, op) && (op == FENCE || op == FENCE_I)
    ensures Next(m) == Machine(m.gpr[0 := 0], m.csr, Wrap(m.pc + 4), Fetch(m).bus) && Step(m).1.trap == TRAP_NONE
  {
    hide Fetch, Exec, Decode, OpOf, RecordedWrite;
    DecodeOp(Fetch(m).w);
    ExecIsOther(m.(bus := Fetch(m).bus), Decode(Fetch(m).w));
  }
}
