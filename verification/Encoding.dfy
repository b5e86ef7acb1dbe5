/** The encodings of sections 2.2 to 2.6, chapter 7 and chapter 9 of the Unprivileged ISA, and their inverse. */
module Encoding {
  import opened Words
  import opened Instructions

  /** An assembly-level instruction. Operands that the operation does not have are 0. */
  datatype Instr = Instr(op: Op, rd: Reg, rs1: Reg, rs2: Reg, imm: int)

  datatype Kind = KindR | KindI | KindShift | KindCsr | KindS | KindB | KindU | KindJ | KindFixed | KindFence | KindNone

  function KindOf(op: Op): Kind {
    match op
    case Unknown => KindNone
    case LUI => KindU case AUIPC => KindU
    case JAL => KindJ
    case BEQ => KindB case BNE => KindB case BLT => KindB case BGE => KindB case BLTU => KindB case BGEU => KindB
    case SB => KindS case SH => KindS case SW => KindS
    case SLLI => KindShift case SRLI => KindShift case SRAI => KindShift
    case FENCE => KindFence case FENCE_I => KindFence
    case ECALL => KindFixed case EBREAK => KindFixed case MRET => KindFixed
    case CSRRW => KindCsr case CSRRS => KindCsr case CSRRC => KindCsr
    case CSRRWI => KindCsr case CSRRSI => KindCsr case CSRRCI => KindCsr
    case JALR => KindI
    case LB => KindI case LH => KindI case LW => KindI case LBU => KindI case LHU => KindI
    case ADDI => KindI case SLTI => KindI case SLTIU => KindI case XORI => KindI case ORI => KindI case ANDI => KindI
    case _ => KindR
  }

  /** Major opcode, funct3 and funct7 of an operation, from the listing in chapter 24. */
  function Row(op: Op): (r: (nat, nat, nat))
    ensures r.0 < 0x80 && r.1 < 8 && r.2 < 0x80
  {
    match op
    case LUI => (0x37, 0, 0) case AUIPC => (0x17, 0, 0)
    case JAL => (0x6F, 0, 0) case JALR => (0x67, 0, 0)
    case BEQ => (0x63, 0, 0) case BNE => (0x63, 1, 0) case BLT => (0x63, 4, 0)
    case BGE => (0x63, 5, 0) case BLTU => (0x63, 6, 0) case BGEU => (0x63, 7, 0)
    case LB => (0x03, 0, 0) case LH => (0x03, 1, 0) case LW => (0x03, 2, 0)
    case LBU => (0x03, 4, 0) case LHU => (0x03, 5, 0)
    case SB => (0x23, 0, 0) case SH => (0x23, 1, 0) case SW => (0x23, 2, 0)
    case ADDI => (0x13, 0, 0) case SLTI => (0x13, 2, 0) case SLTIU => (0x13, 3, 0)
    case XORI => (0x13, 4, 0) case ORI => (0x13, 6, 0) case ANDI => (0x13, 7, 0)
    case SLLI => (0x13, 1, 0) case SRLI => (0x13, 5, 0) case SRAI => (0x13, 5, 0x20)
    case ADD => (0x33, 0, 0) case SUB => (0x33, 0, 0x20) case SLL => (0x33, 1, 0) case SLT => (0x33, 2, 0)
    case SLTU => (0x33, 3, 0) case XOR => (0x33, 4, 0) case SRL => (0x33, 5, 0) case SRA => (0x33, 5, 0x20)
    case OR => (0x33, 6, 0) case AND => (0x33, 7, 0)
    case MUL => (0x33, 0, 1) case MULH => (0x33, 1, 1) case MULHSU => (0x33, 2, 1) case MULHU => (0x33, 3, 1)
    case DIV => (0x33, 4, 1) case DIVU => (0x33, 5, 1) case REM => (0x33, 6, 1) case REMU => (0x33, 7, 1)
    case FENCE => (0x0F, 0, 0) case FENCE_I => (0x0F, 1, 0)
    case ECALL => (0x73, 0, 0) case EBREAK => (0x73, 0, 0) case MRET => (0x73, 0, 0)
    case CSRRW => (0x73, 1, 0) case CSRRS => (0x73, 2, 0) case CSRRC => (0x73, 3, 0)
    case CSRRWI => (0x73, 5, 0) case CSRRSI => (0x73, 6, 0) case CSRRCI => (0x73, 7, 0)
    case Unknown => (0, 0, 0)
  }

  /** The operands an assembler accepts. */
  predicate InRange(i: Instr) {
    match KindOf(i.op)
    case KindR => i.imm == 0
    case KindI => i.rs2 == 0 && -0x800 <= i.imm < 0x800
    case KindShift => i.rs2 == 0 && 0 <= i.imm < 0x20
    case KindCsr => i.rs2 == 0 && 0 <= i.imm < 0x1000
    case KindS => i.rd == 0 && -0x800 <= i.imm < 0x800
    case KindB => i.rd == 0 && -0x1000 <= i.imm < 0x1000 && i.imm % 2 == 0
    case KindU => i.rs1 == 0 && i.rs2 == 0 && 0 <= i.imm < 0x1_0000_0000 && i.imm % 0x1000 == 0
    case KindJ => i.rs1 == 0 && i.rs2 == 0 && -0x10_0000 <= i.imm < 0x10_0000 && i.imm % 2 == 0
    case KindFixed => i.rd == 0 && i.rs1 == 0 && i.rs2 == 0 && i.imm == 0
    case KindFence => false
    case KindNone => false
  }

  function Assemble(opcode: nat, rd: nat, funct3: nat, rs1: nat, rs2: nat, funct7: nat): Word
    requires opcode < 0x80 && rd < 0x20 && funct3 < 8 && rs1 < 0x20 && rs2 < 0x20 && funct7 < 0x80
  {
    opcode + 0x80 * rd + 0x1000 * funct3 + 0x8000 * rs1 + 0x10_0000 * rs2 + 0x200_0000 * funct7
  }

  /** The low and the high offset bits of a B-type word. */
  function BranchLow(u: int): int { u % 0x20 + u / 0x800 % 2 }
  function BranchHigh(u: int): int { u / 0x1000 * 0x40 + u / 0x20 % 0x40 }

  lemma BranchFieldBounds(u: int)
    requires 0 <= u < 0x2000 && u % 2 == 0
    ensures 0 <= BranchLow(u) < 0x20 && 0 <= BranchHigh(u) < 0x80
  {
    assert u % 0x20 % 2 == 0;
    assert u / 0x1000 <= 1 && u / 0x20 % 0x40 <= 0x3F;
  }

  lemma UpperBound(low: nat, imm: nat)
    requires low < 0x1000 && imm < 0x1_0000_0000 && imm % 0x1000 == 0
    ensures low + imm < 0x1_0000_0000
  {
    assert imm == 0x1000 * (imm / 0x1000) && imm / 0x1000 <= 0xF_FFFF;
  }

  lemma JumpBound(u: int)
    requires 0 <= u < 0x20_0000
    ensures 0 <= JumpField(u) <= 0xFFFF_F000
  {
    assert u / 0x10_0000 <= 1;
  }

  /** The offset bits of a J-type word. */
  function JumpField(u: int): int {
    0x1000 * (u / 0x1000 % 0x100)     // imm[19:12]
    + 0x10_0000 * (u / 0x800 % 2)     // imm[11]
    + 0x20_0000 * (u / 2 % 0x400)     // imm[10:1]
    + 0x8000_0000 * (u / 0x10_0000)   // imm[20]
  }

  function Encode(i: Instr): Word
    requires InRange(i)
  {
    hide Row, KindOf;
    var (opcode, funct3, funct7) := Row(i.op);
    match KindOf(i.op)
    case KindR => Assemble(opcode, i.rd, funct3, i.rs1, i.rs2, funct7)
    case KindI =>
      var u := i.imm % 0x1000;
      Assemble(opcode, i.rd, funct3, i.rs1, u % 0x20, u / 0x20)
    case KindCsr => Assemble(opcode, i.rd, funct3, i.rs1, i.imm % 0x20, i.imm / 0x20)
    case KindShift => Assemble(opcode, i.rd, funct3, i.rs1, i.imm, funct7)
    case KindS =>
      var u := i.imm % 0x1000;
      Assemble(opcode, u % 0x20, funct3, i.rs1, i.rs2, u / 0x20)
    case KindB =>
      var u := i.imm % 0x2000;
      BranchFieldBounds(u);
      Assemble(opcode, BranchLow(u), funct3, i.rs1, i.rs2, BranchHigh(u))
    case KindU =>
      UpperBound(opcode + 0x80 * i.rd, i.imm);
      opcode + 0x80 * i.rd + i.imm
    case KindJ =>
      JumpBound(i.imm % 0x20_0000);
      opcode + 0x80 * i.rd + JumpField(i.imm % 0x20_0000)
    case KindFixed => if i.op == ECALL then 0x73 else if i.op == EBREAK then 0x10_0073 else 0x3020_0073
  }

  /** The instruction a decoder record stands for; it does not look at the record's copy of the word. */
  function Operands(di: Decoded): Instr {
    match KindOf(di.op)
    case KindCsr => Instr(di.op, di.rd, di.rs1, 0, di.imm % 0x1000)
    case KindS => Instr(di.op, 0, di.rs1, di.rs2, Signed(di.imm))
    case KindU => Instr(di.op, di.rd, 0, 0, di.imm)
    case KindFixed => Instr(di.op, 0, 0, 0, 0)
    case _ => Instr(di.op, di.rd, di.rs1, di.rs2, Signed(di.imm))
  }

  lemma AssembleFields(opcode: nat, rd: nat, funct3: nat, rs1: nat, rs2: nat, funct7: nat)
    requires opcode < 0x80 && rd < 0x20 && funct3 < 8 && rs1 < 0x20 && rs2 < 0x20 && funct7 < 0x80
    ensures var w := Assemble(opcode, rd, funct3, rs1, rs2, funct7);
      && OpcodeOf(w) == opcode && RdOf(w) == rd && Funct3Of(w) == funct3
      && Rs1Of(w) == rs1 && Rs2Of(w) == rs2 && Funct7Of(w) == funct7
  {
    var w := Assemble(opcode, rd, funct3, rs1, rs2, funct7);
    DivDiv(w, 0x80, 0x20);
    DivDiv(w, 0x1000, 8);
    DivDiv(w, 0x8000, 0x20);
    DivDiv(w, 0x10_0000, 0x20);
    assert w / 0x80 == rd + 0x20 * funct3 + 0x100 * rs1 + 0x2000 * rs2 + 0x4_0000 * funct7;
    assert w / 0x1000 == funct3 + 8 * rs1 + 0x100 * rs2 + 0x2000 * funct7;
    assert w / 0x8000 == rs1 + 0x20 * rs2 + 0x400 * funct7;
    assert w / 0x10_0000 == rs2 + 0x20 * funct7;
  }

  // The listing, in both directions.

  predicate UsesFunct3(k: Kind) {
    k != KindU && k != KindJ
  }

  predicate MatchesRow(w: Word, op: Op) {
    && OpcodeOf(w) == Row(op).0
    && (UsesFunct3(KindOf(op)) ==> Funct3Of(w) == Row(op).1)
    && (KindOf(op) == KindR || KindOf(op) == KindShift ==> Funct7Of(w) == Row(op).2)
    && (op.ECALL? ==> w == 0x73) && (op.EBREAK? ==> w == 0x10_0073) && (op.MRET? ==> w == 0x3020_0073)
  }

  lemma RowDecodes(w: Word, op: Op)
    requires op != Unknown && MatchesRow(w, op)
    ensures OpOf(w) == op
  {
    hide OpcodeOf, Funct3Of, Funct7Of, OpOf, MatchesRow;
    match op
    case LUI => OtherRow(w, op); case AUIPC => OtherRow(w, op); case JAL => OtherRow(w, op);
    case JALR => OtherRow(w, op); case FENCE => OtherRow(w, op); case FENCE_I => OtherRow(w, op);
    case BEQ => TransferRow(w, op); case BNE => TransferRow(w, op); case BLT => TransferRow(w, op);
    case BGE => TransferRow(w, op); case BLTU => TransferRow(w, op); case BGEU => TransferRow(w, op);
    case LB => TransferRow(w, op); case LH => TransferRow(w, op); case LW => TransferRow(w, op);
    case LBU => TransferRow(w, op); case LHU => TransferRow(w, op);
    case SB => TransferRow(w, op); case SH => TransferRow(w, op); case SW => TransferRow(w, op);
    case ADDI => ImmediateRow(w, op); case SLTI => ImmediateRow(w, op); case SLTIU => ImmediateRow(w, op);
    case XORI => ImmediateRow(w, op); case ORI => ImmediateRow(w, op); case ANDI => ImmediateRow(w, op);
    case SLLI => ImmediateRow(w, op); case SRLI => ImmediateRow(w, op); case SRAI => ImmediateRow(w, op);
    case ECALL => PrivRow(w, op); case EBREAK => PrivRow(w, op); case MRET => PrivRow(w, op);
    case CSRRW => CsrRow(w, op); case CSRRS => CsrRow(w, op); case CSRRC => CsrRow(w, op);
    case CSRRWI => CsrRow(w, op); case CSRRSI => CsrRow(w, op); case CSRRCI => CsrRow(w, op);
    case _ => RegisterRow(w, op);
  }

  lemma RegisterRow(w: Word, op: Op)
    requires KindOf(op) == KindR && MatchesRow(w, op)
    ensures OpOf(w) == op
  {
    hide OpcodeOf, Funct3Of, Funct7Of, Row, KindOf, RegisterOp;
    RegisterOps(op);
  }

  lemma RegisterOps(op: Op)
    requires KindOf(op) == KindR
    ensures Row(op).0 == 0x33 && RegisterOp(Row(op).1, Row(op).2) == op
  {}

  lemma ImmediateRow(w: Word, op: Op)
    requires || op.ADDI? || op.SLTI? || op.SLTIU? || op.XORI? || op.ORI? || op.ANDI? || op.SLLI? || op.SRLI? || op.SRAI?
    requires MatchesRow(w, op)
    ensures OpOf(w) == op
  {
    hide OpcodeOf, Funct3Of, Funct7Of, LoadOp, StoreOp, BranchOp, RegisterOp, SystemOp;
  }

  lemma CsrRow(w: Word, op: Op)
    requires op.CSRRW? || op.CSRRS? || op.CSRRC? || op.CSRRWI? || op.CSRRSI? || op.CSRRCI?
    requires MatchesRow(w, op)
    ensures OpOf(w) == op
  {
    hide OpcodeOf, Funct3Of, Funct7Of, LoadOp, StoreOp, BranchOp, RegisterOp, ImmediateOp;
  }

  lemma PrivRow(w: Word, op: Op)
    requires op.ECALL? || op.EBREAK? || op.MRET?
    requires MatchesRow(w, op)
    ensures OpOf(w) == op
  {
    hide OpcodeOf, Funct3Of, Funct7Of, LoadOp, StoreOp, BranchOp, RegisterOp, ImmediateOp;
  }

  lemma TransferRow(w: Word, op: Op)
    requires || op.LB? || op.LH? || op.LW? || op.LBU? || op.LHU? || op.SB? || op.SH? || op.SW?
             || op.BEQ? || op.BNE? || op.BLT? || op.BGE? || op.BLTU? || op.BGEU?
    requires MatchesRow(w, op)
    ensures OpOf(w) == op
  {
    hide OpcodeOf, Funct3Of, Funct7Of, RegisterOp, ImmediateOp, SystemOp;
  }

  lemma OtherRow(w: Word, op: Op)
    requires op.LUI? || op.AUIPC? || op.JAL? || op.JALR? || op.FENCE? || op.FENCE_I?
    requires MatchesRow(w, op)
    ensures OpOf(w) == op
  {
    hide OpcodeOf, Funct3Of, Funct7Of, RegisterOp, ImmediateOp, SystemOp, LoadOp, StoreOp, BranchOp;
  }

  lemma DecodedRow(w: Word)
    requires OpOf(w) != Unknown
    ensures MatchesRow(w, OpOf(w))
  {
    hide OpcodeOf, Funct3Of, Funct7Of, MatchesRow, RegisterOp, ImmediateOp, SystemOp;
    match OpcodeOf(w)
    case 0x33 => RegisterWord(w);
    case 0x13 => ImmediateWord(w);
    case 0x73 => SystemWord(w);
    case 0x03 => TransferWord(w);
    case 0x23 => TransferWord(w);
    case 0x63 => TransferWord(w);
    case _ => OtherWord(w);
  }

  lemma RegisterWord(w: Word)
    requires OpOf(w) != Unknown && OpcodeOf(w) == 0x33
    ensures MatchesRow(w, OpOf(w))
  {
    hide OpcodeOf, Funct3Of, Funct7Of, LoadOp, StoreOp, BranchOp, ImmediateOp, SystemOp;
  }

  lemma ImmediateWord(w: Word)
    requires OpOf(w) != Unknown && OpcodeOf(w) == 0x13
    ensures MatchesRow(w, OpOf(w))
  {
    hide OpcodeOf, Funct3Of, Funct7Of, LoadOp, StoreOp, BranchOp, RegisterOp, SystemOp;
  }

  lemma SystemWord(w: Word)
    requires OpOf(w) != Unknown && OpcodeOf(w) == 0x73
    ensures MatchesRow(w, OpOf(w))
  {
    hide OpcodeOf, Funct3Of, Funct7Of, LoadOp, StoreOp, BranchOp, RegisterOp, ImmediateOp;
  }

  lemma TransferWord(w: Word)
    requires OpOf(w) != Unknown && (OpcodeOf(w) == 0x03 || OpcodeOf(w) == 0x23 || OpcodeOf(w) == 0x63)
    ensures MatchesRow(w, OpOf(w))
  {
    hide OpcodeOf, Funct3Of, Funct7Of, RegisterOp, ImmediateOp, SystemOp;
  }

  lemma OtherWord(w: Word)
    requires OpOf(w) != Unknown && OpcodeOf(w) !in {0x33, 0x13, 0x73, 0x03, 0x23, 0x63}
    ensures MatchesRow(w, OpOf(w))
  {
    hide OpcodeOf, Funct3Of, Funct7Of, RegisterOp, ImmediateOp, SystemOp, LoadOp, StoreOp, BranchOp;
  }

  // Immediates, in both directions.

  lemma TwosInverse(x: int, p: int)
    requires 0 < p && p % 2 == 0
    ensures 0 <= x < p ==> Twos(x, p) % p == x && -p <= 2 * Twos(x, p) < p
    ensures -p <= 2 * x < p ==> Twos(x % p, p) == x
  {
    if 0 <= x < p {
      QuotRem(x, p, 0, x);
      if 2 * x >= p { QuotRem(x - p, p, -1, x); }
    } else if -p <= 2 * x < 0 {
      QuotRem(x, p, -1, x + p);
      QuotRem(x + p, p, 0, x + p);
    }
  }

  /** The scattered bits of a B-type immediate, collected. */
  lemma CollectB(w: Word)
    ensures var f7, rd := Funct7Of(w), RdOf(w);
      ImmB(w) == Twos(0x1000 * (f7 / 0x40) + 0x800 * (rd % 2) + 0x20 * (f7 % 0x40) + 2 * (rd / 2), 0x2000)
  {
    hide Twos;
    DivDiv(w, 0x200_0000, 0x40);
    DivDiv(w, 0x80, 2);
    LowTwo(w / 0x80);
  }

  lemma LowTwo(q: nat)
    ensures q % 0x20 % 2 == q % 2 && q % 0x20 / 2 == q / 2 % 0x10
  {
    var k, r := q / 0x20, q % 0x20;
    QuotRem(q, 2, 0x10 * k + r / 2, r % 2);
    QuotRem(0x10 * k + r / 2, 0x10, k, r / 2);
  }

  /** The scattered bits of a J-type immediate, as slices of the upper 20 bits of the word. */
  lemma CollectJ(w: Word, hi: nat)
    requires hi == w / 0x1000
    ensures ImmJ(w) == Twos(0x10_0000 * (hi / 0x8_0000) + 0x1000 * (hi % 0x100) + 0x800 * (hi / 0x100 % 2)
                            + 2 * (hi / 0x200 % 0x400), 0x20_0000)
  {
    hide Twos;
    DivDiv(w, 0x1000, 0x8_0000);
    DivDiv(w, 0x1000, 0x100);
    DivDiv(w, 0x1000, 0x200);
  }

  // The operands of a known word, read off its fields.

  function Reading(w: Word): Instr {
    var op := OpOf(w);
    match KindOf(op)
    case KindR => Instr(op, RdOf(w), Rs1Of(w), Rs2Of(w), 0)
    case KindI => Instr(op, RdOf(w), Rs1Of(w), 0, ImmI(w))
    case KindShift => Instr(op, RdOf(w), Rs1Of(w), 0, Rs2Of(w))
    case KindCsr => Instr(op, RdOf(w), Rs1Of(w), 0, Funct12Of(w))
    case KindS => Instr(op, 0, Rs1Of(w), Rs2Of(w), ImmS(w))
    case KindB => Instr(op, 0, Rs1Of(w), Rs2Of(w), ImmB(w))
    case KindU => Instr(op, RdOf(w), 0, 0, ImmU(w))
    case KindJ => Instr(op, RdOf(w), 0, 0, ImmJ(w))
    case _ => Instr(op, 0, 0, 0, 0)
  }

  predicate Known(w: Word) {
    OpOf(w) != Unknown && KindOf(OpOf(w)) != KindFence
  }

  lemma FormatOfRow(op: Op)
    ensures match KindOf(op)
            case KindR => FormatOf(Row(op).0) == FormatR
            case KindI => FormatOf(Row(op).0) == FormatI && Row(op).0 != 0x0F
            case KindShift => Row(op).0 == 0x13
            case KindCsr => Row(op).0 == 0x73
            case KindS => Row(op).0 == 0x23
            case KindB => Row(op).0 == 0x63
            case KindU => FormatOf(Row(op).0) == FormatU
            case KindJ => Row(op).0 == 0x6F
            case _ => true
  {
    match op
    case LUI => case AUIPC => case JAL => case JALR =>
    case BEQ => case BNE => case BLT => case BGE => case BLTU => case BGEU =>
    case LB => case LH => case LW => case LBU => case LHU =>
    case SB => case SH => case SW =>
    case ADDI => case SLTI => case SLTIU => case XORI => case ORI => case ANDI =>
    case SLLI => case SRLI => case SRAI =>
    case _ =>
  }

  /** The decoder's record of a known word carries exactly the word's operands. */
  lemma OperandsReading(w: Word)
    requires Known(w)
    ensures Operands(Decode(w)) == Reading(w)
  {
    hide OpOf, OpcodeOf, RdOf, Rs1Of, Rs2Of, Funct3Of, Funct7Of, Funct12Of;
    hide ImmI, ImmS, ImmB, ImmU, ImmJ, Row, MatchesRow, KindOf;
    var op := OpOf(w);
    ShiftKind(op);
    OnlyUnknownHasNone(op);
    DecodeOp(w);
    DecodedShape(w);
    FormatOfRow(op);
    SmallImmediates(w);
  }

  lemma ShiftKind(op: Op)
    ensures KindOf(op) == KindShift <==> op.SLLI? || op.SRLI? || op.SRAI?
  {}

  lemma DecodedRowOpcode(w: Word)
    requires OpOf(w) != Unknown
    ensures OpcodeOf(w) == Row(OpOf(w)).0
  {
    hide OpOf, OpcodeOf, Row, Funct3Of, Funct7Of;
    DecodedRow(w);
  }

  lemma DecodedShape(w: Word)
    requires Known(w)
    ensures OpcodeOf(w) == Row(OpOf(w)).0
    ensures KindOf(OpOf(w)) == KindR || KindOf(OpOf(w)) == KindShift ==> Funct7Of(w) == Row(OpOf(w)).2
    ensures OpOf(w) == SLLI ==> Funct7Of(w) == 0
  {
    hide OpOf, OpcodeOf, Funct7Of, Funct3Of;
    DecodedRow(w);
  }

  lemma SmallImmediates(w: Word)
    ensures -0x800 <= ImmI(w) < 0x800 && -0x800 <= ImmS(w) < 0x800
    ensures -0x1000 <= ImmB(w) < 0x1000 && -0x10_0000 <= ImmJ(w) < 0x10_0000
    ensures Wrap(ImmI(w)) % 0x1000 == Funct12Of(w)
    ensures Funct7Of(w) == 0 ==> ImmI(w) == Rs2Of(w)
  {
    hide Twos, RdOf, Funct7Of, Wrap, Rs2Of;
    TwosRanges();
    ImmILow(w);
  }

  lemma TwosRanges()
    ensures forall x :: -0x800 <= Twos(x, 0x1000) < 0x800
    ensures forall x :: -0x1000 <= Twos(x, 0x2000) < 0x1000
    ensures forall x :: -0x10_0000 <= Twos(x, 0x20_0000) < 0x10_0000
  {}

  lemma ImmILow(w: Word)
    ensures Wrap(ImmI(w)) % 0x1000 == Funct12Of(w)
    ensures Funct7Of(w) == 0 ==> ImmI(w) == Rs2Of(w)
  {
    hide Funct12Of, Funct7Of, Rs2Of, ImmI;
    var x: int := Funct12Of(w);
    assert 0 <= x < 0x1000 && x == Rs2Of(w) + 0x20 * Funct7Of(w) by { FieldsOf(w); }
    assert ImmI(w) == (if x < 0x800 then x else x - 0x1000) by { ImmICases(w); }
  }

  lemma ImmICases(w: Word)
    ensures ImmI(w) == if Funct12Of(w) < 0x800 then Funct12Of(w) else Funct12Of(w) - 0x1000
  {}

  // Encode then decode, one kind at a time.

  lemma EncodeFields(i: Instr)
    requires InRange(i) && (KindOf(i.op) == KindR || KindOf(i.op) == KindShift || KindOf(i.op) == KindCsr)
    ensures MatchesRow(Encode(i), i.op) && Reading(Encode(i)) == i
  {
    hide OpOf, OpcodeOf, RdOf, Rs1Of, Rs2Of, Funct3Of, Funct7Of, Funct12Of, ImmI, ImmS, ImmB, ImmU, ImmJ, Row, Assemble;
    var w := Encode(i);
    var (opcode, f3, f7) := Row(i.op);
    match KindOf(i.op)
    case KindR => AssembleFields(opcode, i.rd, f3, i.rs1, i.rs2, f7); RowDecodes(w, i.op);
    case KindShift => AssembleFields(opcode, i.rd, f3, i.rs1, i.imm, f7); RowDecodes(w, i.op);
    case KindCsr =>
      AssembleFields(opcode, i.rd, f3, i.rs1, i.imm % 0x20, i.imm / 0x20);
      FieldsOf(w);
      RowDecodes(w, i.op);
  }

  lemma EncodeI(i: Instr)
    requires InRange(i) && KindOf(i.op) == KindI
    ensures MatchesRow(Encode(i), i.op) && Reading(Encode(i)) == i
  {
    hide OpOf, OpcodeOf, RdOf, Rs1Of, Rs2Of, Funct3Of, Funct7Of, Funct12Of, ImmI, ImmS, ImmB, ImmU, ImmJ, Row, Assemble;
    var w := Encode(i);
    var (opcode, f3, f7) := Row(i.op);
    var u := i.imm % 0x1000;
    AssembleFields(opcode, i.rd, f3, i.rs1, u % 0x20, u / 0x20);
    FieldsOf(w);
    RowDecodes(w, i.op);
    ImmIOf(w, i.imm);
  }

  lemma EncodeS(i: Instr)
    requires InRange(i) && KindOf(i.op) == KindS
    ensures MatchesRow(Encode(i), i.op) && Reading(Encode(i)) == i
  {
    hide OpOf, OpcodeOf, RdOf, Rs1Of, Rs2Of, Funct3Of, Funct7Of, Funct12Of, ImmI, ImmS, ImmB, ImmU, ImmJ, Row, Assemble;
    var w := Encode(i);
    var (opcode, f3, f7) := Row(i.op);
    var u := i.imm % 0x1000;
    AssembleFields(opcode, u % 0x20, f3, i.rs1, i.rs2, u / 0x20);
    RowDecodes(w, i.op);
    ImmSOf(w, i.imm);
  }

  lemma EncodeB(i: Instr)
    requires InRange(i) && KindOf(i.op) == KindB
    ensures MatchesRow(Encode(i), i.op) && Reading(Encode(i)) == i
  {
    hide OpOf, OpcodeOf, RdOf, Rs1Of, Rs2Of, Funct3Of, Funct7Of, Funct12Of, ImmI, ImmS, ImmB, ImmU, ImmJ, Row, Assemble;
    hide BranchLow, BranchHigh;
    var w := Encode(i);
    var (opcode, f3, f7) := Row(i.op);
    var u := i.imm % 0x2000;
    BranchFieldBounds(u);
    AssembleFields(opcode, BranchLow(u), f3, i.rs1, i.rs2, BranchHigh(u));
    RowDecodes(w, i.op);
    ImmBOf(w, i.imm, u);
  }

  lemma ImmIOf(w: Word, imm: int)
    requires -0x800 <= imm < 0x800 && Funct12Of(w) == imm % 0x1000
    ensures ImmI(w) == imm
  {
    TwosInverse(imm, 0x1000);
  }

  lemma ImmSOf(w: Word, imm: int)
    requires -0x800 <= imm < 0x800
    requires var u := imm % 0x1000; RdOf(w) == u % 0x20 && Funct7Of(w) == u / 0x20
    ensures ImmS(w) == imm
  {
    hide RdOf, Funct7Of;
    TwosInverse(imm, 0x1000);
  }

  lemma ImmBOf(w: Word, imm: int, u: nat)
    requires -0x1000 <= imm < 0x1000 && imm % 2 == 0 && u == imm % 0x2000
    requires RdOf(w) == BranchLow(u) && Funct7Of(w) == BranchHigh(u)
    ensures ImmB(w) == imm
  {
    hide *;
    CollectB(w);
    BranchImmediate(ImmB(w), imm, u, RdOf(w), Funct7Of(w));
  }

  lemma BranchImmediate(v: int, imm: int, u: nat, rd: nat, f7: nat)
    requires -0x1000 <= imm < 0x1000 && imm % 2 == 0 && u == imm % 0x2000
    requires rd == BranchLow(u) && f7 == BranchHigh(u)
    requires v == Twos(0x1000 * (f7 / 0x40) + 0x800 * (rd % 2) + 0x20 * (f7 % 0x40) + 2 * (rd / 2), 0x2000)
    ensures v == imm
  {
    hide *;
    assert u < 0x2000 && u % 2 == 0 by { EvenRemainder(imm, u); }
    assert v == Twos(u, 0x2000) by { BranchBits(u, rd, f7); }
    TwosInverse(imm, 0x2000);
  }

  lemma EvenRemainder(imm: int, u: nat)
    requires imm % 2 == 0 && u == imm % 0x2000
    ensures u < 0x2000 && u % 2 == 0
  {
    assert imm == 2 * (0x1000 * (imm / 0x2000)) + u;
  }

  lemma BranchBits(u: nat, rd: nat, f7: nat)
    requires u < 0x2000 && u % 2 == 0
    requires rd == BranchLow(u) && f7 == BranchHigh(u)
    ensures u == 0x1000 * (f7 / 0x40) + 0x800 * (rd % 2) + 0x20 * (f7 % 0x40) + 2 * (rd / 2)
  {
    DivDiv(u, 0x800, 2);
    DivDiv(u, 0x20, 0x40);
    QuotRem(f7, 0x40, u / 0x1000, u / 0x20 % 0x40);
    QuotRem(rd, 2, u % 0x20 / 2, u / 0x800 % 2);
  }

  lemma EncodeU(i: Instr)
    requires InRange(i) && KindOf(i.op) == KindU
    ensures var w := Encode(i);
      MatchesRow(w, i.op) && Reading(w) == i
  {
    hide OpOf, Row;
    var w := Encode(i);
    var hi := i.imm / 0x1000;
    assert w == Row(i.op).0 + 0x80 * i.rd + 0x1000 * hi;
    UpperFields(w, Row(i.op).0, i.rd, hi);
    RowDecodes(w, i.op);
  }

  lemma UpperFields(w: Word, opcode: nat, rd: Reg, hi: nat)
    requires opcode < 0x80 && w == opcode + 0x80 * rd + 0x1000 * hi
    ensures OpcodeOf(w) == opcode && RdOf(w) == rd && w / 0x1000 == hi && ImmU(w) == 0x1000 * hi
  {
    DivDiv(w, 0x80, 0x20);
    assert w / 0x80 == rd + 0x20 * hi;
  }

  lemma EncodeJ(i: Instr)
    requires InRange(i) && KindOf(i.op) == KindJ
    ensures MatchesRow(Encode(i), i.op) && Reading(Encode(i)) == i
  {
    hide OpOf, Row, OpcodeOf, RdOf, Funct3Of, Funct7Of, Encode, InRange, JumpHigh, Reading;
    var w := Encode(i);
    EncodingJ(i);
    UpperFields(w, Row(i.op).0, i.rd, JumpHigh(i.imm % 0x20_0000));
    ImmJOf(w, i.imm, JumpHigh(i.imm % 0x20_0000));
    RowDecodes(w, i.op);
    assert Reading(w) == Instr(i.op, i.rd, 0, 0, i.imm) by { ReadingJ(w); }
  }

  lemma ReadingJ(w: Word)
    requires KindOf(OpOf(w)) == KindJ
    ensures Reading(w) == Instr(OpOf(w), RdOf(w), 0, 0, ImmJ(w))
  {
    hide OpOf, RdOf, ImmJ;
  }

  /** The upper 20 bits of a JAL word whose offset is u modulo 2^21. */
  function JumpHigh(u: nat): nat {
    u / 0x1000 % 0x100 + 0x100 * (u / 0x800 % 2) + 0x200 * (u / 2 % 0x400) + 0x8_0000 * (u / 0x10_0000)
  }

  lemma ImmJOf(w: Word, imm: int, hi: nat)
    requires -0x10_0000 <= imm < 0x10_0000 && imm % 2 == 0
    requires w / 0x1000 == hi == JumpHigh(imm % 0x20_0000)
    ensures ImmJ(w) == imm
  {
    hide ImmJ, Twos, JumpHigh;
    CollectJ(w, hi);
    JumpBits(imm % 0x20_0000, hi);
    TwosInverse(imm, 0x20_0000);
  }

  lemma JumpBits(u: nat, hi: nat)
    requires u < 0x20_0000 && u % 2 == 0 && hi == JumpHigh(u)
    ensures u == 0x10_0000 * (hi / 0x8_0000) + 0x1000 * (hi % 0x100) + 0x800 * (hi / 0x100 % 2)
                 + 2 * (hi / 0x200 % 0x400)
  {
    var a, b, c, d := u / 0x10_0000, u / 0x1000 % 0x100, u / 0x800 % 2, u / 2 % 0x400;
    hide JumpHigh;
    JumpParts(u, a, b, c, d);
    JumpSlices(hi, a, b, c, d);
  }

  lemma EncodingJ(i: Instr)
    requires InRange(i) && KindOf(i.op) == KindJ
    ensures i.rs1 == 0 && i.rs2 == 0 && -0x10_0000 <= i.imm < 0x10_0000 && i.imm % 2 == 0
    ensures Encode(i) == Row(i.op).0 + 0x80 * i.rd + 0x1000 * JumpHigh(i.imm % 0x20_0000)
  {
    hide Row, KindOf;
  }

  lemma JumpParts(u: nat, a: nat, b: nat, c: nat, d: nat)
    requires u < 0x20_0000 && u % 2 == 0
    requires a == u / 0x10_0000 && b == u / 0x1000 % 0x100 && c == u / 0x800 % 2 && d == u / 2 % 0x400
    ensures u == 0x10_0000 * a + 0x1000 * b + 0x800 * c + 2 * d && a < 2
    ensures JumpHigh(u) == b + 0x100 * c + 0x200 * d + 0x8_0000 * a
  {
    DivDiv(u, 2, 0x400);
    DivDiv(u, 0x800, 2);
    DivDiv(u, 0x1000, 0x100);
  }

  lemma JumpSlices(hi: nat, a: nat, b: nat, c: nat, d: nat)
    requires a < 2 && b < 0x100 && c < 2 && d < 0x400 && hi == b + 0x100 * c + 0x200 * d + 0x8_0000 * a
    ensures hi / 0x8_0000 == a && hi % 0x100 == b && hi / 0x100 % 2 == c && hi / 0x200 % 0x400 == d
  {
    QuotRem(hi, 0x8_0000, a, b + 0x100 * c + 0x200 * d);
    QuotRem(hi, 0x100, c + 2 * d + 0x800 * a, b);
    QuotRem(hi, 0x200, d + 0x400 * a, b + 0x100 * c);
  }

  lemma FixedRow(op: Op)
    requires op == ECALL || op == EBREAK || op == MRET
    ensures KindOf(op) == KindFixed && Row(op) == (0x73, 0, 0)
  {}

  lemma EncodeFixed(i: Instr)
    requires InRange(i) && KindOf(i.op) == KindFixed
    ensures MatchesRow(Encode(i), i.op) && Reading(Encode(i)) == i
  {
    hide OpOf, Row;
    assert i.op == ECALL || i.op == EBREAK || i.op == MRET;
    RowDecodes(Encode(i), i.op) by { FixedRow(i.op); }
    FixedRow(i.op);
  }

  /** Decoding the encoding of an instruction gives the instruction back. */
  lemma EncodeThenDecode(i: Instr)
    requires InRange(i)
    ensures var w := Encode(i);
      Known(w) && ValidWord(w) && Operands(Decode(w)) == i
  {
    hide Row, OpcodeOf, Operands, Decode;
    var w := Encode(i);
    match KindOf(i.op)
    {
      case KindI => EncodeI(i);
      case KindS => EncodeS(i);
      case KindB => EncodeB(i);
      case KindU => EncodeU(i);
      case KindJ => EncodeJ(i);
      case KindFixed => EncodeFixed(i);
      case _ => EncodeFields(i);
    }
    RowDecodes(w, i.op);
    OperandsReading(w);
  }

  // Decode then encode, one kind at a time.

  /** Every known word is the encoding of what the decoder read from it, and its operands are in range. */
  lemma DecodeThenEncode(w: Word)
    requires Known(w)
    ensures InRange(Operands(Decode(w))) && Encode(Operands(Decode(w))) == w
  {
    hide *;
    OperandsReading(w);
    ReadingInRange(w);
    ReadingEncodes(w);
  }

  /** So no two known words are read as the same instruction. */
  lemma DecodingIsInjective(v: Word, w: Word)
    requires Known(v) && Known(w) && Operands(Decode(v)) == Operands(Decode(w))
    ensures v == w
  {
    hide Decode, Operands, Encode, InRange, Known;
    DecodeThenEncode(v);
    DecodeThenEncode(w);
  }

  lemma ReadingInRange(w: Word)
    requires Known(w)
    ensures InRange(Reading(w))
  {
    hide OpOf, RdOf, Rs1Of, Rs2Of, Funct12Of, ImmI, ImmS, ImmB, ImmJ, ImmU, KindOf;
    OnlyUnknownHasNone(OpOf(w));
    UpperImmediate(w);
    SmallImmediates(w);
    EvenOffsets(w);
    assert Funct12Of(w) < 0x1000 by { FieldsOf(w); }
  }

  lemma OnlyUnknownHasNone(op: Op)
    ensures KindOf(op) == KindNone ==> op == Unknown
  {}

  lemma UpperImmediate(w: Word)
    ensures 0 <= ImmU(w) < 0x1_0000_0000 && ImmU(w) % 0x1000 == 0
  {
    QuotRem(ImmU(w), 0x1000, w / 0x1000, 0);
  }

  lemma EvenOffsets(w: Word)
    ensures ImmB(w) % 2 == 0 && ImmJ(w) % 2 == 0
  {
    hide Twos;
    EvenTwos(0x800 * (w / 0x8000_0000) + 0x400 * (w / 0x80 % 2) + 0x10 * (w / 0x200_0000 % 0x40)
             + (w / 0x100 % 0x10), 0x1000);
    EvenTwos(0x8_0000 * (w / 0x8000_0000) + 0x800 * (w / 0x1000 % 0x100) + 0x400 * (w / 0x10_0000 % 2)
             + (w / 0x20_0000 % 0x400), 0x10_0000);
  }

  lemma EvenTwos(y: int, half: nat)
    requires half == 0x1000 || half == 0x10_0000
    ensures Twos(2 * y, 2 * half) % 2 == 0
  {
    var q, r := y / half, y % half;
    assert 2 * y == 2 * half * q + 2 * r;
    QuotRem(2 * y, 2 * half, q, 2 * r);
  }

  lemma ReadingEncodes(w: Word)
    requires Known(w) && InRange(Reading(w))
    ensures Encode(Reading(w)) == w
  {
    hide OpOf, Reading, Encode, InRange;
    match KindOf(OpOf(w))
    case KindR => ReencodeFields(w);
    case KindShift => ReencodeFields(w);
    case KindCsr => ReencodeFields(w);
    case KindI => ReencodeI(w);
    case KindS => ReencodeS(w);
    case KindB => ReencodeB(w);
    case KindU => ReencodeU(w);
    case KindJ => ReencodeJ(w);
    case KindFixed => ReencodeFixed(w);
  }

  /** FieldsOf, and the row of the listing that a known word is in. */
  lemma KnownFields(w: Word)
    requires Known(w)
    ensures w == Assemble(OpcodeOf(w), RdOf(w), Funct3Of(w), Rs1Of(w), Rs2Of(w), Funct7Of(w))
    ensures Funct12Of(w) == Rs2Of(w) + 0x20 * Funct7Of(w) && Funct7Of(w) < 0x80
    ensures var (opcode, f3, f7) := Row(OpOf(w)); var k := KindOf(OpOf(w));
      && OpcodeOf(w) == opcode && (k != KindU && k != KindJ ==> Funct3Of(w) == f3)
      && (k == KindR || k == KindShift ==> Funct7Of(w) == f7)
  {
    hide OpOf, OpcodeOf, RdOf, Rs1Of, Rs2Of, Funct3Of, Funct7Of, Funct12Of, Row, KindOf;
    FieldsOf(w);
    DecodedRow(w);
  }

  lemma ReencodeFields(w: Word)
    requires Known(w) && InRange(Reading(w))
    requires KindOf(OpOf(w)) == KindR || KindOf(OpOf(w)) == KindShift || KindOf(OpOf(w)) == KindCsr
    ensures Encode(Reading(w)) == w
  {
    hide OpOf, OpcodeOf, RdOf, Rs1Of, Rs2Of, Funct3Of, Funct7Of, Funct12Of;
    hide ImmI, ImmS, ImmB, ImmU, ImmJ, Row, MatchesRow, Assemble, KindOf;
    KnownFields(w);
  }

  lemma ReencodeI(w: Word)
    requires Known(w) && InRange(Reading(w)) && KindOf(OpOf(w)) == KindI
    ensures Encode(Reading(w)) == w
  {
    hide OpOf, OpcodeOf, RdOf, Rs1Of, Rs2Of, Funct3Of, Funct7Of, Funct12Of;
    hide ImmI, ImmS, ImmB, ImmU, ImmJ, Row, MatchesRow, Assemble, KindOf;
    KnownFields(w);
    assert ImmI(w) % 0x1000 == Funct12Of(w) by { LowI(w); }
  }

  lemma LowI(w: Word)
    ensures ImmI(w) % 0x1000 == Funct12Of(w)
  {
    assert Funct12Of(w) < 0x1000 by { FieldsOf(w); }
    TwosInverse(Funct12Of(w), 0x1000);
  }

  lemma ReencodeS(w: Word)
    requires Known(w) && InRange(Reading(w)) && KindOf(OpOf(w)) == KindS
    ensures Encode(Reading(w)) == w
  {
    hide OpOf, OpcodeOf, RdOf, Rs1Of, Rs2Of, Funct3Of, Funct7Of, Funct12Of;
    hide ImmI, ImmS, ImmB, ImmU, ImmJ, Row, MatchesRow, Assemble, KindOf;
    KnownFields(w);
    assert ImmS(w) % 0x1000 == 32 * Funct7Of(w) + RdOf(w) by { LowS(w); }
  }

  lemma LowS(w: Word)
    ensures ImmS(w) % 0x1000 == 32 * Funct7Of(w) + RdOf(w)
  {
    hide RdOf, Twos;
    TwosInverse(32 * Funct7Of(w) + RdOf(w), 0x1000);
  }

  lemma ReencodeB(w: Word)
    requires Known(w) && InRange(Reading(w)) && KindOf(OpOf(w)) == KindB
    ensures Encode(Reading(w)) == w
  {
    hide OpOf, OpcodeOf, RdOf, Rs1Of, Rs2Of, Funct3Of, Funct7Of, Funct12Of;
    hide ImmI, ImmS, ImmB, ImmU, ImmJ, Row, MatchesRow, Assemble, KindOf;
    KnownFields(w);
    LowB(w);
  }

  lemma LowB(w: Word)
    ensures var u := ImmB(w) % 0x2000;
      RdOf(w) == BranchLow(u) && Funct7Of(w) == BranchHigh(u)
  {
    hide Twos, ImmB, RdOf, Funct7Of;
    CollectB(w);
    assert Funct7Of(w) < 0x80 by { FieldsOf(w); }
    var f7: int, rd: int := Funct7Of(w), RdOf(w);
    BranchParts(f7, rd);
    TwosInverse(0x1000 * (f7 / 0x40) + 0x800 * (rd % 2) + 0x20 * (f7 % 0x40) + 2 * (rd / 2), 0x2000);
  }

  lemma BranchParts(f7: nat, rd: Reg)
    requires f7 < 0x80
    ensures var x := 0x1000 * (f7 / 0x40) + 0x800 * (rd % 2) + 0x20 * (f7 % 0x40) + 2 * (rd / 2);
      && 0 <= x < 0x2000 && rd == x % 0x20 + x / 0x800 % 2 && f7 == x / 0x1000 * 0x40 + x / 0x20 % 0x40
  {
    var x := 0x1000 * (f7 / 0x40) + 0x800 * (rd % 2) + 0x20 * (f7 % 0x40) + 2 * (rd / 2);
    QuotRem(x, 0x1000, f7 / 0x40, 0x800 * (rd % 2) + 0x20 * (f7 % 0x40) + 2 * (rd / 2));
    QuotRem(x, 0x800, 2 * (f7 / 0x40) + rd % 2, 0x20 * (f7 % 0x40) + 2 * (rd / 2));
    QuotRem(x, 0x20, 0x80 * (f7 / 0x40) + 0x40 * (rd % 2) + f7 % 0x40, 2 * (rd / 2));
  }

  lemma ReencodeU(w: Word)
    requires Known(w) && InRange(Reading(w)) && KindOf(OpOf(w)) == KindU
    ensures Encode(Reading(w)) == w
  {
    hide OpOf, OpcodeOf, RdOf, Rs1Of, Rs2Of, Funct3Of, Funct7Of, Funct12Of;
    hide ImmI, ImmS, ImmB, ImmU, ImmJ, Row, MatchesRow, Assemble, KindOf;
    KnownFields(w);
    assert ImmU(w) == w - OpcodeOf(w) - 0x80 * RdOf(w) by { LowU(w); }
  }

  lemma LowU(w: Word)
    ensures w % 0x1000 == OpcodeOf(w) + 0x80 * RdOf(w)
    ensures w == OpcodeOf(w) + 0x80 * RdOf(w) + 0x1000 * (w / 0x1000)
    ensures ImmU(w) == w - OpcodeOf(w) - 0x80 * RdOf(w)
  {
    DivDiv(w, 0x80, 0x20);
  }

  lemma ReencodeJ(w: Word)
    requires Known(w) && InRange(Reading(w)) && KindOf(OpOf(w)) == KindJ
    ensures Encode(Reading(w)) == w
  {
    hide OpOf, OpcodeOf, RdOf, ImmJ, Row, Encode, InRange, JumpHigh, Reading;
    ReadingJ(w);
    EncodingJ(Reading(w));
    assert OpcodeOf(w) == Row(OpOf(w)).0 by { KnownFields(w); }
    LowU(w);
    assert JumpHigh(ImmJ(w) % 0x20_0000) == w / 0x1000 by { LowJ(w, w / 0x1000); }
  }

  lemma LowJ(w: Word, hi: nat)
    requires hi == w / 0x1000
    ensures JumpHigh(ImmJ(w) % 0x20_0000) == hi
  {
    hide ImmJ, Twos, JumpHigh;
    CollectJ(w, hi);
    HighToOffset(hi, hi / 0x8_0000, hi % 0x100, hi / 0x100 % 2, hi / 0x200 % 0x400);
  }

  lemma HighToOffset(hi: nat, a: nat, b: nat, c: nat, d: nat)
    requires hi < 0x10_0000
    requires a == hi / 0x8_0000 && b == hi % 0x100 && c == hi / 0x100 % 2 && d == hi / 0x200 % 0x400
    ensures JumpHigh(Twos(0x10_0000 * a + 0x1000 * b + 0x800 * c + 2 * d, 0x20_0000) % 0x20_0000) == hi
  {
    hide Twos, JumpHigh;
    HighParts(hi, a, b, c, d);
    OffsetHigh(hi, 0x10_0000 * a + 0x1000 * b + 0x800 * c + 2 * d, a, b, c, d);
  }

  lemma OffsetHigh(hi: nat, x: nat, a: nat, b: nat, c: nat, d: nat)
    requires a < 2 && b < 0x100 && c < 2 && d < 0x400
    requires hi == b + 0x100 * c + 0x200 * d + 0x8_0000 * a && x == 0x10_0000 * a + 0x1000 * b + 0x800 * c + 2 * d
    ensures JumpHigh(Twos(x, 0x20_0000) % 0x20_0000) == hi
  {
    hide Twos, JumpHigh;
    assert x < 0x20_0000 && x % 2 == 0;
    assert JumpHigh(x) == hi by {
      OffsetParts(x, a, b, c, d);
      JumpParts(x, a, b, c, d);
    }
    TwosInverse(x, 0x20_0000);
  }

  lemma OffsetParts(x: nat, a: nat, b: nat, c: nat, d: nat)
    requires a < 2 && b < 0x100 && c < 2 && d < 0x400 && x == 0x10_0000 * a + 0x1000 * b + 0x800 * c + 2 * d
    ensures x / 0x10_0000 == a && x / 0x1000 % 0x100 == b && x / 0x800 % 2 == c && x / 2 % 0x400 == d
  {
    hide *;
    QuotRem(x, 0x10_0000, a, 0x1000 * b + 0x800 * c + 2 * d);
    QuotRem(x, 0x1000, b + 0x100 * a, 0x800 * c + 2 * d);
    QuotRem(b + 0x100 * a, 0x100, a, b);
    QuotRem(x, 0x800, c + 2 * b + 0x200 * a, 2 * d);
    QuotRem(c + 2 * b + 0x200 * a, 2, b + 0x100 * a, c);
    QuotRem(x / 2, 0x400, c + 2 * b + 0x200 * a, d);
  }

  lemma HighParts(hi: nat, a: nat, b: nat, c: nat, d: nat)
    requires hi < 0x10_0000
    requires a == hi / 0x8_0000 && b == hi % 0x100 && c == hi / 0x100 % 2 && d == hi / 0x200 % 0x400
    ensures hi == b + 0x100 * c + 0x200 * d + 0x8_0000 * a && a < 2
  {
    DivDiv(hi, 0x100, 2);
    DivDiv(hi, 0x200, 0x400);
  }

  lemma ReencodeFixed(w: Word)
    requires Known(w) && InRange(Reading(w)) && KindOf(OpOf(w)) == KindFixed
    ensures Encode(Reading(w)) == w
  {
    hide OpOf, Row;
    DecodedRow(w);
    assert OpOf(w) == ECALL || OpOf(w) == EBREAK || OpOf(w) == MRET;
  }
}
