/** RV32IM + Zicsr instruction words: fields, operations and their encodings, in integer arithmetic. */
module Instructions {
  import opened Words

  type Reg = x: int | 0 <= x < 32

  datatype Op =
    | Unknown
    | LUI | AUIPC | JAL | JALR
    | BEQ | BNE | BLT | BGE | BLTU | BGEU
    | LB | LH | LW | LBU | LHU
    | SB | SH | SW
    | ADDI | SLTI | SLTIU | XORI | ORI | ANDI
    | SLLI | SRLI | SRAI
    | ADD | SUB | SLL | SLT | SLTU | XOR | SRL | SRA | OR | AND
    | FENCE | FENCE_I
    | ECALL | EBREAK | MRET
    | MUL | MULH | MULHSU | MULHU | DIV | DIVU | REM | REMU
    | CSRRW | CSRRS | CSRRC | CSRRWI | CSRRSI | CSRRCI

  datatype Format = FormatUnknown | FormatR | FormatI | FormatS | FormatB | FormatU | FormatJ

  /** The decoder's output record. */
  datatype Decoded = Decoded(
    instruction: Word, op: Op, format: Format, imm: Word,
    rs1: Reg, rs2: Reg, rd: Reg, funct3: nat, funct7: nat, valid: bool)

  // Fields of an instruction word (section 2.2 of the Unprivileged ISA).

  function OpcodeOf(w: Word): nat { w % 0x80 }
  function RdOf(w: Word): Reg { w / 0x80 % 0x20 }
  function Funct3Of(w: Word): nat { w / 0x1000 % 8 }
  function Rs1Of(w: Word): Reg { w / 0x8000 % 0x20 }
  function Rs2Of(w: Word): Reg { w / 0x10_0000 % 0x20 }
  function Funct7Of(w: Word): nat { w / 0x200_0000 }
  function Funct12Of(w: Word): nat { w / 0x10_0000 }

  lemma FieldsOf(w: Word)
    ensures w == OpcodeOf(w) + 0x80 * RdOf(w) + 0x1000 * Funct3Of(w) + 0x8000 * Rs1Of(w)
               + 0x10_0000 * Rs2Of(w) + 0x200_0000 * Funct7Of(w)
    ensures Funct12Of(w) == Rs2Of(w) + 0x20 * Funct7Of(w)
  {
    DivDiv(w, 0x80, 0x20);
    DivDiv(w, 0x1000, 8);
    DivDiv(w, 0x8000, 0x20);
    DivDiv(w, 0x10_0000, 0x20);
  }

  // Immediates (section 2.3), as signed numbers.

  function ImmI(w: Word): int { Twos(Funct12Of(w), 0x1000) }
  function ImmS(w: Word): int { Twos(32 * Funct7Of(w) + RdOf(w), 0x1000) }
  function ImmU(w: Word): int { w - w % 0x1000 }

  function ImmB(w: Word): int {
    Twos(0x1000 * (w / 0x8000_0000) + 0x800 * (w / 0x80 % 2)
         + 0x20 * (w / 0x200_0000 % 0x40) + 2 * (w / 0x100 % 0x10), 0x2000)
  }

  function ImmJ(w: Word): int {
    Twos(0x10_0000 * (w / 0x8000_0000) + 0x1000 * (w / 0x1000 % 0x100)
         + 0x800 * (w / 0x10_0000 % 2) + 2 * (w / 0x20_0000 % 0x400), 0x20_0000)
  }

  // Decoding.

  function LoadOp(funct3: nat): Op {
    match funct3
    case 0 => LB case 1 => LH case 2 => LW case 4 => LBU case 5 => LHU case _ => Unknown
  }

  function StoreOp(funct3: nat): Op {
    match funct3
    case 0 => SB case 1 => SH case 2 => SW case _ => Unknown
  }

  function BranchOp(funct3: nat): Op {
    match funct3
    case 0 => BEQ case 1 => BNE case 4 => BLT case 5 => BGE case 6 => BLTU case 7 => BGEU case _ => Unknown
  }

  function ImmediateOp(funct3: nat, funct7: nat): Op {
    match funct3
    case 0 => ADDI case 2 => SLTI case 3 => SLTIU case 4 => XORI case 6 => ORI case 7 => ANDI
    case 1 => if funct7 == 0 then SLLI else Unknown
    case 5 => if funct7 == 0 then SRLI else if funct7 == 0x20 then SRAI else Unknown
    case _ => Unknown
  }

  function BaseOp(funct3: nat): Op {
    match funct3
    case 0 => ADD case 1 => SLL case 2 => SLT case 3 => SLTU case 4 => XOR case 5 => SRL case 6 => OR case 7 => AND
    case _ => Unknown
  }

  function MulDivOp(funct3: nat): Op {
    match funct3
    case 0 => MUL case 1 => MULH case 2 => MULHSU case 3 => MULHU
    case 4 => DIV case 5 => DIVU case 6 => REM case 7 => REMU
    case _ => Unknown
  }

  function RegisterOp(funct3: nat, funct7: nat): Op {
    match funct7
    case 0 => BaseOp(funct3)
    case 1 => MulDivOp(funct3)
    case 0x20 => if funct3 == 0 then SUB else if funct3 == 5 then SRA else Unknown
    case _ => Unknown
  }

  function SystemOp(w: Word): Op {
    match Funct3Of(w)
    case 0 => if w == 0x73 then ECALL else if w == 0x10_0073 then EBREAK else if w == 0x3020_0073 then MRET else Unknown
    case 1 => CSRRW case 2 => CSRRS case 3 => CSRRC case 5 => CSRRWI case 6 => CSRRSI case 7 => CSRRCI
    case _ => Unknown
  }

  function OpOf(w: Word): Op {
    match OpcodeOf(w)
    case 0x37 => LUI
    case 0x17 => AUIPC
    case 0x6F => JAL
    case 0x67 => if Funct3Of(w) == 0 then JALR else Unknown
    case 0x03 => LoadOp(Funct3Of(w))
    case 0x13 => ImmediateOp(Funct3Of(w), Funct7Of(w))
    case 0x0F => if Funct3Of(w) == 0 then FENCE else if Funct3Of(w) == 1 then FENCE_I else Unknown
    case 0x73 => SystemOp(w)
    case 0x63 => BranchOp(Funct3Of(w))
    case 0x23 => StoreOp(Funct3Of(w))
    case 0x33 => RegisterOp(Funct3Of(w), Funct7Of(w))
    case _ => Unknown
  }

  function FormatOf(opcode: nat): Format {
    match opcode
    case 0x37 => FormatU case 0x17 => FormatU
    case 0x6F => FormatJ
    case 0x67 => FormatI case 0x03 => FormatI case 0x13 => FormatI case 0x0F => FormatI case 0x73 => FormatI
    case 0x63 => FormatB
    case 0x23 => FormatS
    case 0x33 => FormatR
    case _ => FormatUnknown
  }

  /** The immediate operand as a word. Right shifts carry only the shift amount; fences carry nothing. */
  function ImmOf(w: Word): Word {
    match FormatOf(OpcodeOf(w))
    case FormatU => ImmU(w)
    case FormatJ => Wrap(ImmJ(w))
    case FormatB => Wrap(ImmB(w))
    case FormatS => Wrap(ImmS(w))
    case FormatI =>
      if OpcodeOf(w) == 0x0F then 0
      else if OpOf(w) == SRLI || OpOf(w) == SRAI then Rs2Of(w)
      else Wrap(ImmI(w))
    case _ => 0
  }

  /** The words the decoder reports as valid: all known ones, and every BRANCH, STORE and SYSTEM word. */
  predicate ValidWord(w: Word) {
    OpOf(w) != Unknown || OpcodeOf(w) == 0x63 || OpcodeOf(w) == 0x23 || OpcodeOf(w) == 0x73
  }

  /**
   * The decoder's record for a word. Fields that the format does not have are 0, and so is all of an unknown opcode.
   */
  function Decode(w: Word): Decoded {
    var f := FormatOf(OpcodeOf(w));
    if f == FormatUnknown then Blank(w)
    else
      Decoded(
        w, OpOf(w), f, ImmOf(w),
        if f == FormatU || f == FormatJ then 0 else Rs1Of(w),
        if f == FormatR || f == FormatS || f == FormatB then Rs2Of(w) else 0,
        if f == FormatB then 0 else RdOf(w),
        if f == FormatU || f == FormatJ then 0 else Funct3Of(w),
        if f == FormatR || (OpcodeOf(w) == 0x13 && (Funct3Of(w) == 1 || Funct3Of(w) == 5)) then Funct7Of(w) else 0,
        ValidWord(w))
  }

  /** The zeroed record, with the word it is for. */
  function Blank(w: Word): Decoded {
    Decoded(w, Unknown, FormatUnknown, 0, 0, 0, 0, 0, 0, false)
  }

  lemma DecodeOp(w: Word)
    ensures Decode(w).op == OpOf(w) && Decode(w).instruction == w && Decode(w).valid == ValidWord(w)
    ensures !ValidWord(w) ==> OpOf(w) == Unknown
  {}
}
