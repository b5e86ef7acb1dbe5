/** src/decoder.c: field extraction by shifts and masks, and the decoder that fills its record step by step. */
module Decoder {
  import opened Words
  import opened Instructions

  function GetOpcode(w: Word): (r: Word)
    ensures r == OpcodeOf(w)
  {
    hide Bitwise, Pow2; Pow2Table(); AndMask(w, 0x80, 7);
    And(w, 0x7F)
  }

  function GetRd(w: Word): (r: Word)
    ensures r == RdOf(w)
  {
    hide Bitwise, Pow2; Pow2Table(); AndMask(Shr(w, 7), 0x20, 5);
    And(Shr(w, 7), 0x1F)
  }

  function GetFunct3(w: Word): (r: Word)
    ensures r == Funct3Of(w)
  {
    hide Bitwise, Pow2; Pow2Table(); AndMask(Shr(w, 12), 8, 3);
    And(Shr(w, 12), 0x7)
  }

  function GetRs1(w: Word): (r: Word)
    ensures r == Rs1Of(w)
  {
    hide Bitwise, Pow2; Pow2Table(); AndMask(Shr(w, 15), 0x20, 5);
    And(Shr(w, 15), 0x1F)
  }

  function GetRs2(w: Word): (r: Word)
    ensures r == Rs2Of(w)
  {
    hide Bitwise, Pow2; Pow2Table(); AndMask(Shr(w, 20), 0x20, 5);
    And(Shr(w, 20), 0x1F)
  }

  function GetFunct7(w: Word): (r: Word)
    ensures r == Funct7Of(w)
  {
    hide Bitwise, Pow2; Pow2Table(); AndMask(Shr(w, 25), 0x80, 7);
    And(Shr(w, 25), 0x7F)
  }

  function GetImmI(w: Word): (r: Word)
    ensures r == Wrap(ImmI(w))
  {
    Pow2Table();
    Sar(w, 20)
  }

  function GetImmS(w: Word): (r: Word)
    ensures r == Wrap(ImmS(w))
  {
    hide Bitwise, Pow2; Pow2Table();
    OrSum(GetFunct7(w), GetRd(w), 0x20, 5);
    SextMeaning(Or(Shl(GetFunct7(w), 5), GetRd(w)), 12, 0x1000);
    var immUnsigned := Or(Shl(GetFunct7(w), 5), GetRd(w));
    Sar(Shl(immUnsigned, 20), 20)
  }

  function GetImmU(w: Word): (r: Word)
    ensures r == ImmU(w)
  {
    hide Bitwise, Pow2; Pow2Table(); AndNotMask(w, 0x1000, 12);
    And(w, 0xFFFF_F000)
  }

  function GetImmJ(w: Word): (r: Word)
    ensures r == Wrap(ImmJ(w))
  {
    hide Bitwise, Pow2, And, Or, Shl, Sar, Twos; Pow2Table();
    AndMask(Shr(w, 31), 2, 1); AndMask(Shr(w, 21), 0x400, 10); AndMask(Shr(w, 20), 2, 1); AndMask(Shr(w, 12), 0x100, 8);
    var imm20 := And(Shr(w, 31), 0x1);
    var imm10_1 := And(Shr(w, 21), 0x3FF);
    var imm11 := And(Shr(w, 20), 0x1);
    var imm19_12 := And(Shr(w, 12), 0xFF);
    var immUnsigned := Or(Or(Or(Shl(imm20, 20), Shl(imm19_12, 12)), Shl(imm11, 11)), Shl(imm10_1, 1));
    JoinJ(imm20, imm19_12, imm11, imm10_1);
    SextJ(immUnsigned);
    Sar(Shl(immUnsigned, 11), 11)
  }

  lemma JoinJ(a: Word, b: Word, c: Word, d: Word)
    requires a < 2 && b < 0x100 && c < 2 && d < 0x400
    ensures Or(Or(Or(Shl(a, 20), Shl(b, 12)), Shl(c, 11)), Shl(d, 1)) == 0x10_0000 * a + 0x1000 * b + 0x800 * c + 2 * d
  {
    hide Bitwise, Pow2, Or;
    Pow2Table();
    OrSum(a, b * 0x1000, 0x10_0000, 20);
    OrSum(0x100 * a + b, c * 0x800, 0x1000, 12);
    OrSum(0x200 * a + 2 * b + c, d * 2, 0x800, 11);
  }

  lemma SextJ(x: Word)
    ensures Sar(Shl(x, 11), 11) == Wrap(Twos(x, 0x20_0000))
  {
    hide *;
    assert Pow2(21) == 0x20_0000 by { Pow2Table(); }
    SextMeaning(x, 21, 0x20_0000);
    assert Sext(x, 21) == Sar(Shl(x, 11), 11) by { SextShifts(x, 21); }
  }

  lemma SextShifts(x: Word, bits: nat)
    requires bits <= 32
    ensures Sext(x, bits) == Sar(Shl(x, 32 - bits), 32 - bits)
  {}

  function GetImmB(w: Word): (r: Word)
    ensures r == Wrap(ImmB(w))
  {
    hide Bitwise, Pow2, And, Or, Shl, Sar, Twos; Pow2Table();
    AndMask(Shr(w, 31), 2, 1); AndMask(Shr(w, 25), 0x40, 6); AndMask(Shr(w, 8), 0x10, 4); AndMask(Shr(w, 7), 2, 1);
    var imm12 := And(Shr(w, 31), 0x1);
    var imm10_5 := And(Shr(w, 25), 0x3F);
    var imm4_1 := And(Shr(w, 8), 0xF);
    var imm11 := And(Shr(w, 7), 0x1);
    var immUnsigned := Or(Or(Or(Shl(imm12, 12), Shl(imm11, 11)), Shl(imm10_5, 5)), Shl(imm4_1, 1));
    JoinB(imm12, imm11, imm10_5, imm4_1);
    SextB(immUnsigned);
    Sar(Shl(immUnsigned, 19), 19)
  }

  lemma JoinB(a: Word, b: Word, c: Word, d: Word)
    requires a < 2 && b < 2 && c < 0x40 && d < 0x10
    ensures Or(Or(Or(Shl(a, 12), Shl(b, 11)), Shl(c, 5)), Shl(d, 1)) == 0x1000 * a + 0x800 * b + 0x20 * c + 2 * d
  {
    hide Bitwise, Pow2, Or;
    Pow2Table();
    OrSum(a, b * 0x800, 0x1000, 12);
    OrSum(2 * a + b, c * 0x20, 0x800, 11);
    OrSum(0x80 * a + 0x40 * b + c, d * 2, 0x20, 5);
  }

  lemma SextB(x: Word)
    ensures Sar(Shl(x, 19), 19) == Wrap(Twos(x, 0x2000))
  {
    hide *;
    assert Pow2(13) == 0x2000 by { Pow2Table(); }
    SextMeaning(x, 13, 0x2000);
    assert Sext(x, 13) == Sar(Shl(x, 19), 19) by { SextShifts(x, 13); }
  }

  method DecodeInstructionU(w: Word, opcode: Word) returns (di: Decoded)
    requires opcode == OpcodeOf(w) && FormatOf(opcode) == FormatU
    ensures di == Decode(w)
  {
    hide GetOpcode, GetRd, GetRs1, GetRs2, GetFunct3, GetFunct7, GetImmI, GetImmS, GetImmB, GetImmJ, GetImmU;
    hide RdOf, Rs1Of, Rs2Of, Funct7Of, ImmI, ImmS, ImmB, ImmJ, ImmU, Twos, Wrap;
    di := Blank(w).(format := FormatU);
    match opcode {
      case 0x37 => di := di.(op := LUI);
      case 0x17 => di := di.(op := AUIPC);
      case _ => return;
    }
    di := di.(imm := GetImmU(w));
    di := di.(rd := GetRd(w));
    di := di.(valid := true);
  }

  method DecodeInstructionJ(w: Word, opcode: Word) returns (di: Decoded)
    requires opcode == OpcodeOf(w) && FormatOf(opcode) == FormatJ
    ensures di == Decode(w)
  {
    hide GetOpcode, GetRd, GetRs1, GetRs2, GetFunct3, GetFunct7, GetImmI, GetImmS, GetImmB, GetImmJ, GetImmU;
    hide RdOf, Rs1Of, Rs2Of, Funct7Of, ImmI, ImmS, ImmB, ImmJ, ImmU, Twos, Wrap;
    di := Blank(w).(format := FormatJ);
    match opcode {
      case 0x6F => di := di.(op := JAL);
      case _ => return;
    }
    di := di.(imm := GetImmJ(w));
    di := di.(rd := GetRd(w));
    di := di.(valid := true);
  }

  method DecodeInstructionB(w: Word, opcode: Word) returns (di: Decoded)
    requires opcode == OpcodeOf(w) && FormatOf(opcode) == FormatB
    ensures di == Decode(w)
  {
    hide GetOpcode, GetRd, GetRs1, GetRs2, GetFunct3, GetFunct7, GetImmI, GetImmS, GetImmB, GetImmJ, GetImmU;
    hide RdOf, Rs1Of, Rs2Of, Funct7Of, ImmI, ImmS, ImmB, ImmJ, ImmU, Twos, Wrap;
    di := Blank(w).(format := FormatB);
    di := di.(imm := GetImmB(w));
    di := di.(rs1 := GetRs1(w));
    di := di.(rs2 := GetRs2(w));
    di := di.(funct3 := GetFunct3(w));
    match di.funct3 {
      case 0 => di := di.(op := BEQ);
      case 1 => di := di.(op := BNE);
      case 4 => di := di.(op := BLT);
      case 5 => di := di.(op := BGE);
      case 6 => di := di.(op := BLTU);
      case 7 => di := di.(op := BGEU);
      case _ => di := di.(valid := false);
    }
    di := di.(valid := true); // also after a bad funct3: the op stays Unknown
  }

  method DecodeInstructionS(w: Word, opcode: Word) returns (di: Decoded)
    requires opcode == OpcodeOf(w) && FormatOf(opcode) == FormatS
    ensures di == Decode(w)
  {
    hide GetOpcode, GetRd, GetRs1, GetRs2, GetFunct3, GetFunct7, GetImmI, GetImmS, GetImmB, GetImmJ, GetImmU;
    hide RdOf, Rs1Of, Rs2Of, Funct7Of, ImmI, ImmS, ImmB, ImmJ, ImmU, Twos, Wrap;
    di := Blank(w).(format := FormatS);
    di := di.(imm := GetImmS(w));
    di := di.(rs2 := GetRs2(w));
    di := di.(rs1 := GetRs1(w));
    di := di.(funct3 := GetFunct3(w));
    di := di.(rd := GetRd(w));
    match di.funct3 {
      case 0 => di := di.(op := SB);
      case 1 => di := di.(op := SH);
      case 2 => di := di.(op := SW);
      case _ => di := di.(valid := false);
    }
    di := di.(valid := true); // also after a bad funct3: the op stays Unknown
  }

  method DecodeInstructionR(w: Word, opcode: Word) returns (di: Decoded)
    requires opcode == OpcodeOf(w) && FormatOf(opcode) == FormatR
    ensures di == Decode(w)
  {
    hide GetOpcode, GetRd, GetRs1, GetRs2, GetFunct3, GetFunct7, GetImmI, GetImmS, GetImmB, GetImmJ, GetImmU;
    hide RdOf, Rs1Of, Rs2Of, Funct7Of, ImmI, ImmS, ImmB, ImmJ, ImmU, Twos, Wrap;
    di := Blank(w).(format := FormatR);
    di := di.(imm := 0);
    di := di.(funct7 := GetFunct7(w));
    di := di.(rs2 := GetRs2(w));
    di := di.(rs1 := GetRs1(w));
    di := di.(funct3 := GetFunct3(w));
    di := di.(rd := GetRd(w));
    match di.funct7 {
      case 0x00 =>
        match di.funct3 {
          case 0 => di := di.(op := ADD);
          case 1 => di := di.(op := SLL);
          case 2 => di := di.(op := SLT);
          case 3 => di := di.(op := SLTU);
          case 4 => di := di.(op := XOR);
          case 5 => di := di.(op := SRL);
          case 6 => di := di.(op := OR);
          case 7 => di := di.(op := AND);
          case _ => return;
        }
      case 0x20 =>
        match di.funct3 {
          case 0 => di := di.(op := SUB);
          case 5 => di := di.(op := SRA);
          case _ => return;
        }
      case 0x01 =>
        match di.funct3 {
          case 0 => di := di.(op := MUL);
          case 1 => di := di.(op := MULH);
          case 2 => di := di.(op := MULHSU);
          case 3 => di := di.(op := MULHU);
          case 4 => di := di.(op := DIV);
          case 5 => di := di.(op := DIVU);
          case 6 => di := di.(op := REM);
          case 7 => di := di.(op := REMU);
          case _ => return;
        }
      case _ => return;
    }
    di := di.(valid := true);
  }

  method DecodeInstructionI(w: Word, opcode: Word) returns (di: Decoded)
    requires opcode == OpcodeOf(w) && FormatOf(opcode) == FormatI
    ensures di == Decode(w)
  {
    hide GetOpcode, GetRd, GetRs1, GetRs2, GetFunct3, GetFunct7, GetImmI, GetImmS, GetImmB, GetImmJ, GetImmU;
    hide RdOf, Rs1Of, Rs2Of, Funct7Of, ImmI, ImmS, ImmB, ImmJ, ImmU, Twos, Wrap;
    di := Blank(w).(format := FormatI);
    di := di.(funct3 := GetFunct3(w));
    di := di.(rs1 := GetRs1(w));
    di := di.(imm := GetImmI(w));
    di := di.(rd := GetRd(w));
    match opcode {
      case 0x67 =>
        match di.funct3 {
          case 0 => di := di.(op := JALR);
          case _ => return;
        }
      case 0x03 =>
        match di.funct3 {
          case 0 => di := di.(op := LB);
          case 1 => di := di.(op := LH);
          case 2 => di := di.(op := LW);
          case 4 => di := di.(op := LBU);
          case 5 => di := di.(op := LHU);
          case _ => return;
        }
      case 0x13 =>
        match di.funct3 {
          case 0 => di := di.(op := ADDI);
          case 2 => di := di.(op := SLTI);
          case 3 => di := di.(op := SLTIU);
          case 4 => di := di.(op := XORI);
          case 6 => di := di.(op := ORI);
          case 7 => di := di.(op := ANDI);
          case 1 =>
            di := di.(funct7 := GetFunct7(w));
            if di.funct7 == 0 {
              di := di.(op := SLLI);
            } else {
              return;
            }
          case 5 =>
            di := di.(funct7 := GetFunct7(w));
            if di.funct7 == 0 {
              di := di.(op := SRLI);
              di := di.(imm := GetRs2(w));
            } else if di.funct7 == 0x20 {
              di := di.(op := SRAI);
              di := di.(imm := GetRs2(w));
            } else {
              return;
            }
          case _ =>
        }
      case 0x0F =>
        di := di.(imm := 0);
        match di.funct3 {
          case 0 => di := di.(op := FENCE);
          case 1 => di := di.(op := FENCE_I);
          case _ => return;
        }
      case 0x73 =>
        di := DecodeSystem(w, di);
      case _ => return;
    }
    di := di.(valid := true);
  }

  method DecodeSystem(w: Word, di0: Decoded) returns (di: Decoded)
    requires OpcodeOf(w) == 0x73
    requires di0 == Decode(w).(op := Unknown, imm := Wrap(ImmI(w)), valid := false)
    ensures di.(valid := true) == Decode(w)
  {
    hide GetOpcode, GetRd, GetRs1, GetRs2, GetFunct3, GetFunct7, GetImmI, GetImmS, GetImmB, GetImmJ, GetImmU;
    hide RdOf, Rs1Of, Rs2Of, Funct7Of, ImmI, ImmS, ImmB, ImmJ, ImmU, Twos, Wrap;
    di := di0;
    match di.funct3 {
      case 0 => di := DecodePriv(w, di);
      case 1 => di := di.(op := CSRRW);
      case 2 => di := di.(op := CSRRS);
      case 3 => di := di.(op := CSRRC);
      case 5 => di := di.(op := CSRRWI);
      case 6 => di := di.(op := CSRRSI);
      case 7 => di := di.(op := CSRRCI);
      case _ => di := di.(valid := false);
    }
  }

  method DecodePriv(w: Word, di0: Decoded) returns (di: Decoded)
    requires OpcodeOf(w) == 0x73 && Funct3Of(w) == 0
    requires di0.imm == Wrap(ImmI(w)) && di0.rs1 == Rs1Of(w) && di0.rd == RdOf(w) && di0.op == Unknown
    ensures di == di0.(op := SystemOp(w))
  {
    hide GetRs2, And, Funct12Of, Rs2Of, Rs1Of, RdOf, OpcodeOf, Funct3Of, Wrap, ImmI;
    di := di0;
    var rs2 := GetRs2(w);
    Funct12Mask(w);
    PrivWord(w);
    var funct12 := And(di.imm, 0xFFF);
    if funct12 == 0 && di.rs1 == 0 && di.rd == 0 && rs2 == 0 {
      di := di.(op := ECALL);
      di := di.(imm := 0);
    } else if funct12 == 1 && di.rs1 == 0 && di.rd == 0 && rs2 == 1 {
      di := di.(op := EBREAK);
      di := di.(imm := 1);
    } else if funct12 == 0x302 && di.rs1 == 0 && di.rd == 0 && rs2 == 2 {
      di := di.(op := MRET);
    }
    if di.op == ECALL || di.op == EBREAK {
      di := di.(rd := 0);
      di := di.(rs1 := 0);
    }
  }

  lemma Funct12Mask(w: Word)
    ensures And(Wrap(ImmI(w)), 0xFFF) == Funct12Of(w)
  {
    hide And;
    assert Pow2(12) == 0x1000 by { Pow2Table(); }
    AndMask(Wrap(ImmI(w)), 0x1000, 12);
  }

  /** A PRIV word is determined by its funct12, rs1 and rd fields. */
  lemma PrivWord(w: Word)
    requires OpcodeOf(w) == 0x73 && Funct3Of(w) == 0
    ensures Rs1Of(w) == 0 && RdOf(w) == 0 ==> w == 0x73 + 0x10_0000 * Funct12Of(w)
    ensures w == 0x73 || w == 0x10_0073 || w == 0x3020_0073 ==> Rs1Of(w) == 0 && RdOf(w) == 0
    ensures Rs2Of(w) == Funct12Of(w) % 0x20
    ensures w / 0x10_0000 == Funct12Of(w)
    ensures Funct12Of(w) < 2 ==> Wrap(ImmI(w)) == Funct12Of(w)
  {
    FieldsOf(w);
  }

  lemma UnknownOpcode(w: Word)
    requires FormatOf(OpcodeOf(w)) == FormatUnknown
    ensures Decode(w) == Blank(w)
  {}

  method RveDecodeInstruction(w: Word) returns (di: Decoded)
    ensures di == Decode(w)
  {
    hide OpcodeOf, GetOpcode, Decode;
    var opcode := GetOpcode(w);
    di := Blank(w);
    match opcode {
      case 0x37 => di := DecodeInstructionU(w, opcode);
      case 0x17 => di := DecodeInstructionU(w, opcode);
      case 0x6F => di := DecodeInstructionJ(w, opcode);
      case 0x67 => di := DecodeInstructionI(w, opcode);
      case 0x03 => di := DecodeInstructionI(w, opcode);
      case 0x13 => di := DecodeInstructionI(w, opcode);
      case 0x0F => di := DecodeInstructionI(w, opcode);
      case 0x73 => di := DecodeInstructionI(w, opcode);
      case 0x63 => di := DecodeInstructionB(w, opcode);
      case 0x23 => di := DecodeInstructionS(w, opcode);
      case 0x33 => di := DecodeInstructionR(w, opcode);
      case _ => UnknownOpcode(w);
    }
  }
}
