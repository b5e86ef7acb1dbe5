/** Which words raise illegal-instruction traps. */
module IllegalWords {
  import opened Words
  import opened Instructions
  import opened Encoding
  import opened Platform
  import opened Isa

  /** The implemented encoding set: encodings of instructions with operands in range, and all fence words. */
  ghost predicate Implemented(w: Word) {
    (exists i :: InRange(i) && Encode(i) == w) || (OpcodeOf(w) == 0x0F && Funct3Of(w) < 2)
  }

  lemma KnownIffImplemented(w: Word)
    ensures OpOf(w) != Unknown <==> Implemented(w)
  {
    hide OpcodeOf, Funct3Of, InRange, Encode, ValidWord, Operands, Decode, KindOf;
    if OpOf(w) != Unknown {
      if Known(w) {
        DecodeThenEncode(w);
      } else {
        FenceWord(w);
      }
    }
    if Implemented(w) {
      if i :| InRange(i) && Encode(i) == w {
        EncodeThenDecode(i);
      } else {
        assert OpcodeOf(w) == 0x0F && Funct3Of(w) < 2;
      }
    }
  }

  lemma FenceWord(w: Word)
    requires KindOf(OpOf(w)) == KindFence
    ensures OpcodeOf(w) == 0x0F && Funct3Of(w) < 2
  {
    hide OpcodeOf, Funct3Of, Funct7Of, OpOf;
    DecodedRow(w);
  }

  /** The CSR addresses that exist here do not depend on what the CSRs hold. */
  predicate CsrExists(addr: nat) {
    LiveCsr(addr) || addr == 0x301 || ZeroCsr(addr)
  }

  lemma CsrExistsIff(csr: CsrFile, addr: nat)
    ensures CsrGet(csr, addr).Some? <==> CsrExists(addr)
  {}

  /**
   * A fetched word raises an illegal-instruction trap exactly when it is outside the implemented set, is EBREAK, or
   * accesses a CSR that does not exist; mtval is then the word.
   */
  lemma IllegalExactly(m: Machine)
    requires Fetch(m).GotWord?
    ensures var w := Fetch(m).w; var (m', r) := Step(m);
      && (r.trap == TRAP_ILLEGAL_INSTR <==>
            !Implemented(w) || w == 0x10_0073 || (IsCsr(OpOf(w)) && !CsrExists(Funct12Of(w))))
      && (r.trap == TRAP_ILLEGAL_INSTR ==> m'.csr.mcause == 2 && m'.csr.mtval == w)
  {
    hide Fetch, Implemented, OpOf, Exec, Decode, Funct12Of, CsrExists, TrapStatus, Vector, RecordedWrite;
    var w, n := Fetch(m).w, m.(bus := Fetch(m).bus);
    KnownIffImplemented(w);
    DecodeOp(w);
    EbreakWord(w);
    if OpOf(w) != Unknown {
      ExecIllegal(n, Decode(w));
      CsrExistsIff(m.csr, Funct12Of(w));
    }
  }

  lemma EbreakWord(w: Word)
    ensures OpOf(w) == EBREAK <==> w == 0x10_0073
  {
    hide OpOf;
    if OpOf(w) == EBREAK { EbreakRow(w); }
    assert OpOf(0x10_0073) == EBREAK by { EbreakOp(); }
  }

  lemma EbreakRow(w: Word)
    requires OpOf(w) == EBREAK
    ensures w == 0x10_0073
  {
    hide OpcodeOf, Funct3Of, Funct7Of, OpOf;
    DecodedRow(w);
  }

  lemma EbreakOp()
    ensures OpOf(0x10_0073) == EBREAK
  {}

  /** Among known operations only EBREAK and accesses to missing CSRs end in an illegal-instruction fault. */
  lemma ExecIllegal(m: Machine, di: Decoded)
    requires di.op != Unknown
    ensures var e := Exec(m, di);
      && (e.Fault? && e.cause == TRAP_ILLEGAL_INSTR <==>
            di.op == EBREAK || (IsCsr(di.op) && CsrGet(m.csr, Funct12Of(di.instruction)).None?))
      && (e.Fault? && e.cause == TRAP_ILLEGAL_INSTR ==> e.tval == di.instruction)
  {
    hide Exec, Alu, BusRead, BusWrite, CsrGet, CsrPut, CsrResult, CsrOperand, Funct12Of, MretStatus, Taken;
    hide Extend, Truncate;
    hide IsAlu, IsBranch, IsLoad, IsStore, IsCsr;
    if IsCsr(di.op) || di.op == EBREAK { OneClass(di.op); }
    if IsAlu(di.op) {
      ExecAlu(m, di);
    } else if di.op == JAL || di.op == JALR {
      ExecIsJump(m, di);
    } else if IsBranch(di.op) {
      ExecIsBranch(m, di);
    } else if IsLoad(di.op) {
      ExecIsLoad(m, di);
    } else if IsStore(di.op) {
      ExecIsStore(m, di);
    } else if IsCsr(di.op) {
      ExecIsCsr(m, di);
    } else {
      OtherOps(di.op);
      ExecIsOther(m, di);
    }
  }

  lemma OneClass(op: Op)
    requires IsCsr(op) || op == EBREAK
    ensures !IsAlu(op) && !IsBranch(op) && !IsLoad(op) && !IsStore(op) && op != JAL && op != JALR
    ensures !(IsCsr(op) && op == EBREAK)
  {
    match op
    case EBREAK => case CSRRW => case CSRRS => case CSRRC => case CSRRWI => case CSRRSI => case CSRRCI =>
  }
}
