/** The retirement records of a run are enough to reproduce its registers, pc and RAM. */
module Replay {
  import opened Words
  import opened Instructions
  import opened Encoding
  import opened Platform
  import opened Isa
  import opened Traps

  /** What a co-simulator keeps: registers, pc, and the RAMs behind the memory map. */
  datatype Mirror = Mirror(gpr: Registers, pc: Word, slots: seq<Slot>, rams: seq<DevState>)

  function MirrorOf(m: Machine): Mirror {
    Mirror(m.gpr, m.pc, m.bus.slots, RamView(m.bus))
  }

  /** Apply a recorded store: its bytes go to the RAM that owns its first address, if a RAM does. */
  function ReplayStore(slots: seq<Slot>, rams: seq<DevState>, store: Access): seq<DevState> {
    match Lookup(slots, store.addr)
    case None => rams
    case Some(k) =>
      var d := slots[k].dev;
      if d < |rams| && rams[d].Ram? && Holds(rams[d].base, |rams[d].bytes|, store.addr, store.size / 8) then
        rams[d := Ram(rams[d].base,
                      Splice(rams[d].bytes, store.addr - rams[d].base, ToBytes(store.value, store.size / 8)))]
      else rams
  }

  /** Apply one record: the register it names, the store it names, and its next pc. Nothing else is looked at. */
  function ReplayOne(v: Mirror, r: Retire): Mirror {
    Mirror(if r.write.Some? then v.gpr[r.write.value.rd := r.write.value.value] else v.gpr,
           r.nextPc, v.slots,
           if r.store.Some? then ReplayStore(v.slots, v.rams, r.store.value) else v.rams)
  }

  function Records(m: Machine, n: nat): (rs: seq<Retire>)
    ensures |rs| == n
    decreases n
  {
    hide Step;
    if n == 0 then [] else [Step(m).1] + Records(Next(m), n - 1)
  }

  function ReplayAll(v: Mirror, rs: seq<Retire>): Mirror
    decreases |rs|
  {
    if rs == [] then v else ReplayAll(ReplayOne(v, rs[0]), rs[1..])
  }

  lemma StoreReplays(b: BusState, a: Access)
    requires BusWrite(b, a.addr, a.value, a.size).Some?
    ensures var b' := BusWrite(b, a.addr, a.value, a.size).value;
      RamView(b') == ReplayStore(b.slots, RamView(b), a) && b'.slots == b.slots
  {
    hide UartWrite, Lookup, Splice, ToBytes;
  }

  lemma SetRegAgain(gpr: Registers, rd: Reg, v: Word)
    ensures SetReg(gpr, rd, SetReg(gpr, rd, v)[rd]) == SetReg(gpr, rd, v)
  {}

  lemma DoneGpr(m: Machine, di: Decoded)
    requires m.gpr[0] == 0 && Exec(m, di).Done?
    ensures Exec(m, di).gpr == if WritesRd(di.op) then SetReg(m.gpr, di.rd, Exec(m, di).gpr[di.rd]) else m.gpr
    ensures Exec(m, di).gpr[0] == 0
  {
    hide Alu, BusRead, BusWrite, CsrGet, CsrPut, CsrResult, CsrOperand, MretStatus, Taken, Extend, Truncate;
    assert m.gpr[0 := 0] == m.gpr;
    var gpr' := Exec(m, di).gpr;
    if WritesRd(di.op) {
      var v :| gpr' == SetReg(m.gpr, di.rd, v);
      SetRegAgain(m.gpr, di.rd, v);
    }
  }

  /** The operations that have a destination register. */
  predicate WritesRd(op: Op) {
    !(IsBranch(op) || IsStore(op) || op.FENCE? || op.FENCE_I? || op.MRET?)
  }

  lemma FormatWrites(w: Word)
    requires OpOf(w) != Unknown
    ensures IsBranch(OpOf(w)) ==> Decode(w).format == FormatB
    ensures IsStore(OpOf(w)) ==> Decode(w).format == FormatS
    ensures WritesRd(OpOf(w)) ==> Decode(w).format != FormatB && Decode(w).format != FormatS
    ensures OpOf(w) == MRET ==> Decode(w).rd == 0
  {
    hide OpcodeOf, OpOf, Row, ImmOf, FormatOf, Funct3Of, Funct7Of, RdOf;
    DecodedRowOpcode(w);
    RowFormats(OpOf(w));
    if OpOf(w) == MRET { MretRd(w); }
  }

  lemma RowFormats(op: Op)
    requires op != Unknown
    ensures IsBranch(op) ==> FormatOf(Row(op).0) == FormatB
    ensures IsStore(op) ==> FormatOf(Row(op).0) == FormatS
    ensures WritesRd(op) ==> FormatOf(Row(op).0) != FormatB && FormatOf(Row(op).0) != FormatS
  {
    hide FormatOf;
    if IsBranch(op) || IsStore(op) { RowOfBranchOrStore(op); } else { RowOfOthers(op); }
    FormatOfOpcodes(Row(op).0);
  }

  lemma FormatOfOpcodes(opcode: nat)
    ensures FormatOf(opcode) == FormatB <==> opcode == 0x63
    ensures FormatOf(opcode) == FormatS <==> opcode == 0x23
  {}

  lemma RowOfBranchOrStore(op: Op)
    requires IsBranch(op) || IsStore(op)
    ensures Row(op).0 == (if IsBranch(op) then 0x63 else 0x23) && !(IsBranch(op) && IsStore(op))
  {}

  lemma RowOfOthers(op: Op)
    requires !IsBranch(op) && !IsStore(op)
    ensures Row(op).0 != 0x63 && Row(op).0 != 0x23
  {
    match op
    case LUI => case AUIPC => case JAL => case JALR =>
    case LB => case LH => case LW => case LBU => case LHU =>
    case ADDI => case SLTI => case SLTIU => case XORI => case ORI => case ANDI =>
    case SLLI => case SRLI => case SRAI =>
    case _ =>
  }

  lemma MretRd(w: Word)
    requires OpOf(w) == MRET
    ensures RdOf(w) == 0
  {
    hide OpcodeOf, Funct3Of, Funct7Of, OpOf;
    DecodedRow(w);
  }

  /** A completed step changes the registers as its record says. */
  lemma DoneRecorded(m: Machine, w: Word)
    requires m.gpr[0] == 0 && OpOf(w) != Unknown && Exec(m, Decode(w)).Done?
    ensures var gpr' := Exec(m, Decode(w)).gpr; var write := RecordedWrite(w, gpr');
      gpr' == if write.Some? then m.gpr[write.value.rd := write.value.value] else m.gpr
  {
    hide Exec, Decode, OpOf;
    var di := Decode(w);
    DecodeOp(w);
    FormatWrites(w);
    DoneGpr(m, di);
  }

  lemma DoneBus(m: Machine, di: Decoded)
    requires Exec(m, di).Done?
    ensures var e := Exec(m, di);
      && e.bus.slots == m.bus.slots
      && RamView(e.bus) ==
           if e.store.Some? then ReplayStore(m.bus.slots, RamView(m.bus), e.store.value) else RamView(m.bus)
  {
    hide Alu, BusRead, BusWrite, CsrGet, CsrPut, CsrResult, CsrOperand, MretStatus, Taken;
    hide Extend, Truncate, RamView, ReplayStore;
    if IsLoad(di.op) {
      ReadKeeps(m.bus, Wrap(m.gpr[di.rs1] + di.imm), AccessSize(di.op));
    } else if IsStore(di.op) {
      StoreReplays(m.bus, Access(Wrap(m.gpr[di.rs1] + di.imm), Truncate(di.op, m.gpr[di.rs2]), AccessSize(di.op)));
    }
  }

  /** One step and its record: traps, ECALL, fences, stores and loads alike. */
  lemma StepReplays(m: Machine)
    requires m.gpr[0] == 0
    ensures ReplayOne(MirrorOf(m), Step(m).1) == MirrorOf(Next(m)) && Next(m).gpr[0] == 0
  {
    hide Fetch, Exec, Decode, OpOf, RamView, ReplayStore, TrapStatus, Vector, RecordedWrite;
    assert m.gpr[0 := 0] == m.gpr;
    FaultCauses(m);
    if EffectOf(m).Done? {
      var w, n := Fetch(m).w, m.(bus := Fetch(m).bus);
      FetchKeeps(m);
      DoneRecorded(n, w);
      DoneBus(n, Decode(w));
      DoneGpr(n, Decode(w));
    } else {
      TrapKeepsBus(m);
    }
  }

  lemma FetchKeeps(m: Machine)
    requires Fetch(m).GotWord?
    ensures RamView(Fetch(m).bus) == RamView(m.bus) && Fetch(m).bus.slots == m.bus.slots
  {
    hide RamView, BusRead;
    ReadKeeps(m.bus, m.pc, 32);
  }

  /**
   * Replaying the records of any run from x0 = 0 gives the final registers, pc and RAM, whatever traps occurred in it.
   */
  lemma {:induction false} RunReplays(m: Machine, n: nat)
    requires m.gpr[0] == 0
    ensures ReplayAll(MirrorOf(m), Records(m, n)) == MirrorOf(Run(m, n))
    decreases n
  {
    hide Step, Next, ReplayOne, RamView;
    if n > 0 {
      StepReplays(m);
      RunReplays(Next(m), n - 1);
      assert Records(m, n)[1..] == Records(Next(m), n - 1);
    }
  }
}
