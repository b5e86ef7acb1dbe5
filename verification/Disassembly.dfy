/** src/decoder.c, the disassembler: its text determines the instruction word. */
module Disassembly {
  import opened Words
  import opened Instructions
  import opened Encoding

  // Numbers.

  function Digit(d: nat): char
    requires d < 16
  {
    "0123456789abcdef"[d]
  }

  /** %u and %x: the digits of n, most significant first. */
  function Number(n: nat, base: nat): (s: string)
    requires base == 10 || base == 16
    ensures s != []
  {
    if n < base then [Digit(n)] else Number(n / base, base) + [Digit(n % base)]
  }

  /** %d on a uint32_t argument. */
  function SignedNumber(x: int): string {
    if x < 0 then "-" + Number(-x, 10) else Number(x, 10)
  }

  /** %03x */
  function Hex3(n: nat): string {
    var s := Number(n, 16);
    if |s| == 1 then "00" + s else if |s| == 2 then "0" + s else s
  }

  // Names.

  function AbiName(r: Reg): string {
    match r
    case 0 => "zero" case 1 => "ra" case 2 => "sp" case 3 => "gp"
    case 4 => "tp" case 5 => "t0" case 6 => "t1" case 7 => "t2"
    case 8 => "s0" case 9 => "s1" case 10 => "a0" case 11 => "a1"
    case 12 => "a2" case 13 => "a3" case 14 => "a4" case 15 => "a5"
    case 16 => "a6" case 17 => "a7" case 18 => "s2" case 19 => "s3"
    case 20 => "s4" case 21 => "s5" case 22 => "s6" case 23 => "s7"
    case 24 => "s8" case 25 => "s9" case 26 => "s10" case 27 => "s11"
    case 28 => "t3" case 29 => "t4" case 30 => "t5" case _ => "t6"
  }

  /** %-8s of the mnemonic. */
  function Mnemonic(op: Op): string {
    match op
    case LUI => "lui     " case AUIPC => "auipc   " case JAL => "jal     " case JALR => "jalr    "
    case BEQ => "beq     " case BNE => "bne     " case BLT => "blt     " case BGE => "bge     "
    case BLTU => "bltu    " case BGEU => "bgeu    " case LB => "lb      " case LH => "lh      "
    case LW => "lw      " case LBU => "lbu     " case LHU => "lhu     " case SB => "sb      "
    case SH => "sh      " case SW => "sw      " case ADDI => "addi    " case SLTI => "slti    "
    case SLTIU => "sltiu   " case XORI => "xori    " case ORI => "ori     " case ANDI => "andi    "
    case SLLI => "slli    " case SRLI => "srli    " case SRAI => "srai    " case ADD => "add     "
    case SUB => "sub     " case SLL => "sll     " case SLT => "slt     " case SLTU => "sltu    "
    case XOR => "xor     " case SRL => "srl     " case SRA => "sra     " case OR => "or      "
    case AND => "and     " case ECALL => "ecall   " case EBREAK => "ebreak  " case MRET => "mret    "
    case CSRRW => "csrrw   " case CSRRS => "csrrs   " case CSRRC => "csrrc   " case CSRRWI => "csrrwi  "
    case CSRRSI => "csrrsi  " case CSRRCI => "csrrci  " case FENCE => "fence   " case FENCE_I => "fence.i "
    case _ => ""
  }

  /** The operations that the disassembler prints in full; it has no case for multiplication and division. */
  predicate Printed(op: Op) {
    Mnemonic(op) != "" && op != FENCE && op != FENCE_I
  }

  // Text.

  function Indexed(offset: int, base: Reg): string {
    SignedNumber(offset) + "(" + AbiName(base) + ")"
  }

  /** The operand fields of an instruction, in printing order. */
  function Fields(di: Decoded): seq<string> {
    match KindOf(di.op)
    case KindU => [AbiName(di.rd), "0x" + Number(Shr(di.imm, 12), 16)]
    case KindJ => [AbiName(di.rd), SignedNumber(Signed(di.imm))]
    case KindB => [AbiName(di.rs1), AbiName(di.rs2), SignedNumber(Signed(di.imm))]
    case KindS => [AbiName(di.rs2), Indexed(Signed(di.imm), di.rs1)]
    case KindI =>
      if di.op == JALR || IsLoadOp(di.op)
      then [AbiName(di.rd), Indexed(Signed(di.imm), di.rs1)]
      else if di.op == SLTIU then [AbiName(di.rd), AbiName(di.rs1), Number(di.imm, 10)]
      else [AbiName(di.rd), AbiName(di.rs1), SignedNumber(Signed(di.imm))]
    case KindShift => [AbiName(di.rd), AbiName(di.rs1), Number(And(di.imm, 0x1F), 10)]
    case KindR => [AbiName(di.rd), AbiName(di.rs1), AbiName(di.rs2)]
    case KindCsr =>
      [AbiName(di.rd), "0x" + Hex3(And(di.imm, 0xFFF)),
       if di.op == CSRRW || di.op == CSRRS || di.op == CSRRC then AbiName(di.rs1) else Number(di.rs1, 10)]
    case _ => []
  }

  function Join(fields: seq<string>): string {
    if fields == [] then ""
    else if |fields| == 1 then fields[0]
    else fields[0] + ", " + Join(fields[1..])
  }

  /** The text of an instruction that is printed by mnemonic. */
  function Text(di: Decoded): string {
    if Fields(di) == [] then Mnemonic(di.op) else Mnemonic(di.op) + " " + Join(Fields(di))
  }

  // Reading the text back: numbers.

  function DigitValue(c: char): int {
    if '0' <= c <= '9' then c as int - '0' as int else c as int - 'a' as int + 10
  }

  function Value(s: string, base: nat): int {
    if s == [] then 0 else Value(s[..|s| - 1], base) * base + DigitValue(s[|s| - 1])
  }

  lemma DigitInverse(d: nat)
    requires d < 16
    ensures DigitValue(Digit(d)) == d && ('0' <= Digit(d) <= '9' || 'a' <= Digit(d) <= 'f')
  {}

  predicate Alphanumeric(s: string) {
    forall i :: 0 <= i < |s| ==> '0' <= s[i] <= '9' || 'a' <= s[i] <= 'z'
  }

  lemma {:induction false} NumberInverse(n: nat, base: nat)
    requires base == 10 || base == 16
    ensures Value(Number(n, base), base) == n && Alphanumeric(Number(n, base))
  {
    if n < base {
      DigitInverse(n);
      assert Number(n, base)[..0] == [];
    } else {
      NumberInverse(n / base, base);
      DigitInverse(n % base);
      assert Number(n, base)[..|Number(n, base)| - 1] == Number(n / base, base);
      DivMod(n, base);
    }
  }

  lemma {:induction false} LeadingZero(s: string, base: nat)
    ensures Value("0" + s, base) == Value(s, base)
  {
    if s == [] {
      assert ("0" + s)[..0] == [];
    } else {
      LeadingZero(s[..|s| - 1], base);
      assert ("0" + s)[..|s|] == "0" + s[..|s| - 1];
    }
  }

  lemma Hex3Inverse(n: nat)
    ensures Value(Hex3(n), 16) == n && Alphanumeric(Hex3(n))
  {
    hide Number, Value;
    var s := Number(n, 16);
    NumberInverse(n, 16);
    LeadingZero(s, 16);
    LeadingZero("0" + s, 16);
    assert "00" + s == "0" + ("0" + s);
  }

  function SignedValue(s: string): int {
    if s != [] && s[0] == '-' then -Value(s[1..], 10) else Value(s, 10)
  }

  lemma SignedInverse(x: int)
    ensures SignedValue(SignedNumber(x)) == x && ',' !in SignedNumber(x) && '(' !in SignedNumber(x)
  {
    hide Number, Value;
    NumberInverse(if x < 0 then -x else x, 10);
  }

  // Reading the text back: names.

  function NameCode(s: string): int
    requires 2 <= |s|
  {
    |s| + 8 * (s[0] as int) + 0x400 * (s[|s| - 1] as int) + 0x2_0000 * (s[1] as int)
  }

  function RegOfCode(c: int): Reg {
    if c == 0xCBBFD4 then 0
    else if c == 0xC38792 then 1
    else if c == 0xE1C39A then 2
    else if c == 0xE1C33A then 3
    else if c == 0xE1C3A2 then 4
    else if c == 0x60C3A2 then 5
    else if c == 0x62C7A2 then 6
    else if c == 0x64CBA2 then 7
    else if c == 0x60C39A then 8
    else if c == 0x62C79A then 9
    else if c == 0x60C30A then 10
    else if c == 0x62C70A then 11
    else if c == 0x64CB0A then 12
    else if c == 0x66CF0A then 13
    else if c == 0x68D30A then 14
    else if c == 0x6AD70A then 15
    else if c == 0x6CDB0A then 16
    else if c == 0x6EDF0A then 17
    else if c == 0x64CB9A then 18
    else if c == 0x66CF9A then 19
    else if c == 0x68D39A then 20
    else if c == 0x6AD79A then 21
    else if c == 0x6CDB9A then 22
    else if c == 0x6EDF9A then 23
    else if c == 0x70E39A then 24
    else if c == 0x72E79A then 25
    else if c == 0x62C39B then 26
    else if c == 0x62C79B then 27
    else if c == 0x66CFA2 then 28
    else if c == 0x68D3A2 then 29
    else if c == 0x6AD7A2 then 30
    else if c == 0x6CDBA2 then 31
    else 0
  }

  lemma AbiInverse(r: Reg)
    ensures 2 <= |AbiName(r)| && RegOfCode(NameCode(AbiName(r))) == r && Alphanumeric(AbiName(r))
  {}

  function MnemonicCode(s: string): int
    requires 8 <= |s|
  {
    s[0] as int + 0x80 * (s[1] as int) + 0x4000 * (s[2] as int) + 0x20_0000 * (s[3] as int)
    + 0x1000_0000 * (s[4] as int) + 0x8_0000_0000 * (s[5] as int) + 0x400_0000_0000 * (s[6] as int)
    + 0x2_0000_0000_0000 * (s[7] as int)
  }

  function OpOfCode(c: int): Op {
    if c == 0x408102041A7AEC then LUI
    else if c == 0x4081063E1A7AE1 then AUIPC
    else if c == 0x408102041B30EA then JAL
    else if c == 0x4081020E5B30EA then JALR
    else if c == 0x408102041C72E2 then BEQ
    else if c == 0x40810204197762 then BNE
    else if c == 0x408102041D3662 then BLT
    else if c == 0x408102041973E2 then BGE
    else if c == 0x4081020EBD3662 then BLTU
    else if c == 0x4081020EB973E2 then BGEU
    else if c == 0x4081020408316C then LB
    else if c == 0x4081020408346C then LH
    else if c == 0x40810204083BEC then LW
    else if c == 0x408102041D716C then LBU
    else if c == 0x408102041D746C then LHU
    else if c == 0x40810204083173 then SB
    else if c == 0x40810204083473 then SH
    else if c == 0x40810204083BF3 then SW
    else if c == 0x4081020D393261 then ADDI
    else if c == 0x4081020D3D3673 then SLTI
    else if c == 0x4081075D3D3673 then SLTIU
    else if c == 0x4081020D3CB7F8 then XORI
    else if c == 0x408102041A796F then ORI
    else if c == 0x4081020D393761 then ANDI
    else if c == 0x4081020D3B3673 then SLLI
    else if c == 0x4081020D3B3973 then SRLI
    else if c == 0x4081020D387973 then SRAI
    else if c == 0x40810204193261 then ADD
    else if c == 0x4081020418BAF3 then SUB
    else if c == 0x408102041B3673 then SLL
    else if c == 0x408102041D3673 then SLT
    else if c == 0x4081020EBD3673 then SLTU
    else if c == 0x408102041CB7F8 then XOR
    else if c == 0x408102041B3973 then SRL
    else if c == 0x40810204187973 then SRA
    else if c == 0x4081020408396F then OR
    else if c == 0x40810204193761 then AND
    else if c == 0x408106CD9871E5 then ECALL
    else if c == 0x40835E1CBCB165 then EBREAK
    else if c == 0x4081020E99796D then MRET
    else if c == 0x4081077E5CB9E3 then CSRRW
    else if c == 0x4081073E5CB9E3 then CSRRS
    else if c == 0x4081063E5CB9E3 then CSRRC
    else if c == 0x40834F7E5CB9E3 then CSRRWI
    else if c == 0x40834F3E5CB9E3 then CSRRSI
    else if c == 0x40834E3E5CB9E3 then CSRRCI
    else Unknown
  }

  lemma MnemonicInverse(op: Op)
    requires Printed(op)
    ensures |Mnemonic(op)| == 8 && OpOfCode(MnemonicCode(Mnemonic(op))) == op
  {
    hide Mnemonic, OpOfCode, MnemonicCode;
    match KindOf(op)
    case KindR => MnemonicInverseR(op);
    case KindI => MnemonicInverseI(op);
    case KindB => MnemonicInverseB(op);
    case KindCsr => MnemonicInverseCsr(op);
    case _ => MnemonicInverseOther(op);
  }

  lemma MnemonicInverseR(op: Op)
    requires Printed(op) && KindOf(op) == KindR
    ensures |Mnemonic(op)| == 8 && OpOfCode(MnemonicCode(Mnemonic(op))) == op
  {}

  lemma MnemonicInverseI(op: Op)
    requires Printed(op) && KindOf(op) == KindI
    ensures |Mnemonic(op)| == 8 && OpOfCode(MnemonicCode(Mnemonic(op))) == op
  {}

  lemma MnemonicInverseB(op: Op)
    requires KindOf(op) == KindB
    ensures |Mnemonic(op)| == 8 && OpOfCode(MnemonicCode(Mnemonic(op))) == op
  {}

  lemma MnemonicInverseCsr(op: Op)
    requires KindOf(op) == KindCsr
    ensures |Mnemonic(op)| == 8 && OpOfCode(MnemonicCode(Mnemonic(op))) == op
  {}

  lemma MnemonicInverseOther(op: Op)
    requires Printed(op) && KindOf(op) != KindR && KindOf(op) != KindI && KindOf(op) != KindB && KindOf(op) != KindCsr
    ensures |Mnemonic(op)| == 8 && OpOfCode(MnemonicCode(Mnemonic(op))) == op
  {}

  // Reading the text back: separators.

  /** Two strings cut at the first occurrence of a character. */
  lemma CutAt(c: char, a: string, x: string, b: string, y: string)
    requires c !in a && c !in b && a + [c] + x == b + [c] + y
    ensures a == b && x == y
  {
    var s := a + [c] + x;
    assert s[|a|] == c && s[|b|] == c;
    assert forall i :: 0 <= i < |b| ==> s[i] == b[i] && b[i] != c;
    assert forall i :: 0 <= i < |a| ==> s[i] == a[i] && a[i] != c;
    assert |a| == |b|;
    assert s[..|a|] == a && s[..|b|] == b;
    assert s[|a| + 1..] == x && s[|b| + 1..] == y;
  }

  ghost predicate NoComma(fields: seq<string>) {
    forall i :: 0 <= i < |fields| ==> ',' !in fields[i]
  }

  /** Fields without commas can be read back from their joined text. */
  lemma {:induction false} JoinInverse(f: seq<string>, g: seq<string>)
    requires |f| == |g| && NoComma(f) && NoComma(g) && Join(f) == Join(g)
    ensures f == g
  {
    if |f| > 1 {
      assert Join(f) == f[0] + [','] + (" " + Join(f[1..]));
      assert Join(g) == g[0] + [','] + (" " + Join(g[1..]));
      CutAt(',', f[0], " " + Join(f[1..]), g[0], " " + Join(g[1..]));
      assert (" " + Join(f[1..]))[1..] == Join(f[1..]) && (" " + Join(g[1..]))[1..] == Join(g[1..]);
      JoinInverse(f[1..], g[1..]);
    }
  }

  lemma IndexedInverse(x: int, r: Reg, y: int, q: Reg)
    requires Indexed(x, r) == Indexed(y, q)
    ensures x == y && r == q
  {
    hide AbiName, SignedNumber, SignedValue, Alphanumeric;
    SignedInverse(x);
    SignedInverse(y);
    var a, b := AbiName(r) + ")", AbiName(q) + ")";
    assert Indexed(x, r) == SignedNumber(x) + ['('] + a;
    assert Indexed(y, q) == SignedNumber(y) + ['('] + b;
    CutAt('(', SignedNumber(x), a, SignedNumber(y), b);
    assert a[..|a| - 1] == AbiName(r) && b[..|b| - 1] == AbiName(q);
    AbiInverse(r);
    AbiInverse(q);
  }

  lemma FieldsHaveNoComma(di: Decoded)
    ensures NoComma(Fields(di))
  {
    hide AbiName, SignedNumber, Number, Hex3, And, Shr, KindOf, Signed, RegOfCode;
    AbiInverse(di.rd);
    AbiInverse(di.rs1);
    AbiInverse(di.rs2);
    SignedInverse(Signed(di.imm));
    NumberInverse(Shr(di.imm, 12), 16);
    NumberInverse(And(di.imm, 0x1F), 10);
    NumberInverse(di.imm, 10);
    NumberInverse(di.rs1, 10);
    Hex3Inverse(And(di.imm, 0xFFF));
  }

  // The fields determine the operands.

  lemma AbiInjective(r: Reg, q: Reg)
    requires AbiName(r) == AbiName(q)
    ensures r == q
  {
    hide AbiName, NameCode, RegOfCode, Alphanumeric;
    AbiInverse(r);
    AbiInverse(q);
  }

  lemma NumberInjective(m: nat, n: nat, base: nat)
    requires (base == 10 || base == 16) && Number(m, base) == Number(n, base)
    ensures m == n
  {
    hide Number, Value, Alphanumeric;
    NumberInverse(m, base);
    NumberInverse(n, base);
  }

  lemma SignedInjective(x: int, y: int)
    requires SignedNumber(x) == SignedNumber(y)
    ensures x == y
  {
    hide SignedNumber, SignedValue;
    SignedInverse(x);
    SignedInverse(y);
  }

  /** Masks and shifts that the printer applies to immediates, in arithmetic. */
  lemma PrintedImmediate(imm: Word)
    ensures Shr(imm, 12) == imm / 0x1000 && And(imm, 0x1F) == imm % 0x20 && And(imm, 0xFFF) == imm % 0x1000
  {
    hide And, Pow2;
    Pow2Table();
    AndMask(imm, 0x20, 5);
    AndMask(imm, 0x1000, 12);
  }

  lemma PrefixedInjective(p: string, s: string, t: string)
    requires p + s == p + t
    ensures s == t
  {
    assert (p + s)[|p|..] == s && (p + t)[|p|..] == t;
  }

  predicate IsLoadOp(op: Op) {
    op == LB || op == LH || op == LW || op == LBU || op == LHU
  }

  lemma Hex3Injective(m: nat, n: nat)
    requires Hex3(m) == Hex3(n)
    ensures m == n
  {
    hide Hex3, Value, Alphanumeric;
    Hex3Inverse(m);
    Hex3Inverse(n);
  }

  lemma SmallImmediate(imm: Word)
    requires 0 <= Signed(imm) < 0x20
    ensures imm % 0x20 == Signed(imm)
  {}

  lemma FieldsR(a: Decoded, b: Decoded)
    requires KindOf(a.op) == KindR
    requires a.op == b.op && Fields(a) == Fields(b) && InRange(Operands(a)) && InRange(Operands(b))
    ensures Operands(a) == Operands(b)
  {
    hide AbiName, SignedNumber, Number, Hex3, And, Shr, Signed, Indexed, KindOf;
    assert forall i :: 0 <= i < |Fields(a)| ==> Fields(a)[i] == Fields(b)[i];
    AbiInjective(a.rd, b.rd);
    AbiInjective(a.rs1, b.rs1);
    AbiInjective(a.rs2, b.rs2);
  }

  lemma FieldsI(a: Decoded, b: Decoded)
    requires KindOf(a.op) == KindI
    requires a.op == b.op && Fields(a) == Fields(b) && InRange(Operands(a)) && InRange(Operands(b))
    ensures Operands(a) == Operands(b)
  {
    hide AbiName, SignedNumber, Number, Hex3, And, Shr, Signed, Indexed, KindOf;
    assert forall i :: 0 <= i < |Fields(a)| ==> Fields(a)[i] == Fields(b)[i];
    AbiInjective(a.rd, b.rd);
    if a.op == JALR || IsLoadOp(a.op) {
      IndexedInverse(Signed(a.imm), a.rs1, Signed(b.imm), b.rs1);
    } else {
      AbiInjective(a.rs1, b.rs1);
      if a.op == SLTIU {
        NumberInjective(a.imm, b.imm, 10);
      } else {
        SignedInjective(Signed(a.imm), Signed(b.imm));
      }
    }
  }

  lemma FieldsShift(a: Decoded, b: Decoded)
    requires KindOf(a.op) == KindShift
    requires a.op == b.op && Fields(a) == Fields(b) && InRange(Operands(a)) && InRange(Operands(b))
    ensures Operands(a) == Operands(b)
  {
    hide AbiName, SignedNumber, Number, Hex3, And, Shr, Signed, Indexed, KindOf;
    assert forall i :: 0 <= i < |Fields(a)| ==> Fields(a)[i] == Fields(b)[i];
    AbiInjective(a.rd, b.rd);
    AbiInjective(a.rs1, b.rs1);
    PrintedImmediate(a.imm);
    PrintedImmediate(b.imm);
    SmallImmediate(a.imm);
    SmallImmediate(b.imm);
    NumberInjective(And(a.imm, 0x1F), And(b.imm, 0x1F), 10);
  }

  lemma FieldsCsr(a: Decoded, b: Decoded)
    requires KindOf(a.op) == KindCsr
    requires a.op == b.op && Fields(a) == Fields(b) && InRange(Operands(a)) && InRange(Operands(b))
    ensures Operands(a) == Operands(b)
  {
    hide AbiName, SignedNumber, Number, Hex3, And, Shr, Signed, Indexed, KindOf;
    assert forall i :: 0 <= i < |Fields(a)| ==> Fields(a)[i] == Fields(b)[i];
    AbiInjective(a.rd, b.rd);
    PrintedImmediate(a.imm);
    PrintedImmediate(b.imm);
    PrefixedInjective("0x", Hex3(And(a.imm, 0xFFF)), Hex3(And(b.imm, 0xFFF)));
    Hex3Injective(And(a.imm, 0xFFF), And(b.imm, 0xFFF));
    if a.op == CSRRW || a.op == CSRRS || a.op == CSRRC {
      AbiInjective(a.rs1, b.rs1);
    } else {
      NumberInjective(a.rs1, b.rs1, 10);
    }
  }

  lemma FieldsS(a: Decoded, b: Decoded)
    requires KindOf(a.op) == KindS
    requires a.op == b.op && Fields(a) == Fields(b) && InRange(Operands(a)) && InRange(Operands(b))
    ensures Operands(a) == Operands(b)
  {
    hide AbiName, SignedNumber, Number, Hex3, And, Shr, Signed, Indexed, KindOf;
    assert forall i :: 0 <= i < |Fields(a)| ==> Fields(a)[i] == Fields(b)[i];
    AbiInjective(a.rs2, b.rs2);
    IndexedInverse(Signed(a.imm), a.rs1, Signed(b.imm), b.rs1);
  }

  lemma FieldsB(a: Decoded, b: Decoded)
    requires KindOf(a.op) == KindB
    requires a.op == b.op && Fields(a) == Fields(b) && InRange(Operands(a)) && InRange(Operands(b))
    ensures Operands(a) == Operands(b)
  {
    hide AbiName, SignedNumber, Number, Hex3, And, Shr, Signed, Indexed, KindOf;
    assert forall i :: 0 <= i < |Fields(a)| ==> Fields(a)[i] == Fields(b)[i];
    AbiInjective(a.rs1, b.rs1);
    AbiInjective(a.rs2, b.rs2);
    SignedInjective(Signed(a.imm), Signed(b.imm));
  }

  lemma FieldsU(a: Decoded, b: Decoded)
    requires KindOf(a.op) == KindU
    requires a.op == b.op && Fields(a) == Fields(b) && InRange(Operands(a)) && InRange(Operands(b))
    ensures Operands(a) == Operands(b)
  {
    hide AbiName, SignedNumber, Number, Hex3, And, Shr, Signed, Indexed, KindOf;
    assert forall i :: 0 <= i < |Fields(a)| ==> Fields(a)[i] == Fields(b)[i];
    AbiInjective(a.rd, b.rd);
    PrintedImmediate(a.imm);
    PrintedImmediate(b.imm);
    PrefixedInjective("0x", Number(Shr(a.imm, 12), 16), Number(Shr(b.imm, 12), 16));
    NumberInjective(Shr(a.imm, 12), Shr(b.imm, 12), 16);
  }

  lemma FieldsJ(a: Decoded, b: Decoded)
    requires KindOf(a.op) == KindJ
    requires a.op == b.op && Fields(a) == Fields(b) && InRange(Operands(a)) && InRange(Operands(b))
    ensures Operands(a) == Operands(b)
  {
    hide AbiName, SignedNumber, Number, Hex3, And, Shr, Signed, Indexed, KindOf;
    assert forall i :: 0 <= i < |Fields(a)| ==> Fields(a)[i] == Fields(b)[i];
    AbiInjective(a.rd, b.rd);
    SignedInjective(Signed(a.imm), Signed(b.imm));
  }

  /** Two records of the same printed operation with the same fields have the same operands. */
  lemma FieldsDetermine(a: Decoded, b: Decoded)
    requires Printed(a.op)
    requires a.op == b.op && Fields(a) == Fields(b) && InRange(Operands(a)) && InRange(Operands(b))
    ensures Operands(a) == Operands(b)
  {
    hide Fields, Operands, InRange;
    PrintedKind(a.op);
    hide KindOf;
    match KindOf(a.op)
    case KindR => FieldsR(a, b);
    case KindI => FieldsI(a, b);
    case KindShift => FieldsShift(a, b);
    case KindCsr => FieldsCsr(a, b);
    case KindS => FieldsS(a, b);
    case KindB => FieldsB(a, b);
    case KindU => FieldsU(a, b);
    case KindJ => FieldsJ(a, b);
    case KindFixed => FieldsFixed(a, b);
  }

  lemma PrintedKind(op: Op)
    requires Printed(op)
    ensures KindOf(op) != KindNone && KindOf(op) != KindFence
  {}

  lemma FieldsFixed(a: Decoded, b: Decoded)
    requires KindOf(a.op) == KindFixed && a.op == b.op
    ensures Operands(a) == Operands(b)
  {}

  lemma FieldCount(a: Decoded, b: Decoded)
    requires a.op == b.op
    ensures |Fields(a)| == |Fields(b)|
  {
    hide AbiName, SignedNumber, Number, Hex3, And, Shr, Signed, Indexed, KindOf;
  }

  /** The operation can be read off the first eight characters. */
  lemma TextOp(a: Decoded, b: Decoded)
    requires Printed(a.op) && Printed(b.op) && Text(a) == Text(b)
    ensures a.op == b.op
  {
    hide Mnemonic, MnemonicCode, OpOfCode, Fields, Join;
    MnemonicInverse(a.op);
    MnemonicInverse(b.op);
    assert Text(a)[..8] == Mnemonic(a.op) && Text(b)[..8] == Mnemonic(b.op);
  }

  lemma TextFields(a: Decoded, b: Decoded)
    requires a.op == b.op && Printed(a.op) && Text(a) == Text(b)
    ensures Fields(a) == Fields(b)
  {
    hide Mnemonic, MnemonicCode, OpOfCode, Fields, Join;
    FieldCount(a, b);
    FieldsHaveNoComma(a);
    FieldsHaveNoComma(b);
    if Fields(a) != [] {
      PrefixedInjective(Mnemonic(a.op) + " ", Join(Fields(a)), Join(Fields(b)));
      JoinInverse(Fields(a), Fields(b));
    }
  }

  /** Two words that disassemble to the same text, by mnemonic, are the same word. */
  lemma DisassemblyIsInjective(v: Word, w: Word)
    requires Printed(OpOf(v)) && Printed(OpOf(w)) && Text(Decode(v)) == Text(Decode(w))
    ensures v == w
  {
    hide Text, Fields, Operands, InRange, Encode, OpOf, Mnemonic, Printed;
    var a, b := Decode(v), Decode(w);
    DecodeOp(v);
    DecodeOp(w);
    PrintedIsKnown(v);
    PrintedIsKnown(w);
    TextOp(a, b);
    TextFields(a, b);
    DecodeThenEncode(v);
    DecodeThenEncode(w);
    FieldsDetermine(a, b);
  }

  lemma PrintedIsKnown(w: Word)
    requires Printed(OpOf(w))
    ensures Known(w)
  {
    hide OpOf;
  }

  /** The remaining known words do collide: fences show no operands, multiplications and divisions only their number. */
  lemma UnprintedCollide(v: Word, w: Word)
    requires OpOf(v) == OpOf(w) != Unknown && !Printed(OpOf(v))
    ensures FullText(Decode(v)) == FullText(Decode(w))
  {
    hide OpOf, Decode, FullText, Printed;
    DecodeOp(v);
    DecodeOp(w);
    SameFullText(Decode(v), Decode(w));
  }

  lemma SameFullText(a: Decoded, b: Decoded)
    requires a.valid && b.valid && a.op == b.op != Unknown && !Printed(a.op)
    ensures FullText(a) == FullText(b)
  {
    hide Number, OpNumber, Mnemonic, Join, UpperHex, Fields;
    if Mnemonic(a.op) != "" {
      FenceFields(a);
      FenceFields(b);
    }
  }

  lemma FenceFields(di: Decoded)
    requires di.op == FENCE || di.op == FENCE_I
    ensures Fields(di) == []
  {
    hide KindOf, AbiName, Indexed, Number, SignedNumber, And, Shr;
    FenceKind(di.op);
  }

  lemma FenceKind(op: Op)
    requires op == FENCE || op == FENCE_I
    ensures KindOf(op) == KindFence
  {}

  // What the fields say, read by the inverses above.

  predicate Names(s: string, r: Reg) {
    2 <= |s| && RegOfCode(NameCode(s)) == r
  }

  /** s reads offset(base). */
  ghost predicate ReadsIndexed(s: string, offset: int, base: Reg) {
    exists o, b :: s == o + "(" + b + ")" && '(' !in o && SignedValue(o) == offset && Names(b, base)
  }

  /** s reads 0x and a hexadecimal number. */
  ghost predicate ReadsHex(s: string, n: int) {
    |s| > 2 && s[..2] == "0x" && Value(s[2..], 16) == n
  }

  /**
   * The fields f are the operands of i in assembly order: destination, sources, immediate; base registers in
   * parentheses.
   */
  ghost predicate Spells(f: seq<string>, i: Instr) {
    match KindOf(i.op)
    case KindR => |f| == 3 && Names(f[0], i.rd) && Names(f[1], i.rs1) && Names(f[2], i.rs2)
    case KindI =>
      if i.op == JALR || IsLoadOp(i.op) then |f| == 2 && Names(f[0], i.rd) && ReadsIndexed(f[1], i.imm, i.rs1)
      else
        && |f| == 3 && Names(f[0], i.rd) && Names(f[1], i.rs1)
        && (if i.op == SLTIU then Value(f[2], 10) == Wrap(i.imm) else SignedValue(f[2]) == i.imm)
    case KindShift => |f| == 3 && Names(f[0], i.rd) && Names(f[1], i.rs1) && Value(f[2], 10) == i.imm
    case KindCsr =>
      && |f| == 3 && Names(f[0], i.rd) && ReadsHex(f[1], i.imm) && |f[1]| >= 5
      && (if i.op == CSRRW || i.op == CSRRS || i.op == CSRRC then Names(f[2], i.rs1) else Value(f[2], 10) == i.rs1)
    case KindS => |f| == 2 && Names(f[0], i.rs2) && ReadsIndexed(f[1], i.imm, i.rs1)
    case KindB => |f| == 3 && Names(f[0], i.rs1) && Names(f[1], i.rs2) && SignedValue(f[2]) == i.imm
    case KindU => |f| == 2 && Names(f[0], i.rd) && ReadsHex(f[1], i.imm / 0x1000)
    case KindJ => |f| == 2 && Names(f[0], i.rd) && SignedValue(f[1]) == i.imm
    case _ => f == []
  }

  /**
   * The text of a word printed by mnemonic is the mnemonic and the word's operands, as numbers and registers, in order.
   */
  lemma TextSpellsOperands(w: Word)
    requires Printed(OpOf(w))
    ensures exists f ::
      && Text(Decode(w)) == (if f == [] then Mnemonic(OpOf(w)) else Mnemonic(OpOf(w)) + " " + Join(f))
      && NoComma(f) && Spells(f, Reading(w))
  {
    hide OpOf, Decode, Fields, Reading, Spells, Mnemonic, Printed, Join, InRange, Operands;
    PrintedIsKnown(w);
    DecodeOp(w);
    OperandsReading(w);
    ReadingInRange(w);
    FieldsSpell(Decode(w));
    FieldsHaveNoComma(Decode(w));
    var f := Fields(Decode(w));
    assert Text(Decode(w)) == if f == [] then Mnemonic(OpOf(w)) else Mnemonic(OpOf(w)) + " " + Join(f);
  }

  lemma NamesAbi(r: Reg)
    ensures Names(AbiName(r), r)
  {
    hide AbiName, NameCode, RegOfCode;
    AbiInverse(r);
  }

  lemma IndexedReads(offset: int, base: Reg)
    ensures ReadsIndexed(Indexed(offset, base), offset, base)
  {
    hide AbiName, Names, SignedNumber, SignedValue;
    NamesAbi(base);
    SignedInverse(offset);
    assert Indexed(offset, base) == SignedNumber(offset) + "(" + AbiName(base) + ")";
  }

  lemma HexReads(s: string, n: int)
    requires s != [] && Value(s, 16) == n
    ensures ReadsHex("0x" + s, n)
  {
    assert ("0x" + s)[2..] == s;
  }

  lemma Hex3Length(n: nat)
    ensures |Hex3(n)| >= 3
  {
    hide Number;
  }

  lemma FieldsSpell(di: Decoded)
    requires InRange(Operands(di)) && Printed(di.op)
    ensures Spells(Fields(di), Operands(di))
  {
    hide AbiName, Number, Hex3, And, Shr, Signed, Indexed, SignedNumber, Names, ReadsHex, ReadsIndexed;
    hide Value, SignedValue, Mnemonic, Wrap, KindOf, Alphanumeric;
    NamesAbi(di.rd);
    NamesAbi(di.rs1);
    NamesAbi(di.rs2);
    PrintedKind(di.op);
    match KindOf(di.op)
    case KindU =>
      PrintedImmediate(di.imm);
      NumberInverse(Shr(di.imm, 12), 16);
      HexReads(Number(Shr(di.imm, 12), 16), Shr(di.imm, 12));
    case KindJ => SignedInverse(Signed(di.imm));
    case KindB => SignedInverse(Signed(di.imm));
    case KindS => IndexedReads(Signed(di.imm), di.rs1);
    case KindI =>
      SignedInverse(Signed(di.imm));
      IndexedReads(Signed(di.imm), di.rs1);
      NumberInverse(di.imm, 10);
      WrapSignedImmediate(di.imm);
    case KindShift => NumberInverse(And(di.imm, 0x1F), 10); PrintedImmediate(di.imm); SmallImmediate(di.imm);
    case KindCsr =>
      PrintedImmediate(di.imm);
      Hex3Inverse(And(di.imm, 0xFFF));
      Hex3Length(And(di.imm, 0xFFF));
      HexReads(Hex3(And(di.imm, 0xFFF)), And(di.imm, 0xFFF));
      NumberInverse(di.rs1, 10);
    case _ =>
  }

  lemma WrapSignedImmediate(imm: Word)
    ensures Wrap(Signed(imm)) == imm
  {}

  // The text of the records that are not printed by mnemonic, and the buffer.

  function UpperHex(n: nat, digits: nat): string
    decreases digits
  {
    if digits == 0 then "" else UpperHex(n / 16, digits - 1) + ["0123456789ABCDEF"[n % 16]]
  }

  function UpperDigitValue(c: char): int {
    if c <= '9' then c as int - '0' as int else c as int - 'A' as int + 10
  }

  function UpperValue(s: string): int {
    if s == [] then 0 else UpperValue(s[..|s| - 1]) * 16 + UpperDigitValue(s[|s| - 1])
  }

  lemma UpperDigitInverse(d: nat)
    requires d < 16
    ensures UpperDigitValue("0123456789ABCDEF"[d]) == d
  {}

  lemma {:induction false} UpperHexInverse(n: nat, digits: nat)
    requires n < Pow2(4 * digits)
    ensures |UpperHex(n, digits)| == digits && UpperValue(UpperHex(n, digits)) == n
    decreases digits
  {
    hide Pow2, UpperDigitValue;
    if digits == 0 {
      Pow2Table();
    } else {
      assert n / 16 < Pow2(4 * (digits - 1)) by { Pow2Add(4, 4 * (digits - 1)); Pow2Table(); }
      UpperHexInverse(n / 16, digits - 1);
      UpperDigitInverse(n % 16);
      assert UpperHex(n, digits)[..digits - 1] == UpperHex(n / 16, digits - 1);
      DivMod(n, 16);
    }
  }

  /** An invalid word is printed as the eight hexadecimal digits that spell it. */
  lemma InvalidText(w: Word)
    requires !Decode(w).valid
    ensures exists h :: FullText(Decode(w)) == "<invalid instruction: 0x" + h + ">" && |h| == 8 && UpperValue(h) == w
  {
    hide Decode, UpperHex, UpperValue, Pow2;
    DecodeOp(w);
    Pow2Of32();
    UpperHexInverse(w, 8);
    var h := UpperHex(w, 8);
    assert FullText(Decode(w)) == "<invalid instruction: 0x" + h + ">";
  }

  /** The number of a multiplication or division in the operation enumeration; the others are printed by mnemonic. */
  function OpNumber(op: Op): nat {
    match op
    case MUL => 43 case MULH => 44 case MULHSU => 45 case MULHU => 46
    case DIV => 47 case DIVU => 48 case REM => 49 case _ => 50
  }

  /** The operations in the order of their enumeration. */
  const ENUMERATION: seq<Op> := [
    Unknown, LUI, AUIPC, JAL, JALR, BEQ, BNE, BLT, BGE, BLTU, BGEU, LB, LH, LW, LBU, LHU, SB, SH, SW,
    ADDI, SLTI, SLTIU, XORI, ORI, ANDI, SLLI, SRLI, SRAI, ADD, SUB, SLL, SLT, SLTU, XOR, SRL, SRA, OR, AND,
    FENCE, FENCE_I, ECALL, EBREAK, MRET, MUL, MULH, MULHSU, MULHU, DIV, DIVU, REM, REMU]

  /** The number printed for a multiplication or division is its place in the enumeration. */
  lemma NumberedByEnumeration(op: Op)
    requires KindOf(op) == KindR && Mnemonic(op) == ""
    ensures OpNumber(op) < |ENUMERATION| && ENUMERATION[OpNumber(op)] == op
  {}

  /** Everything the disassembler can print. */
  function FullText(di: Decoded): string {
    if !di.valid then "<invalid instruction: 0x" + UpperHex(di.instruction, 8) + ">"
    else if di.op == Unknown then "<internal error: should be invalid>"
    else if Mnemonic(di.op) == "" then "<unhandled valid op: " + Number(OpNumber(di.op), 10) + " format: R>"
    else Text(di)
  }

  /** snprintf: as much of the text as fits before a terminating NUL; the result is the length of the whole text. */
  method Snprintf(buffer: array<char>, text: string) returns (n: nat)
    requires 0 < buffer.Length
    modifies buffer
    ensures n == |text|
    ensures var kept := if n < buffer.Length then n else buffer.Length - 1;
      buffer[..kept] == text[..kept] && buffer[kept] == '\0'
  {
    var kept := if |text| < buffer.Length then |text| else buffer.Length - 1;
    var i := 0;
    while i < kept
      invariant 0 <= i <= kept && buffer[..i] == text[..i]
    {
      buffer[i] := text[i];
      i := i + 1;
    }
    buffer[kept] := '\0';
    n := |text|;
  }

  /** rve_decoded_format_to_buffer */
  method FormatToBuffer(di: Decoded, buffer: array<char>) returns (n: int)
    modifies buffer
    ensures buffer.Length == 0 ==> n == -1
    ensures buffer.Length > 0 ==> n == |FullText(di)|
    ensures buffer.Length > 0 ==>
      var kept := if n < buffer.Length then n else buffer.Length - 1;
      buffer[..kept] == FullText(di)[..kept] && buffer[kept] == '\0'
  {
    if buffer.Length == 0 {
      return -1;
    }
    n := Snprintf(buffer, FullText(di));
  }
}
