/** The C expressions of the execute stage of src/hart.c, against the arithmetic of the ISA. */
module Execute {
  import opened Words
  import opened Instructions
  import opened Encoding
  import opened Isa
  import opened MulDivLaws

  /** Conversion to uint64_t. */
  function Wrap64(x: int): nat {
    x % 0x1_0000_0000_0000_0000
  }

  /** a / b on int32_t: the quotient of the magnitudes, with the sign of the product. */
  function CDiv(a: int, b: int): int
    requires b != 0
  {
    var q := (if a < 0 then -a else a) / (if b < 0 then -b else b);
    if (a < 0) == (b < 0) then q else -q
  }

  /** a % b on int32_t. */
  function CRem(a: int, b: int): int
    requires b != 0
  {
    a - CDiv(a, b) * b
  }

  // The second sign extension that the execute stage applies to an immediate changes nothing.

  lemma TwosOfWrap(i: int, p: int, k: int)
    requires 0 < p && 1 <= k && p * k == 0x1_0000_0000 && -p <= 2 * i < p
    ensures Twos(Wrap(i), p) == i
  {
    MulMonotone(p, 1, k);
    if i >= 0 {
      assert Wrap(i) == i;
      QuotRem(i, p, 0, i);
    } else {
      assert Wrap(i) == i + 0x1_0000_0000;
      assert i + 0x1_0000_0000 == p * (k - 1) + (i + p);
      QuotRem(i + 0x1_0000_0000, p, k - 1, i + p);
    }
  }

  lemma SextSmall(i: int, bits: nat, p: int, k: int)
    requires bits <= 32 && p == Pow2(bits) && 1 <= k && p * k == 0x1_0000_0000 && -p <= 2 * i < p
    ensures Sext(Wrap(i), bits) == Wrap(i)
  {
    hide *;
    SextMeaning(Wrap(i), bits, p);
    TwosOfWrap(i, p, k);
  }

  lemma SextImmediates(w: Word)
    ensures Sext(Wrap(ImmI(w)), 12) == Wrap(ImmI(w)) && Sext(Wrap(ImmS(w)), 12) == Wrap(ImmS(w))
    ensures Sext(Wrap(ImmB(w)), 13) == Wrap(ImmB(w)) && Sext(Wrap(ImmJ(w)), 21) == Wrap(ImmJ(w))
  {
    hide *;
    assert Pow2(12) == 0x1000 && Pow2(13) == 0x2000 && Pow2(21) == 0x20_0000 by { Pow2Table(); }
    SmallImmediates(w);
    SextSmall(ImmI(w), 12, 0x1000, 0x10_0000);
    SextSmall(ImmS(w), 12, 0x1000, 0x10_0000);
    SextSmall(ImmB(w), 13, 0x2000, 0x8_0000);
    SextSmall(ImmJ(w), 21, 0x20_0000, 0x800);
  }

  predicate WideImmediate(op: Op) {
    KindOf(op) == KindI || KindOf(op) == KindS || KindOf(op) == KindB || KindOf(op) == KindJ
  }

  /** The width at which the execute stage sign-extends the immediate of an operation. */
  function ImmBits(op: Op): nat {
    if KindOf(op) == KindB then 13 else if KindOf(op) == KindJ then 21 else 12
  }

  /** Every immediate the decoder produces is already sign-extended. */
  lemma SecondSextIsIdentity(w: Word)
    requires WideImmediate(OpOf(w))
    ensures Sext(Decode(w).imm, ImmBits(OpOf(w))) == Decode(w).imm
  {
    hide OpOf, OpcodeOf, ImmI, ImmS, ImmB, ImmJ, Sext, Wrap, Row;
    DecodedRowOpcode(w);
    FormatOfRow(OpOf(w));
    SextImmediates(w);
  }

  // Shift amounts, multiplication and division.

  lemma ShiftAmount(x: Word)
    ensures And(x, 0x1F) == x % 0x20
  {
    hide And, Pow2;
    Pow2Table();
    AndMask(x, 0x20, 5);
  }

  lemma ShiftRight(x: Word, n: nat)
    ensures Shr(x, n) == Wrap(x / Pow2(n))
  {
    hide Pow2;
  }

  lemma Shifts(a: Word, b: Word)
    ensures Shl(a, And(b, 0x1F)) == Wrap(a * Pow2(b % 0x20))
    ensures Shr(a, And(b, 0x1F)) == Wrap(a / Pow2(b % 0x20))
    ensures Sar(a, And(b, 0x1F)) == Wrap(Signed(a) / Pow2(b % 0x20))
  {
    hide Pow2, And;
    ShiftAmount(b);
    ShiftRight(a, b % 0x20);
  }

  lemma CDivIsQuot(a: int, b: int)
    requires b != 0
    ensures CDiv(a, b) == Quot(a, b) && CRem(a, b) == Rem(a, b)
  {
    NegativeDivisor(if a < 0 then -a else a, if b < 0 then -b else b);
  }

  /** The high word of a product taken modulo 2^64. */
  lemma HighWord(x: int)
    ensures Wrap(Wrap64(x) / 0x1_0000_0000) == Wrap(x / 0x1_0000_0000)
    ensures Wrap(Wrap64(x)) == Wrap(x)
  {
    var k, r := x / 0x1_0000_0000_0000_0000, Wrap64(x);
    assert x == 0x1_0000_0000 * (0x1_0000_0000 * k) + r;
    assert x / 0x1_0000_0000 == 0x1_0000_0000 * k + r / 0x1_0000_0000;
  }

  lemma MixedProduct(x: int, y: nat)
    ensures Wrap64(Wrap64(x) * y) == Wrap64(x * y)
  {
    var k := x / 0x1_0000_0000_0000_0000;
    assert x * y == Wrap64(x) * y + 0x1_0000_0000_0000_0000 * (k * y);
    Wrap64Shift(Wrap64(x) * y, k * y);
  }

  lemma Wrap64Shift(x: int, k: int)
    ensures Wrap64(x + 0x1_0000_0000_0000_0000 * k) == Wrap64(x)
  {}

  // The cases of the execute switch that assign gpr[rd] and nothing else.

  method UpperAndImmediate(di: Decoded, a: Word, pc: Word) returns (v: Word)
    requires di == Decode(di.instruction) && di.op == OpOf(di.instruction) && IsImmediateOp(di.op)
    ensures v == ImmediateResult(di.op, a, di.imm, pc)
  {
    hide Decode, OpOf, Pow2, Sext, And, Or, Xor, MulDiv;
    if WideImmediate(di.op) {
      SecondSextIsIdentity(di.instruction);
    }
    ShiftAmount(di.imm);
    ShiftRight(a, di.imm % 0x20);
    match di.op {
      case LUI => v := di.imm;
      case AUIPC => v := Wrap(pc + di.imm);
      case ADDI => v := Wrap(a + Sext(di.imm, 12));
      case SLTI => v := Flag(Signed(a) < Signed(Sext(di.imm, 12)));
      case SLTIU => v := Flag(a < Sext(di.imm, 12));
      case XORI => v := Xor(a, Sext(di.imm, 12));
      case ORI => v := Or(a, Sext(di.imm, 12));
      case ANDI => v := And(a, Sext(di.imm, 12));
      case SLLI => v := Shl(a, And(di.imm, 0x1F));
      case SRLI => v := Shr(a, And(di.imm, 0x1F));
      case SRAI => v := Sar(a, And(di.imm, 0x1F));
    }
  }

  method RegisterRegister(op: Op, a: Word, b: Word) returns (v: Word)
    requires IsBaseOp(op)
    ensures v == BaseResult(op, a, b)
  {
    hide Pow2, And, Or, Xor, MulDiv, Shl, Shr, Sar, Wrap, Wrap64, Signed;
    Shifts(a, b);
    HighWord(a + b);
    HighWord(a - b);
    match op {
      case ADD => v := Wrap(Wrap64(a + b));
      case SUB => v := Wrap(Wrap64(a - b));
      case SLL => v := Shl(a, And(b, 0x1F));
      case SLT => v := Flag(Signed(a) < Signed(b));
      case SLTU => v := Flag(a < b);
      case XOR => v := Xor(a, b);
      case SRL => v := Shr(a, And(b, 0x1F));
      case SRA => v := Sar(a, And(b, 0x1F));
      case OR => v := Or(a, b);
      case AND => v := And(a, b);
    }
  }

  method Multiply(op: Op, x: Word, y: Word) returns (v: Word)
    requires IsProduct(op)
    ensures v == MulDiv(op, x, y)
  {
    hide Wrap, Wrap64;
    var a, b := Signed(x), Signed(y);
    SameLowWord(x, y);
    MixedProduct(a, y);
    HighWord(a * b);
    HighWord(a * y);
    HighWord(x * y);
    match op {
      case MUL => v := Wrap(a * b);
      case MULH => v := HighOf(a * b);
      case MULHSU => v := HighOf(Wrap64(a) * y);
      case MULHU => v := HighOf(x * y);
    }
  }

  /** The upper word of a 64-bit product: (uint32_t)((uint64_t)x >> 32). */
  function HighOf(x: int): Word {
    Wrap(Wrap64(x) / 0x1_0000_0000)
  }

  method Divide(op: Op, x: Word, y: Word) returns (v: Word)
    requires IsDivision(op)
    ensures v == MulDiv(op, x, y)
  {
    hide CDiv, CRem, Quot, Rem;
    var a, b := Signed(x), Signed(y);
    var overflow := a == -0x8000_0000 && b == -1;
    if b != 0 { CDivIsQuot(a, b); }
    if overflow { OverflowDivision(); }
    match op {
      case DIV => v := if b == 0 then 0xFFFF_FFFF else if overflow then 0x8000_0000 else Wrap(CDiv(a, b));
      case DIVU => v := if y == 0 then 0xFFFF_FFFF else Wrap(x / y);
      case REM => v := if b == 0 then Wrap(a) else if overflow then 0 else Wrap(CRem(a, b));
      case REMU => v := if y == 0 then x else Wrap(x % y);
    }
  }

  lemma OverflowDivision()
    ensures Quot(-0x8000_0000, -1) == 0x8000_0000 && Rem(-0x8000_0000, -1) == 0
  {}
}
