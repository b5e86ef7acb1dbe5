/** Machine words as integers, and the C operators the emulator applies to them. */
module Words {

  type Word = x: int | 0 <= x < 0x1_0000_0000
  type Byte = x: int | 0 <= x < 0x100
  type Bit = x: int | 0 <= x < 2

  function Pow2(n: nat): (p: nat)
    ensures 0 < p
  {
    if n == 0 then 1 else 2 * Pow2(n - 1)
  }

  /** Conversion to uint32_t. */
  function Wrap(x: int): (w: Word) {
    x % 0x1_0000_0000
  }

  /** Conversion of a uint32_t to int32_t. */
  function Signed(w: Word): int {
    if w < 0x8000_0000 then w else w - 0x1_0000_0000
  }

  /** x << n on uint32_t. */
  function Shl(x: Word, n: nat): Word {
    Wrap(x * Pow2(n))
  }

  /** x >> n on uint32_t. */
  function Shr(x: Word, n: nat): (r: Word)
  {
    DivBound(x, Pow2(n));
    x / Pow2(n)
  }

  /** (int32_t)x >> n, converted back to uint32_t. Division by a positive number rounds down. */
  function Sar(x: Word, n: nat): Word {
    Wrap(Signed(x) / Pow2(n))
  }

  lemma {:induction false} Pow2Add(m: nat, n: nat)
    ensures Pow2(m + n) == Pow2(m) * Pow2(n)
  {
    if m != 0 {
      Pow2Add(m - 1, n);
    }
  }

  lemma DivBound(x: nat, d: nat)
    requires 0 < d
    ensures 0 <= x / d <= x
  {
    var q := x / d;
    if d == 1 {
    } else if q > 0 {
      MulAtLeast(q, d);
      assert x == d * q + x % d;
    }
  }

  lemma Distribute(a: int, b: int, q: int, r: int)
    ensures (b * q + r) * a == (a * b) * q + a * r
  {}

  lemma DivDiv(x: nat, a: nat, b: nat)
    requires 0 < a && 0 < b
    ensures 0 < a * b && x / (a * b) == x / a / b
  {
    DivMod(x, a);
    DivMod(x / a, b);
    var q, r := x / a / b, x / a % b;
    MulMonotone(a, 1, b);
    MulMonotone(a, r, b - 1);
    Distribute(a, b, q, r);
    QuotRem(x, a * b, q, a * r + x % a);
  }

  // Bitwise operators, one bit at a time over a fixed width.

  datatype Gate = AndGate | OrGate | XorGate

  function OneBit(g: Gate, a: Bit, b: Bit): Bit {
    match g
    case AndGate => if a == 1 && b == 1 then 1 else 0
    case OrGate => if a + b == 0 then 0 else 1
    case XorGate => if a == b then 0 else 1
  }

  function Bitwise(g: Gate, a: nat, b: nat, width: nat): (r: nat)
    ensures r < Pow2(width)
  {
    if width == 0 then 0 else 2 * Bitwise(g, a / 2, b / 2, width - 1) + OneBit(g, a % 2, b % 2)
  }

  lemma Pow2Of32()
    ensures Pow2(32) == 0x1_0000_0000
  {
    Pow2Table();
  }

  lemma Pow2Table()
    ensures Pow2(0) == 1 && Pow2(1) == 2 && Pow2(2) == 4 && Pow2(3) == 8 && Pow2(4) == 0x10
    ensures Pow2(5) == 0x20 && Pow2(6) == 0x40 && Pow2(7) == 0x80 && Pow2(8) == 0x100
    ensures Pow2(9) == 0x200 && Pow2(10) == 0x400 && Pow2(11) == 0x800 && Pow2(12) == 0x1000
    ensures Pow2(13) == 0x2000 && Pow2(14) == 0x4000 && Pow2(15) == 0x8000 && Pow2(16) == 0x1_0000
    ensures Pow2(17) == 0x2_0000 && Pow2(18) == 0x4_0000 && Pow2(19) == 0x8_0000 && Pow2(20) == 0x10_0000
    ensures Pow2(21) == 0x20_0000 && Pow2(22) == 0x40_0000 && Pow2(23) == 0x80_0000 && Pow2(24) == 0x100_0000
    ensures Pow2(25) == 0x200_0000 && Pow2(26) == 0x400_0000 && Pow2(27) == 0x800_0000 && Pow2(28) == 0x1000_0000
    ensures Pow2(29) == 0x2000_0000 && Pow2(30) == 0x4000_0000 && Pow2(31) == 0x8000_0000
    ensures Pow2(32) == 0x1_0000_0000
  {
    assert Pow2(0) == 1;
  }

  function And(a: Word, b: Word): Word { Pow2Of32(); Bitwise(AndGate, a, b, 32) }
  function Or(a: Word, b: Word): Word { Pow2Of32(); Bitwise(OrGate, a, b, 32) }
  function Xor(a: Word, b: Word): Word { Pow2Of32(); Bitwise(XorGate, a, b, 32) }

  /** x * 2^n, by doubling. */
  function Scale(x: nat, n: nat): nat {
    if n == 0 then x else 2 * Scale(x, n - 1)
  }

  lemma {:induction false} ScaleIsMul(x: nat, n: nat)
    ensures Scale(x, n) == x * Pow2(n)
  {
    if n != 0 {
      ScaleIsMul(x, n - 1);
    }
  }

  /** A bitwise operator acts on the low and the high bits of its operands separately. */
  lemma {:induction false} BitwiseSplit(g: Gate, ah: nat, al: nat, bh: nat, bl: nat, low: nat, high: nat)
    requires al < Pow2(low) && bl < Pow2(low)
    ensures Bitwise(g, Scale(ah, low) + al, Scale(bh, low) + bl, low + high)
         == Scale(Bitwise(g, ah, bh, high), low) + Bitwise(g, al, bl, low)
  {
    hide Bitwise, OneBit;
    if low != 0 {
      var a, b := Scale(ah, low - 1), Scale(bh, low - 1);
      BitwiseDouble(g, a, al, b, bl, low - 1 + high);
      BitwiseSplit(g, ah, al / 2, bh, bl / 2, low - 1, high);
      BitwiseDouble(g, 0, al, 0, bl, low - 1);
    }
  }

  lemma BitwiseDouble(g: Gate, a: nat, al: nat, b: nat, bl: nat, width: nat)
    ensures Bitwise(g, 2 * a + al, 2 * b + bl, width + 1)
         == 2 * Bitwise(g, a + al / 2, b + bl / 2, width) + OneBit(g, al % 2, bl % 2)
  {
    assert (2 * a + al) / 2 == a + al / 2 && (2 * b + bl) / 2 == b + bl / 2;
  }

  lemma QuotRem(a: int, d: int, q: int, r: int)
    requires 0 < d && 0 <= r < d && a == d * q + r
    ensures a / d == q && a % d == r
  {
    var k := q - a / d;
    assert d * k == a % d - r by {
      assert a == d * (a / d) + a % d;
    }
    if k >= 1 { MulAtLeast(d, k); }
    if k <= -1 { MulAtLeast(d, -k); }
  }

  /** Reducing a summand modulo d first changes nothing. */
  lemma ModAdd(x: int, y: int, d: int)
    requires 0 < d
    ensures (x % d + y) % d == (x + y) % d
  {
    var s := x % d + y;
    assert x + y == d * (x / d + s / d) + s % d by {
      assert x == d * (x / d) + x % d;
      assert s == d * (s / d) + s % d;
    }
    QuotRem(x + y, d, x / d + s / d, s % d);
  }

  lemma MulAtLeast(d: int, k: int)
    requires 0 < d && 1 <= k
    ensures d <= d * k
  {
    assert 0 <= d * (k - 1);
  }

  lemma {:induction false} BitwiseZero(a: nat, width: nat)
    requires a < Pow2(width)
    ensures Bitwise(AndGate, a, 0, width) == 0
    ensures Bitwise(OrGate, a, 0, width) == Bitwise(OrGate, 0, a, width) == a
  {
    if width != 0 {
      BitwiseZero(a / 2, width - 1);
    }
  }

  lemma {:induction false} AndOnes(a: nat, width: nat)
    requires a < Pow2(width)
    ensures Bitwise(AndGate, a, Pow2(width) - 1, width) == a
  {
    if width != 0 {
      AndOnes(a / 2, width - 1);
    }
  }

  /** Bit k of the result depends on bit k of the operands alone. */
  lemma {:induction false} BitwiseBit(g: Gate, a: nat, b: nat, width: nat, k: nat)
    requires k < width
    ensures BitAt(Bitwise(g, a, b, width), k) == OneBit(g, BitAt(a, k), BitAt(b, k))
  {
    if k != 0 {
      BitwiseBit(g, a / 2, b / 2, width - 1, k - 1);
    }
  }

  function BitAt(x: nat, k: nat): Bit {
    if k == 0 then x % 2 else BitAt(x / 2, k - 1)
  }

  lemma {:induction false} BitwiseSymmetric(g: Gate, a: nat, b: nat, width: nat)
    ensures Bitwise(g, a, b, width) == Bitwise(g, b, a, width)
  {
    if width != 0 {
      BitwiseSymmetric(g, a / 2, b / 2, width - 1);
    }
  }

  lemma {:induction false} ScaleMonotone(a: nat, b: nat, k: nat)
    requires a <= b
    ensures Scale(a, k) <= Scale(b, k)
  {
    if k != 0 {
      ScaleMonotone(a, b, k - 1);
    }
  }

  lemma {:induction false} ScalePow2(n: nat, k: nat)
    ensures Scale(Pow2(n), k) == Pow2(n + k)
  {
    if k != 0 {
      ScalePow2(n, k - 1);
    }
  }

  lemma PartBound(h: nat, k: nat)
    requires k <= 32 && Scale(h, k) < 0x1_0000_0000
    ensures h < Pow2(32 - k)
  {
    hide *;
    ScalePow2(32 - k, k);
    Pow2Of32();
    if Pow2(32 - k) <= h {
      ScaleMonotone(Pow2(32 - k), h, k);
    }
  }

  lemma Pow2Bound(k: nat)
    requires k <= 32
    ensures Pow2(k) <= 0x1_0000_0000
  {
    hide *;
    assert Pow2(0) == 1 by { Pow2Table(); }
    ScalePow2(0, k);
    ScalePow2(32 - k, k);
    ScaleMonotone(1, Pow2(32 - k), k);
    Pow2Of32();
  }

  lemma {:induction false} ScaleZero(k: nat)
    ensures Scale(0, k) == 0
  {
    if k != 0 {
      ScaleZero(k - 1);
    }
  }

  lemma {:induction false} ScaleOnes(n: nat, k: nat)
    ensures Scale(Pow2(n) - 1, k) == Pow2(n + k) - Pow2(k)
  {
    if k != 0 {
      ScaleOnes(n, k - 1);
    }
  }

  /** Masking with 2^k - 1 keeps the k low bits l. */
  lemma KeepLow(h: nat, l: nat, k: nat, n: nat)
    requires l < Pow2(k) && h < Pow2(n)
    ensures Bitwise(AndGate, Scale(h, k) + l, Pow2(k) - 1, k + n) == l
  {
    hide *;
    ScaleZero(k);
    BitwiseSplit(AndGate, h, l, 0, Pow2(k) - 1, k, n);
    BitwiseZero(h, n);
    AndOnes(l, k);
  }

  /** Masking with the complement of 2^k - 1 clears the k low bits l. */
  lemma ClearLow(h: nat, l: nat, k: nat, n: nat, mask: nat)
    requires l < Pow2(k) && h < Pow2(n) && mask + Pow2(k) == Pow2(n + k)
    ensures Bitwise(AndGate, Scale(h, k) + l, mask, k + n) == Scale(h, k)
  {
    hide *;
    ScaleOnes(n, k);
    BitwiseSplit(AndGate, h, l, Pow2(n) - 1, 0, k, n);
    AndOnes(h, n);
    BitwiseZero(l, k);
  }

  /** Or of a multiple of 2^k with a k-bit number is their sum. */
  lemma JoinParts(h: nat, l: nat, k: nat, n: nat)
    requires l < Pow2(k) && h < Pow2(n)
    ensures Bitwise(OrGate, Scale(h, k), l, k + n) == Scale(h, k) + l
  {
    hide *;
    ScaleZero(k);
    BitwiseSplit(OrGate, h, 0, 0, l, k, n);
    BitwiseZero(h, n);
    BitwiseZero(l, k);
  }

  // The same facts about 32-bit words x, with the power p = 2^k written out.

  lemma Halves(x: Word, h: nat, l: nat, p: nat, k: nat, n: nat)
    requires k + n == 32 && p == Pow2(k) && x == h * p + l
    ensures h < Pow2(n) && x == Scale(h, k) + l
  {
    hide *;
    ScaleIsMul(h, k);
    PartBound(h, k);
  }

  lemma MulMonotone(d: nat, a: int, b: int)
    requires a <= b
    ensures d * a <= d * b
  {
    assert 0 <= d * (b - a);
  }

  lemma DivMod(x: nat, p: nat)
    requires 0 < p
    ensures x / p >= 0 && 0 <= x % p < p && x == x / p * p + x % p
  {}

  lemma AndMask(x: Word, p: nat, k: nat)
    requires k <= 32 && p == Pow2(k)
    ensures p <= 0x1_0000_0000 && And(x, p - 1) == x % p
  {
    hide Bitwise, Scale, Pow2;
    Pow2Bound(k);
    DivMod(x, p);
    var h, l := x / p, x % p;
    Halves(x, h, l, p, k, 32 - k);
    KeepLow(h, l, k, 32 - k);
  }

  lemma AndNotMask(x: Word, p: nat, k: nat)
    requires k <= 32 && p == Pow2(k)
    ensures p <= 0x1_0000_0000 && And(x, 0x1_0000_0000 - p) == x - x % p
  {
    hide Bitwise, Scale, Pow2;
    Pow2Bound(k);
    Pow2Of32();
    DivMod(x, p);
    var h, l := x / p, x % p;
    Halves(x, h, l, p, k, 32 - k);
    ScaleIsMul(h, k);
    ClearLow(h, l, k, 32 - k, 0x1_0000_0000 - p);
  }

  lemma OrSum(h: nat, l: nat, p: nat, k: nat)
    requires k <= 32 && p == Pow2(k) && l < p && h * p + l < 0x1_0000_0000
    ensures 0 <= h * p && Or(h * p, l) == h * p + l
  {
    hide Bitwise, Scale, Pow2;
    ScaleIsMul(h, k);
    PartBound(h, k);
    JoinParts(h, l, k, 32 - k);
  }

  // Sign extension.

  /** (int32_t)(value << (32 - bits)) >> (32 - bits). */
  function Sext(value: Word, bits: nat): Word
    requires bits <= 32
  {
    Sar(Shl(value, 32 - bits), 32 - bits)
  }

  /** The signed number that value stands for in two's complement, reading it modulo p. */
  function Twos(value: int, p: nat): int
    requires 0 < p
  {
    var u := value % p;
    if 2 * u < p then u else u - p
  }

  lemma ShiftOut(value: nat, h: nat, u: nat, p: nat, s: nat)
    requires p * s == 0x1_0000_0000 && 0 < s && u < p && value == h * p + u
    ensures 0 <= u * s < 0x1_0000_0000 && (value * s) % 0x1_0000_0000 == u * s
  {
    MulMonotone(s, u + 1, p);
    assert 0 <= u * s;
    assert h * p * s == 0x1_0000_0000 * h;
    assert value * s == h * p * s + u * s;
    QuotRem(value * s, 0x1_0000_0000, h, u * s);
  }

  lemma ShiftBack(u: nat, p: nat, s: nat)
    requires p * s == 0x1_0000_0000 && 0 < s && u < p && 0 <= u * s < 0x1_0000_0000
    ensures Signed(u * s) / s == if 2 * u < p then u else u - p
  {
    if 2 * u < p {
      MulMonotone(s, 2 * u + 1, p);
      assert s * (2 * u + 1) == 2 * (u * s) + s && s * p == 0x1_0000_0000;
      QuotRem(u * s, s, u, 0);
    } else {
      MulMonotone(s, p, 2 * u);
      assert s * (2 * u) == 2 * (u * s) && s * p == 0x1_0000_0000;
      assert s * (u - p) == u * s - 0x1_0000_0000;
      QuotRem(u * s - 0x1_0000_0000, s, u - p, 0);
    }
  }

  lemma SextMeaning(value: Word, bits: nat, p: nat)
    requires bits <= 32 && p == Pow2(bits)
    ensures Sext(value, bits) == Wrap(Twos(value, p))
  {
    var s := Pow2(32 - bits);
    Pow2Of32();
    Pow2Add(bits, 32 - bits);
    DivMod(value, p);
    ShiftOut(value, value / p, value % p, p, s);
    ShiftBack(value % p, p, s);
  }

  // Bits of mstatus.

  /** ~x. */
  function Not(x: Word): Word {
    0xFFFF_FFFF - x
  }

  /** BitwiseSplit for named operands, split at bit 4. */
  lemma SplitAt4(g: Gate, x: nat, xh: nat, xl: nat, y: nat, yh: nat, yl: nat, high: nat)
    requires x == 16 * xh + xl && y == 16 * yh + yl && xl < 16 && yl < 16
    ensures Bitwise(g, x, y, 4 + high) == 16 * Bitwise(g, xh, yh, high) + Bitwise(g, xl, yl, 4)
  {
    hide *;
    assert Pow2(4) == 16 by { Pow2Table(); }
    ScaleIsMul(xh, 4);
    ScaleIsMul(yh, 4);
    BitwiseSplit(g, xh, xl, yh, yl, 4, high);
    ScaleIsMul(Bitwise(g, xh, yh, high), 4);
  }

  /** Clearing bit 3 of a number x with n + 4 bits. */
  lemma ClearBit(x: nat, h: nat, b: Bit, l: nat, mask: nat, n: nat, width: nat)
    requires h < Pow2(n) && l < 8 && x == 16 * h + 8 * b + l
    requires mask == 16 * (Pow2(n) - 1) + 7 && width == 4 + n
    ensures Bitwise(AndGate, x, mask, width) == 16 * h + l
  {
    hide *;
    SplitAt4(AndGate, x, h, 8 * b + l, mask, Pow2(n) - 1, 7, n);
    AndOnes(h, n);
    assert Pow2(3) == 8 && Pow2(1) == 2 by { Pow2Table(); }
    ScaleIsMul(b, 3);
    KeepLow(b, l, 3, 1);
  }

  lemma ClearBit3(x: Word)
    ensures And(x, Not(8)) == x - x / 8 % 2 * 8
  {
    hide Bitwise, Scale, Pow2;
    var h, b, l := x / 16, x / 8 % 2, x % 8;
    assert x == 16 * h + 8 * b + l;
    assert Pow2(28) == 0x1000_0000 by { Pow2Table(); }
    ClearBit(x, h, b, l, 0xFFFF_FFF7, 28, 32);
  }

  lemma ClearBits3And7(x: Word)
    ensures And(x, Not(0x88)) == x - x / 8 % 2 * 8 - x / 128 % 2 * 128
  {
    var h, b7, m, b3, l := x / 256, x / 128 % 2, x / 16 % 8, x / 8 % 2, x % 8;
    hide *;
    assert x == 256 * h + 128 * b7 + 16 * m + 8 * b3 + l by {
      assert x / 16 == x / 8 / 2 && x / 128 == x / 16 / 8 && x / 256 == x / 128 / 2;
    }
    ClearBothBits(x, h, b7, m, b3, l);
  }

  lemma ClearBothBits(x: Word, h: nat, b7: Bit, m: nat, b3: Bit, l: nat)
    requires x == 256 * h + 128 * b7 + 16 * m + 8 * b3 + l && m < 8 && l < 8
    ensures And(x, Not(0x88)) == 256 * h + 16 * m + l
  {
    hide Bitwise, Scale, Pow2;
    SplitAt4(AndGate, x, 16 * h + 8 * b7 + m, 8 * b3 + l, 0xFFFF_FF77, 0xFFF_FFF7, 7, 28);
    Pow2Table();
    ClearBit(16 * h + 8 * b7 + m, h, b7, m, 0xFFF_FFF7, 24, 28);
    ClearBit(8 * b3 + l, 0, b3, l, 7, 0, 4);
  }

  /** Or with a field v of w bits at bit k that is all ones, or onto a field m that is zero. */
  lemma OrField(h: nat, m: nat, l: nat, v: nat, k: nat, w: nat, n: nat)
    requires l < Pow2(k) && m < Pow2(w) && v < Pow2(w) && h < Pow2(n)
    requires m == 0 || v == 0 || v + 1 == Pow2(w)
    ensures Bitwise(OrGate, Scale(Scale(h, w) + m, k) + l, Scale(v, k), k + (w + n))
         == Scale(Scale(h, w) + (if v == 0 then m else v), k) + l
  {
    hide *;
    BitwiseSplit(OrGate, Scale(h, w) + m, l, v, 0, k, w + n);
    BitwiseZero(l, k);
    ScaleZero(w);
    BitwiseSplit(OrGate, h, m, 0, v, w, n);
    BitwiseZero(h, n);
    if m == 0 { BitwiseZero(v, w); } else if v == 0 { BitwiseZero(m, w); } else { OrOnes(m, w); }
  }

  lemma {:induction false} OrOnes(a: nat, width: nat)
    requires a < Pow2(width)
    ensures Bitwise(OrGate, a, Pow2(width) - 1, width) == Pow2(width) - 1
  {
    if width != 0 {
      OrOnes(a / 2, width - 1);
    }
  }

  lemma OrBit7(x: Word, b: Bit)
    requires x / 128 % 2 == 0 || b == 1
    ensures Or(x, b * 128) == if b == 1 then x - x / 128 % 2 * 128 + 128 else x
  {
    hide Bitwise, Scale, Pow2;
    var h, m, l := x / 256, x / 128 % 2, x % 128;
    assert x / 256 == x / 128 / 2;
    Pow2Table();
    ScaleIsMul(h, 1);
    ScaleIsMul(2 * h + m, 7);
    ScaleIsMul(2 * h + b, 7);
    ScaleIsMul(b, 7);
    OrField(h, m, l, b, 7, 1, 24);
  }

  lemma OrBits11And12(x: Word)
    ensures Or(x, 0x1800) == x - x / 2048 % 4 * 2048 + 3 * 2048
  {
    hide Bitwise, Scale, Pow2;
    var h, m, l := x / 8192, x / 2048 % 4, x % 2048;
    Pow2Table();
    ScaleIsMul(h, 2);
    ScaleIsMul(4 * h + m, 11);
    ScaleIsMul(4 * h + 3, 11);
    ScaleIsMul(3, 11);
    OrField(h, m, l, 3, 11, 2, 19);
  }

  lemma {:induction false} ComplementBit(x: nat, width: nat, k: nat)
    requires x < Pow2(width) && k < width
    ensures BitAt(Pow2(width) - 1 - x, k) == 1 - BitAt(x, k)
  {
    var h := Pow2(width - 1);
    assert Pow2(width) - 1 - x == 2 * (h - 1 - x / 2) + (1 - x % 2);
    if k != 0 {
      ComplementBit(x / 2, width - 1, k - 1);
    }
  }

  /** And, Or, Xor and Not act on each of the 32 bits by itself. */
  lemma WordBits(a: Word, b: Word, k: nat)
    requires k < 32
    ensures BitAt(And(a, b), k) == (if BitAt(a, k) == 1 && BitAt(b, k) == 1 then 1 else 0)
    ensures BitAt(Or(a, b), k) == (if BitAt(a, k) == 1 || BitAt(b, k) == 1 then 1 else 0)
    ensures BitAt(Xor(a, b), k) == (if BitAt(a, k) != BitAt(b, k) then 1 else 0)
    ensures BitAt(Not(a), k) == 1 - BitAt(a, k)
  {
    hide Bitwise, BitAt, Pow2;
    Pow2Of32();
    BitwiseBit(AndGate, a, b, 32, k);
    BitwiseBit(OrGate, a, b, 32, k);
    BitwiseBit(XorGate, a, b, 32, k);
    ComplementBit(a, 32, k);
  }
}
