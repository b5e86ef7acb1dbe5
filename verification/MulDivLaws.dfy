/** What the M extension promises about its results, for all operands. */
module MulDivLaws {
  import opened Words
  import opened Instructions
  import opened Isa

  /** The signed number that two words hold, high word first. */
  function SignedPair(high: Word, low: Word): int {
    0x1_0000_0000 * Signed(high) + low
  }

  lemma SignedBounds(a: Word, b: Word)
    ensures -0x4000_0000_0000_0000 <= Signed(a) * Signed(b) <= 0x4000_0000_0000_0000
    ensures -0x8000_0000_0000_0000 <= Signed(a) * b <= 0x7FFF_FFFF_0000_0000
    ensures 0 <= a * b < 0x1_0000_0000_0000_0000
  {
    SignedProducts(Signed(a), Signed(b), b);
    MulMonotone(a, b, 0xFFFF_FFFF);
  }

  lemma SignedProducts(x: int, y: int, b: int)
    requires -0x8000_0000 <= x < 0x8000_0000 && -0x8000_0000 <= y < 0x8000_0000 && 0 <= b < 0x1_0000_0000
    ensures -0x4000_0000_0000_0000 <= x * y <= 0x4000_0000_0000_0000
    ensures -0x8000_0000_0000_0000 <= x * b <= 0x7FFF_FFFF_0000_0000
  {
    ProductBound(x, y, 0x8000_0000, 0x8000_0000);
    ProductBound(x, b, 0x8000_0000, 0xFFFF_FFFF);
    if x >= 0 { MulMonotone(b, x, 0x7FFF_FFFF); }
  }

  lemma ProductBound(x: int, y: int, p: int, q: int)
    requires 0 <= p && 0 <= q && -p <= x <= p && -q <= y <= q
    ensures -(p * q) <= x * y <= p * q
  {
    if x >= 0 {
      MulMonotone(x, y, q);
      MulMonotone(x, -q, y);
      MulMonotone(q, x, p);
    } else {
      MulMonotone(-x, y, q);
      MulMonotone(-x, -q, y);
      MulMonotone(q, -x, p);
    }
  }

  /** A number in the 64-bit signed range is held by its high and low words. */
  lemma SplitSigned(x: int)
    requires -0x8000_0000_0000_0000 <= x < 0x8000_0000_0000_0000
    ensures SignedPair(Wrap(x / 0x1_0000_0000), Wrap(x)) == x
  {}

  /** The three products agree in their low word. */
  lemma SameLowWord(a: Word, b: Word)
    ensures Wrap(Signed(a) * Signed(b)) == Wrap(a * b) && Wrap(Signed(a) * b) == Wrap(a * b)
  {
    var i, j := if Signed(a) == a then 0 else 1, if Signed(b) == b then 0 else 1;
    ProductExpansion(a, b, i, j, Signed(a), Signed(b));
    WrapShift(a * b, -(i * b + j * a - 0x1_0000_0000 * (i * j)));
    WrapShift(a * b, -(i * b));
  }

  lemma ProductExpansion(a: int, b: int, i: int, j: int, x: int, y: int)
    requires x == a - 0x1_0000_0000 * i && y == b - 0x1_0000_0000 * j
    ensures x * y == a * b + 0x1_0000_0000 * -(i * b + j * a - 0x1_0000_0000 * (i * j))
    ensures x * b == a * b + 0x1_0000_0000 * -(i * b)
  {}

  /** MULH:MUL, MULHU:MUL and MULHSU:MUL are the exact signed, unsigned and mixed products. */
  lemma ProductsAreExact(a: Word, b: Word)
    ensures SignedPair(MulDiv(MULH, a, b), MulDiv(MUL, a, b)) == Signed(a) * Signed(b)
    ensures 0x1_0000_0000 * MulDiv(MULHU, a, b) + MulDiv(MUL, a, b) == a * b
    ensures SignedPair(MulDiv(MULHSU, a, b), MulDiv(MUL, a, b)) == Signed(a) * b
  {
    hide Signed, Wrap, SignedPair;
    SignedBounds(a, b);
    SameLowWord(a, b);
    SplitSigned(Signed(a) * Signed(b));
    SplitSigned(Signed(a) * b);
    SplitUnsigned(a * b);
  }

  lemma SplitUnsigned(x: int)
    requires 0 <= x < 0x1_0000_0000_0000_0000
    ensures 0x1_0000_0000 * Wrap(x / 0x1_0000_0000) + Wrap(x) == x
  {}

  lemma WrapShift(x: int, k: int)
    ensures Wrap(x + 0x1_0000_0000 * k) == Wrap(x)
  {}

  /** The defining property of division that rounds towards zero. */
  predicate Divides(a: int, b: int, q: int, r: int) {
    && a == q * b + r
    && Magnitude(r) < Magnitude(b)
    && (r == 0 || (r < 0) == (a < 0))
  }

  function Magnitude(x: int): nat {
    if x < 0 then -x else x
  }

  /** Quot and Rem have that property, and are the only pair that has it. */
  lemma QuotRemDivide(a: int, b: int)
    requires b != 0
    ensures Divides(a, b, Quot(a, b), Rem(a, b))
  {
    var n := Magnitude(a);
    assert n == b * (n / b) + n % b;
  }

  lemma DivisionIsUnique(a: int, b: int, q: int, r: int)
    requires b != 0 && Divides(a, b, q, r)
    ensures q == Quot(a, b) && r == Rem(a, b)
  {
    hide Quot, Rem, Magnitude;
    QuotRemDivide(a, b);
    SameDivision(a, b, q, r, Quot(a, b), Rem(a, b));
  }

  lemma SameDivision(a: int, b: int, q: int, r: int, q': int, r': int)
    requires Divides(a, b, q, r) && Divides(a, b, q', r')
    ensures q == q' && r == r'
  {
    hide Magnitude;
    MultipleOf(a, b, q, r, q', r');
    assert Magnitude(r' - r) < Magnitude(b) by { DifferenceBound(a, b, r, r'); }
    SmallMultiple(q - q', b);
  }

  lemma MultipleOf(a: int, b: int, q: int, r: int, q': int, r': int)
    requires a == q * b + r && a == q' * b + r'
    ensures (q - q') * b == r' - r
  {}

  lemma DifferenceBound(a: int, b: int, r: int, r': int)
    requires Magnitude(r) < Magnitude(b) && (r == 0 || (r < 0) == (a < 0))
    requires Magnitude(r') < Magnitude(b) && (r' == 0 || (r' < 0) == (a < 0))
    ensures Magnitude(r' - r) < Magnitude(b)
  {}

  lemma SmallMultiple(k: int, b: int)
    requires Magnitude(k * b) < Magnitude(b)
    ensures k == 0
  {
    var n, d := Magnitude(k), Magnitude(b);
    assert Magnitude(k * b) == n * d;
    if n > 0 { MulMonotone(d, 1, n); }
  }

  /** rs1 is DIV * rs2 + REM modulo 2^32 in every case, a zero divisor and the overflow included. */
  lemma DivRemReconstruct(a: Word, b: Word)
    ensures Wrap(MulDiv(DIV, a, b) * b + MulDiv(REM, a, b)) == a
    ensures Wrap(MulDiv(DIVU, a, b) * b + MulDiv(REMU, a, b)) == a
  {
    if b != 0 {
      SignedReconstruct(a, b);
      UnsignedReconstruct(a, b);
    }
  }

  lemma SignedReconstruct(a: Word, b: Word)
    requires b != 0
    ensures Wrap(Wrap(Quot(Signed(a), Signed(b))) * b + Wrap(Rem(Signed(a), Signed(b)))) == a
  {
    hide Quot, Rem, Wrap, Magnitude;
    var x, y := Signed(a), Signed(b);
    QuotRemDivide(x, y);
    Congruence(Quot(x, y), y, Rem(x, y));
    assert Wrap(x) == a && Wrap(y) == b by { WrapSigned(a); WrapSigned(b); }
  }

  lemma WrapSigned(a: Word)
    ensures Wrap(Signed(a)) == a
  {}

  lemma UnsignedReconstruct(a: Word, b: Word)
    requires b != 0
    ensures Wrap(Wrap(a / b) * b + Wrap(a % b)) == a
  {
    DivMod(a, b);
    DivBound(a, b);
  }

  lemma Congruence(q: int, y: int, r: int)
    requires -0x8000_0000 <= y < 0x8000_0000
    ensures Wrap(Wrap(q) * Wrap(y) + Wrap(r)) == Wrap(q * y + r)
  {
    var i, j, k := q / 0x1_0000_0000, y / 0x1_0000_0000, r / 0x1_0000_0000;
    var u, v, s := Wrap(q), Wrap(y), Wrap(r);
    assert q * y + r == u * v + s + 0x1_0000_0000 * (i * v + j * u + 0x1_0000_0000 * (i * j) + k) by {
      assert q == u + 0x1_0000_0000 * i && y == v + 0x1_0000_0000 * j && r == s + 0x1_0000_0000 * k;
    }
    WrapShift(u * v + s, i * v + j * u + 0x1_0000_0000 * (i * j) + k);
  }

  /** The signed results are the truncated quotient and remainder exactly outside the two exceptional cases. */
  lemma SignedDivision(a: Word, b: Word)
    ensures Divides(Signed(a), Signed(b), Signed(MulDiv(DIV, a, b)), Signed(MulDiv(REM, a, b)))
            <==> b != 0 && !(a == 0x8000_0000 && b == 0xFFFF_FFFF)
  {
    if b == 0 {
      DivisionExceptions(a);
    } else if a == 0x8000_0000 && b == 0xFFFF_FFFF {
      hide MulDiv;
      DivisionExceptions(a);
    } else {
      SignedRegular(a, b);
    }
  }

  lemma SignedRegular(a: Word, b: Word)
    requires b != 0 && !(a == 0x8000_0000 && b == 0xFFFF_FFFF)
    ensures Divides(Signed(a), Signed(b), Signed(MulDiv(DIV, a, b)), Signed(MulDiv(REM, a, b)))
  {
    var x, y := Signed(a), Signed(b);
    QuotRemDivide(x, y);
    QuotRange(x, y);
    SignedOfWrap(Quot(x, y));
    SignedOfWrap(Rem(x, y));
    hide Quot, Rem, Divides;
  }

  lemma SignedOfWrap(x: int)
    requires -0x8000_0000 <= x < 0x8000_0000
    ensures Signed(Wrap(x)) == x
  {}

  lemma QuotRange(x: int, y: int)
    requires -0x8000_0000 <= x < 0x8000_0000 && -0x8000_0000 <= y < 0x8000_0000 && y != 0
    requires !(x == -0x8000_0000 && y == -1)
    ensures -0x8000_0000 <= Quot(x, y) < 0x8000_0000 && -0x8000_0000 <= Rem(x, y) < 0x8000_0000
  {
    QuotMagnitude(x, y);
    QuotRemDivide(x, y);
    hide Quot, Rem;
    var n, d := Magnitude(x), Magnitude(y);
    DivMod(n, d);
    if d == 1 {
      assert y == 1 || y == -1;
      UnitDivisor(x, y);
    } else {
      MulMonotone(n / d, 2, d);
    }
  }

  lemma UnitDivisor(x: int, y: int)
    requires y == 1 || y == -1
    ensures Quot(x, y) == x * y && Rem(x, y) == 0
  {
    DivisionIsUnique(x, y, x * y, 0);
  }

  lemma QuotMagnitude(x: int, y: int)
    requires y != 0
    ensures Magnitude(Quot(x, y)) == Magnitude(x) / Magnitude(y)
  {
    NegativeDivisor(Magnitude(x), Magnitude(y));
  }

  lemma NegativeDivisor(a: int, b: int)
    requires 0 <= a && 0 < b
    ensures a / -b == -(a / b)
  {
    DivMod(a, b);
    var q', r' := a / -b, a % -b;
    assert a == -b * q' + r' && 0 <= r' < b;
    assert a == b * -q' + r';
    QuotRem(a, b, -q', r');
  }

  /** The exceptional cases of section 7.2. */
  lemma DivisionExceptions(a: Word)
    ensures MulDiv(DIV, a, 0) == 0xFFFF_FFFF && MulDiv(REM, a, 0) == a
    ensures MulDiv(DIVU, a, 0) == 0xFFFF_FFFF && MulDiv(REMU, a, 0) == a
    ensures MulDiv(DIV, 0x8000_0000, 0xFFFF_FFFF) == 0x8000_0000 && MulDiv(REM, 0x8000_0000, 0xFFFF_FFFF) == 0
  {
    DivisionIsUnique(-0x8000_0000, -1, 0x8000_0000, 0);
  }

  /** The unsigned results are the quotient and remainder exactly when the divisor is not 0. */
  lemma UnsignedDivision(a: Word, b: Word)
    ensures Divides(a, b, MulDiv(DIVU, a, b), MulDiv(REMU, a, b)) <==> b != 0
  {
    if b != 0 {
      DivMod(a, b);
      DivBound(a, b);
      var q, r := a / b, a % b;
      assert a == q * b + r;
      assert MulDiv(DIVU, a, b) == q && MulDiv(REMU, a, b) == r by { UnsignedResults(a, b); }
      hide MulDiv;
    }
  }

  lemma UnsignedResults(a: Word, b: Word)
    requires b != 0 && 0 <= a / b <= a && 0 <= a % b < b
    ensures MulDiv(DIVU, a, b) == a / b && MulDiv(REMU, a, b) == a % b
  {}
}
