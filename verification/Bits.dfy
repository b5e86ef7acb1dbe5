/** The bits of shifted, negated and sign-flipped words. */
module Bits {
  import opened Words

  lemma {:induction false} BitOfQuotient(x: nat, n: nat, k: nat)
    ensures x / Pow2(n) >= 0 && BitAt(x / Pow2(n), k) == BitAt(x, n + k)
    decreases n
  {
    if n == 0 {
      assert Pow2(0) == 1;
    } else {
      DivDiv(x, 2, Pow2(n - 1));
      BitOfQuotient(x / 2, n - 1, k);
    }
  }

  lemma {:induction false} BitOfMultiple(x: nat, n: nat, k: nat)
    ensures 0 <= x * Pow2(n)
    ensures BitAt(x * Pow2(n), k) == if k < n then 0 else BitAt(x, k - n)
    decreases n
  {
    if n == 0 {
      assert x * Pow2(0) == x;
    } else {
      var half := x * Pow2(n - 1);
      Distribute(x, Pow2(n - 1), 2, 0);
      assert x * Pow2(n) == 2 * half;
      BitOfMultiple(x, n - 1, if k == 0 then 0 else k - 1);
    }
  }

  lemma {:induction false} BitOfRemainder(x: nat, n: nat, k: nat)
    requires k < n
    ensures BitAt(x % Pow2(n), k) == BitAt(x, k)
    decreases n
  {
    LowHalf(x, Pow2(n - 1));
    if k > 0 {
      BitOfRemainder(x / 2, n - 1, k - 1);
    }
  }

  lemma LowHalf(x: nat, p: nat)
    requires 0 < p
    ensures x % (2 * p) % 2 == x % 2 && x % (2 * p) / 2 == x / 2 % p
  {
    var q, r := x / 2 / p, x / 2 % p;
    DivMod(x / 2, p);
    assert x == (2 * p) * q + (2 * r + x % 2) by { Distribute(2, p, q, r); }
    QuotRem(x, 2 * p, q, 2 * r + x % 2);
  }

  lemma {:induction false} NoHighBits(x: nat, n: nat, k: nat)
    requires x < Pow2(n) && n <= k
    ensures BitAt(x, k) == 0
    decreases k
  {
    if n == 0 {
      assert Pow2(0) == 1;
      if k > 0 { NoHighBits(0, 0, k - 1); }
    } else {
      NoHighBits(x / 2, n - 1, k - 1);
    }
  }

  /** A left shift moves every bit up by n and fills with zeros. */
  lemma LeftBit(x: Word, n: nat, k: nat)
    requires k < 32
    ensures BitAt(Wrap(x * Pow2(n)), k) == if k < n then 0 else BitAt(x, k - n)
  {
    hide Pow2, BitAt;
    Pow2Of32();
    BitOfMultiple(x, n, k);
    BitOfRemainder(x * Pow2(n), 32, k);
  }

  /** A logical right shift moves every bit down by n and fills with zeros. */
  lemma RightBit(x: Word, n: nat, k: nat)
    ensures BitAt(Wrap(x / Pow2(n)), k) == if k + n < 32 then BitAt(x, k + n) else 0
  {
    hide Pow2, BitAt;
    Pow2Of32();
    DivBound(x, Pow2(n));
    BitOfQuotient(x, n, k);
    if k + n >= 32 { NoHighBits(x, 32, k + n); }
  }

  /** An arithmetic right shift fills with the sign bit instead. */
  lemma ArithmeticBit(x: Word, n: nat, k: nat)
    requires k < 32
    ensures BitAt(Wrap(Signed(x) / Pow2(n)), k) == BitAt(x, if k + n < 32 then k + n else 31)
  {
    hide Pow2, BitAt;
    Pow2Of32();
    SignBit(x);
    RightBit(x, n, k);
    if x >= 0x8000_0000 {
      var y := Not(x);
      NegativeQuotient(y, Pow2(n));
      DivBound(y, Pow2(n));
      assert Wrap(Signed(x) / Pow2(n)) == Not(y / Pow2(n));
      ComplementBit(y / Pow2(n), 32, k);
      BitOfQuotient(y, n, k);
      if k + n < 32 { ComplementBit(x, 32, k + n); } else { NoHighBits(y, 32, k + n); }
    }
  }

  lemma NegativeQuotient(y: nat, p: nat)
    requires 0 < p
    ensures (-1 - y) / p == -1 - y / p
  {
    DivMod(y, p);
    var q := y / p;
    assert -1 - y == p * (-1 - q) + (p - 1 - y % p) by { Distribute(p, 1, q, 0); }
    QuotRem(-1 - y, p, -1 - q, p - 1 - y % p);
  }

  lemma SignBit(x: Word)
    ensures BitAt(x, 31) == 1 <==> x >= 0x8000_0000
  {
    hide Pow2, BitAt;
    Pow2Table();
    BitOfQuotient(x, 31, 0);
    QuotRem(x, 0x8000_0000, x / 0x8000_0000, x % 0x8000_0000);
    LastBit(x / 0x8000_0000);
  }

  lemma LastBit(q: nat)
    ensures BitAt(q, 0) == q % 2
  {}

  /** Flipping the sign bit turns the signed order into the unsigned one. */
  lemma FlipSign(x: Word)
    ensures Xor(x, 0x8000_0000) == Signed(x) + 0x8000_0000
  {
    hide Bitwise, OneBit, Pow2, Scale;
    Pow2Table();
    var h, l := x / 0x8000_0000, x % 0x8000_0000;
    ScaleIsMul(h, 31);
    ScaleIsMul(1, 31);
    BitwiseSplit(XorGate, h, l, 1, 0, 31, 1);
    XorZero(l, 31);
    ScaleIsMul(1 - h, 31);
    TopGate(h);
  }

  lemma TopGate(h: Bit)
    ensures Bitwise(XorGate, h, 1, 1) == 1 - h
  {
    assert Bitwise(XorGate, h / 2, 1 / 2, 0) == 0;
  }

  lemma {:induction false} XorZero(x: nat, n: nat)
    requires x < Pow2(n)
    ensures Bitwise(XorGate, x, 0, n) == x
    decreases n
  {
    if n != 0 {
      XorZero(x / 2, n - 1);
    }
  }
}
