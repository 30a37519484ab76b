/** Carry-less multiplication (blink/clmul.c). */
module Clmul {
  import opened Bits
  import Bitscan

  function Either(c: bool, x: nat): nat {
    if c then x else 0
  }

  /** The schoolbook product of polynomials over GF(2), one row per bit of b. */
  function Product(a: nat, b: nat): nat {
    if b == 0 then 0 else BitXor(Either(b % 2 == 1, a), 2 * Product(a, b / 2))
  }

  // ----- the product -----

  lemma {:induction false} ProductDouble(a: nat, b: nat)
    ensures Product(2 * a, b) == 2 * Product(a, b)
  {
    if b > 0 {
      ProductDouble(a, b / 2);
      XorDouble(Either(b % 2 == 1, a), 2 * Product(a, b / 2));
    }
  }

  lemma XorDigits(u: nat, e: bool, q: nat)
    ensures BitXor(2 * u + (if e then 1 else 0), 2 * q) == 2 * BitXor(u, q) + (if e then 1 else 0)
  {
    var x := 2 * u + (if e then 1 else 0);
    assert x / 2 == u && 2 * q / 2 == q && x % 2 == if e then 1 else 0;
  }

  /** The product can be built from the bits of a instead. */
  lemma {:induction false} LeftStep(a: nat, b: nat)
    ensures Product(a, b) == BitXor(Either(a % 2 == 1, b), 2 * Product(a / 2, b))
  {
    if b == 0 {
      XorZero(0);
    } else {
      LeftStep(a, b / 2);
      LeftDigit(a, b);
    }
  }

  lemma EitherDigit(c: bool, x: nat)
    ensures Either(c, x) == 2 * Either(c, x / 2) + (if c && x % 2 == 1 then 1 else 0)
  {
  }

  lemma ProductRow(a: nat, b: nat)
    requires b > 0
    ensures Product(a, b) == BitXor(Either(b % 2 == 1, a), 2 * Product(a, b / 2))
  {
  }

  /** One digit of the step. */
  lemma LeftDigit(a: nat, b: nat)
    requires b > 0 && Product(a, b / 2) == BitXor(Either(a % 2 == 1, b / 2), 2 * Product(a / 2, b / 2))
    ensures Product(a, b) == BitXor(Either(a % 2 == 1, b), 2 * Product(a / 2, b))
  {
    hide BitXor, Product, Either;
    var oa, ob, p := a % 2 == 1, b % 2 == 1, 2 * Product(a / 2, b / 2);
    var q, r := Product(a, b / 2), Product(a / 2, b);
    ProductRow(a, b);
    ProductRow(a / 2, b);
    EitherDigit(ob, a);
    EitherDigit(oa, b);
    XorDigits(Either(ob, a / 2), oa && ob, q);
    XorDigits(Either(oa, b / 2), oa && ob, r);
    XorLeft(Either(ob, a / 2), Either(oa, b / 2), p);
  }

  lemma {:induction false} ProductZero(b: nat)
    ensures Product(0, b) == 0
  {
    if b > 0 {
      ProductZero(b / 2);
      XorZero(0);
    }
  }

  /** Which operand comes first does not matter. */
  lemma {:induction false} ProductCommutes(a: nat, b: nat)
    ensures Product(a, b) == Product(b, a)
    decreases a
  {
    if a == 0 {
      ProductZero(b);
    } else {
      LeftStep(a, b);
      ProductCommutes(a / 2, b);
    }
  }

  /** How many pairs of bits, i of b below n and k - i of a, are both set. */
  function Hits(a: nat, b: nat, k: nat, n: nat): nat
    requires n <= k + 1
  {
    if n == 0 then 0 else Hits(a, b, k, n - 1) + Int(Bit(b, n - 1) && Bit(a, k - (n - 1)))
  }

  lemma {:induction false} HitsShift(a: nat, b: nat, k: nat, n: nat)
    requires n <= k
    ensures Hits(a, b, k, n + 1) == Int(Bit(b, 0) && Bit(a, k)) + if k == 0 then 0 else Hits(a, b / 2, k - 1, n)
    decreases n
  {
    if n > 0 {
      HitsShift(a, b, k, n - 1);
      assert Bit(b, n) == Bit(b / 2, n - 1);
    }
    hide Bit;
    assert n == 0 ==> Hits(a, b, k, 1) == Hits(a, b, k, 0) + Int(Bit(b, 0) && Bit(a, k));
  }

  lemma {:induction false} NoHits(a: nat, k: nat, n: nat)
    requires n <= k + 1
    ensures Hits(a, 0, k, n) == 0
    decreases n
  {
    if n > 0 {
      NoHits(a, k, n - 1);
      ZeroBits(n - 1);
    }
  }

  lemma EitherBit(c: bool, x: nat, k: nat)
    ensures Bit(Either(c, x), k) <==> c && Bit(x, k)
  {
    ZeroBits(k);
  }

  lemma DoubleBit(x: nat, k: nat)
    ensures Bit(2 * x, k) <==> k > 0 && Bit(x, k - 1)
  {
    assert 2 * x % 2 == 0 && 2 * x / 2 == x;
  }

  /** Coefficient k of the product of two polynomials over GF(2): the parity of the number of ways to make it. */
  lemma {:induction false} ProductBit(a: nat, b: nat, k: nat)
    ensures Bit(Product(a, b), k) <==> Hits(a, b, k, k + 1) % 2 == 1
    decreases k
  {
    if b == 0 {
      ZeroBits(k);
      NoHits(a, k, k + 1);
    } else {
      var row, rest := Either(b % 2 == 1, a), Product(a, b / 2);
      assert Bit(b, 0) <==> b % 2 == 1;
      ProductRow(a, b);
      hide BitXor, Product, Either, Bit, Hits;
      XorBit(row, 2 * rest, k);
      EitherBit(b % 2 == 1, a, k);
      DoubleBit(rest, k);
      HitsShift(a, b, k, k);
      if k > 0 { ProductBit(a, b / 2, k - 1); }
    }
  }

  // ----- the loop -----

  /** x ^= a, y ^= t when the bit is set, seen as one 128-bit step. */
  lemma Accumulate(x: nat, y: nat, a: nat, t: nat, b: nat)
    requires x < WORD && a < WORD && b > 0
    ensures var x', y' := BitXor(x, Either(b % 2 == 1, a)), BitXor(y, Either(b % 2 == 1, t));
            BitXor(x + WORD * y, Product(a + WORD * t, b)) == BitXor(x' + WORD * y', Product(2 * (a + WORD * t), b / 2))
  {
    hide BitXor, Pow2;
    Pow2Words();
    var c, full := b % 2 == 1, a + WORD * t;
    XorSplit(x, y, Either(c, a), Either(c, t), 64);
    ProductDouble(full, b / 2);
    assert Product(full, b) == BitXor(Either(c, full), 2 * Product(full, b / 2));
    assert Either(c, full) == Either(c, a) + WORD * Either(c, t);
    XorAssociates(x + WORD * y, Either(c, full), 2 * Product(full, b / 2));
  }

  /** t << 1 | a >> 63 and a << 1, seen as doubling 128 bits. */
  lemma DoubleWords(a: nat, t: nat)
    requires a < WORD && 2 * (a + WORD * t) < WORD * WORD
    ensures var a', t' := 2 * a % WORD, BitOr(2 * t % WORD, a / 0x8000_0000_0000_0000);
            a' < WORD && a' + WORD * t' == 2 * (a + WORD * t)
  {
    hide BitOr;
    var top := a / 0x8000_0000_0000_0000;
    SmallTop(a);
    assert 2 * t < WORD;
    OrLow(t, top);
  }

  lemma SmallTop(a: nat)
    requires a < WORD
    ensures var top := a / 0x8000_0000_0000_0000; top <= 1 && 2 * a == 2 * a % WORD + WORD * top
  {
  }

  lemma OrLow(t: nat, top: nat)
    requires top <= 1
    ensures BitOr(2 * t, top) == 2 * t + top
  {
    assert 2 * t / 2 == t && top / 2 == 0;
    OrZero(t);
  }

  /** clmul: the low and high halves of the product. Putting the longer operand first saves rounds and changes nothing.
      */
  method Multiply(a0: nat, b0: nat) returns (x: nat, y: nat)
    requires a0 < WORD && b0 < WORD
    ensures x < WORD && y < WORD && x + WORD * y == Product(a0, b0)
  {
    hide BitXor, BitOr, Pow2, Product, Bitscan.Bsr;
    x, y := 0, 0;
    ProductEnds(a0, b0);
    if a0 != 0 && b0 != 0 {
      var a: nat, b: nat, t: nat := a0, b0, 0;
      if Bitscan.Bsr(a) < Bitscan.Bsr(b) {
        a, b := b, a;
        ProductCommutes(a0, b0);
      }
      ghost var i: nat, a1: nat := 0, a;
      hide Going;
      Start(a, b, i, Product(a0, b0));
      while b != 0
        invariant x < WORD && y < WORD && Going(x, y, a, t, b, a1, i, Product(a0, b0))
        decreases b
      {
        Round(x, y, a, t, b, a1, i, Product(a0, b0));
        if b % 2 == 1 { x, y := BitXor(x, a), BitXor(y, t); }
        t := BitOr(2 * t % WORD, a / 0x8000_0000_0000_0000);
        a, b := 2 * a % WORD, b / 2;
        i := i + 1;
      }
      EndOfLoop(x, y, a, t, a1, i, Product(a0, b0));
    }
  }

  /** Before round i: the operand a1 shifted i places is in t and a, and what is gathered in y and x is short of the
      product p by what the bits left in b will add. */
  ghost predicate Going(x: nat, y: nat, a: nat, t: nat, b: nat, a1: nat, i: nat, p: nat) {
    && i <= 64 && a < WORD && t < WORD && a1 < WORD && b < Pow2(64 - i) && Shifted(a, t, a1, i)
    && Short(x, y, a + WORD * t, b, p)
  }

  ghost predicate Short(x: nat, y: nat, full: nat, b: nat, p: nat) {
    BitXor(x + WORD * y, Product(full, b)) == p
  }

  lemma Owed(x: nat, y: nat, a: nat, t: nat, b: nat, p: nat)
    requires x < WORD && a < WORD && b > 0 && Short(x, y, a + WORD * t, b, p)
    ensures Short(BitXor(x, Either(b % 2 == 1, a)), BitXor(y, Either(b % 2 == 1, t)), 2 * (a + WORD * t), b / 2, p)
  {
    hide BitXor, Product, Either;
    Accumulate(x, y, a, t, b);
  }

  lemma Gather(x: nat, y: nat, a: nat, t: nat, b: nat, p: nat)
    requires x < WORD && y < WORD && a < WORD && t < WORD && b > 0 && Short(x, y, a + WORD * t, b, p)
    ensures var x', y' := if b % 2 == 1 then BitXor(x, a) else x, if b % 2 == 1 then BitXor(y, t) else y;
            x' < WORD && y' < WORD && Short(x', y', 2 * (a + WORD * t), b / 2, p)
  {
    hide BitXor, Either, Short;
    Owed(x, y, a, t, b, p);
    XorEither(x, a, b % 2 == 1);
    XorEither(y, t, b % 2 == 1);
    WordXor(x, a);
    WordXor(y, t);
  }

  ghost predicate Shifted(a: nat, t: nat, a1: nat, i: nat) {
    a + WORD * t == a1 * Pow2(i)
  }

  lemma ShiftOnce(a: nat, t: nat, b: nat, a1: nat, i: nat)
    requires a < WORD && a1 < WORD && i <= 64 && 0 < b < Pow2(64 - i) && Shifted(a, t, a1, i)
    ensures var a', t' := 2 * a % WORD, BitOr(2 * t % WORD, a / 0x8000_0000_0000_0000);
            && a' < WORD && t' < WORD && a' + WORD * t' == 2 * (a + WORD * t) && Shifted(a', t', a1, i + 1)
            && i < 64 && b / 2 < Pow2(63 - i)
  {
    hide BitOr, Pow2;
    Room(a1, i, b);
    DoubleWords(a, t);
  }

  lemma Start(a: nat, b: nat, i: nat, p: nat)
    requires a < WORD && b < WORD && i == 0 && Product(a, b) == p
    ensures Going(0, 0, a, 0, b, a, i, p)
  {
    hide BitXor, Product;
    Pow2Words();
    assert Pow2(0) == 1;
    hide Pow2;
    ZeroStart(p);
  }

  lemma Round(x: nat, y: nat, a: nat, t: nat, b: nat, a1: nat, i: nat, p: nat)
    requires x < WORD && y < WORD && Going(x, y, a, t, b, a1, i, p) && b > 0
    ensures var x', y' := if b % 2 == 1 then BitXor(x, a) else x, if b % 2 == 1 then BitXor(y, t) else y;
            && x' < WORD && y' < WORD
            && Going(x', y', 2 * a % WORD, BitOr(2 * t % WORD, a / 0x8000_0000_0000_0000), b / 2, a1, i + 1, p)
  {
    hide BitXor, BitOr, Pow2, Shifted, Short;
    ShiftOnce(a, t, b, a1, i);
    Gather(x, y, a, t, b, p);
  }

  lemma XorEither(x: nat, a: nat, c: bool)
    ensures BitXor(x, Either(c, a)) == if c then BitXor(x, a) else x
  {
    hide BitXor;
    XorZero(x);
  }

  lemma WordXor(x: nat, y: nat)
    requires x < WORD && y < WORD
    ensures BitXor(x, y) < WORD
  {
    hide BitXor, Pow2;
    Pow2Words();
    XorBound(x, y, 64);
  }

  lemma EndOfLoop(x: nat, y: nat, a: nat, t: nat, a1: nat, i: nat, p: nat)
    requires Going(x, y, a, t, 0, a1, i, p)
    ensures x + WORD * y == p
  {
    hide BitXor, Shifted;
    EndOfProduct(a + WORD * t, x + WORD * y);
  }

  lemma ProductEnds(a: nat, b: nat)
    ensures a == 0 || b == 0 ==> Product(a, b) == 0
  {
    ProductZero(b);
  }

  lemma ZeroStart(p: nat)
    ensures BitXor(0 + WORD * 0, p) == p
  {
    XorZero(p);
  }

  lemma EndOfProduct(a: nat, x: nat)
    ensures BitXor(x, Product(a, 0)) == x
  {
    XorZero(x);
  }

  /** While bits of b remain the shifted operand still fits 128 bits. */
  lemma Room(a1: nat, i: nat, b: nat)
    requires a1 < WORD && i <= 64 && 0 < b < Pow2(64 - i)
    ensures i < 64 && b / 2 < Pow2(63 - i) && a1 * Pow2(i + 1) == 2 * (a1 * Pow2(i)) < WORD * WORD
  {
    hide Pow2;
    Pow2Next(if i < 64 then 63 - i else 0);
    Pow2Next(i);
    Pow2Words();
    Pow2Mono(i + 1, 64);
    assert a1 * Pow2(i + 1) == 2 * (a1 * Pow2(i));
    LessProduct(a1, Pow2(i + 1), WORD);
  }

  lemma LessProduct(a: nat, p: nat, w: nat)
    requires a < w && 0 < p <= w
    ensures a * p < w * w
  {
    assert a * p <= a * w < w * w;
  }
}
