/** 128-bit multiplication and division out of 64-bit halves (blink/divmul.c, the path without __int128).
    A u64 is an int in range; every C operator that can wrap goes through `Wrap`.
    Where the C code joins disjoint bit fields with `|`, the model adds them. */
module Dubble {
  import opened Bits
  import Flags

  const BB: int := 0x1_0000_0000_0000_0000_0000_0000_0000_0000
  const HALF: int := 0x8000_0000_0000_0000
  const HALF2: int := 0x8000_0000_0000_0000_0000_0000_0000_0000

  datatype Dubble = Dubble(lo: u64, hi: u64)

  function Val(d: Dubble): (v: int)
    ensures 0 <= v < BB
  {
    d.hi * WORD + d.lo
  }

  /** Reduction modulo 2^64 of a sum or difference of two words. */
  function Wrap(x: int): (r: u64)
    requires 0 - WORD <= x < 2 * WORD
  {
    if x < 0 then x + WORD else if x >= WORD then x - WORD else x
  }

  function Neg64(x: u64): u64 {
    if x == 0 then 0 else WORD - x
  }

  /** x >> 63 */
  function TopBit(x: u64): u64 {
    if x >= HALF then 1 else 0
  }

  function Not64(x: u64): u64 {
    WORD - 1 - x
  }

  /** Two's complement readings. */
  function Signed64(x: u64): (v: int)
    ensures -HALF <= v < HALF
  {
    if x < HALF then x else x - WORD
  }

  function Signed128(d: Dubble): (v: int)
    ensures -HALF2 <= v < HALF2
  {
    if d.hi < HALF then Val(d) else Val(d) - BB
  }

  function Abs(x: int): nat {
    if x < 0 then -x else x
  }

  // ----- straight-line helpers -----

  function DubbleNeg(x: Dubble): (r: Dubble)
    ensures Val(r) == if Val(x) == 0 then 0 else BB - Val(x)
  {
    var borrow := if Wrap(x.lo - 1) > x.lo then 1 else 0;
    Dubble(Neg64(x.lo), Not64(Wrap(x.hi - borrow)))
  }

  function DubbleShl(x: Dubble): (r: Dubble)
    ensures Val(r) == if Val(x) < HALF2 then 2 * Val(x) else 2 * Val(x) - BB
  {
    Dubble(Wrap(x.lo * 2), Wrap(x.hi * 2) + TopBit(x.lo))
  }

  /** x << 63 keeps only the lowest bit. */
  function Shl63(x: u64): u64 {
    if x % 2 == 1 then HALF else 0
  }

  function DubbleShr(x: Dubble): (r: Dubble)
    ensures Val(r) == Val(x) / 2 && r.hi < HALF
  {
    Dubble(x.lo / 2 + Shl63(x.hi), x.hi / 2)
  }

  predicate DubbleLte(a: Dubble, b: Dubble)
    ensures DubbleLte(a, b) <==> Val(a) <= Val(b)
  {
    if a.hi == b.hi then a.lo <= b.lo else a.hi <= b.hi
  }

  /** The two-word subtraction of the division loop: the final borrow says that `a` was smaller. */
  function SubBorrow(a: Dubble, d: Dubble): (r: (Dubble, bool))
    requires d.hi < HALF
    ensures r.1 <==> Val(a) < Val(d)
    ensures !r.1 ==> Val(r.0) == Val(a) - Val(d)
  {
    var lo := Wrap(a.lo - d.lo);
    var c := if lo > a.lo then 1 else 0;
    var hi := Wrap(a.hi - Wrap(d.hi + c));
    (Dubble(lo, hi), hi > a.hi)
  }

  // ----- division -----

  lemma ShiftStep(b: u64, n: nat)
    ensures b * Pow2(n + 1) == 2 * (b * Pow2(n))
  {
    assert Pow2(n + 1) == 2 * Pow2(n);
  }

  lemma Pow2Constants()
    ensures Pow2(63) == HALF && Pow2(64) == WORD && Pow2(127) == HALF2 && Pow2(128) == BB
  {
    Pow2Words();
    Pow2Square(64, HALF);
  }

  lemma WordPowers(k: nat)
    ensures k <= 63 ==> Pow2(k) <= HALF
    ensures k >= 64 ==> Pow2(k) >= WORD
    ensures k <= 127 ==> Pow2(k) <= HALF2
    ensures k == 128 ==> Pow2(k) == BB
  {
    Pow2Constants();
    if k <= 63 { Pow2Mono(k, 63); }
    if k >= 64 { Pow2Mono(64, k); }
    if k <= 127 { Pow2Mono(k, 127); }
  }

  lemma QuotientAtLeast(a: int, b: int, k: int)
    requires 0 < b && k * b <= a
    ensures a / b >= k
  {
    var q, r := a / b, a % b;
    assert a == q * b + r;
    if q < k { Multiple(k - q, b); }
  }

  lemma FactorBound(q: int, d: int, a: int)
    requires 1 <= d && 0 <= q && q * d <= a
    ensures q <= a
  {
    Multiple(d, q);
  }

  /** First loop: shift the divisor left until it exceeds the dividend. It may wrap past 2^128, but only
      when the dividend is at least 2^127 and the quotient needs more than 64 bits. */
  method ScaleDivisor(a: Dubble, b: u64) returns (d: Dubble, n: nat, ghost wrapped: bool)
    requires b != 0
    ensures n <= 128
    ensures !wrapped ==> Val(d) == b * Pow2(n) && Val(a) < Val(d)
    ensures wrapped ==> n >= 65 && Val(a) >= HALF2 && Val(a) / b >= WORD
  {
    d := Dubble(b, 0);
    n := 0;
    wrapped := false;
    while DubbleLte(d, a) && n < 128
      invariant n <= 128
      invariant !wrapped ==> Val(d) == b * Pow2(n)
      invariant wrapped ==> n >= 65 && Val(a) >= HALF2 && WORD * b <= Val(a)
    {
      ShiftStep(b, n);
      if !wrapped && Val(d) >= HALF2 {
        WrapPoint(b, n);
        wrapped := true;
      }
      d := DubbleShl(d);
      n := n + 1;
    }
    if wrapped {
      QuotientAtLeast(Val(a), b, WORD);
    } else if Val(d) <= Val(a) {
      WordPowers(n);
      Multiple(b, BB);
      assert false;
    }
  }

  /** A 64-bit divisor reaches 2^127 only after 64 shifts. */
  lemma WrapPoint(b: u64, n: nat)
    requires b * Pow2(n) >= HALF2
    ensures n >= 64 && WORD * b <= b * Pow2(n)
  {
    WordPowers(n);
    if n < 64 {
      ProductMono(b, Pow2(n), HALF);
      assert false;
    }
    ProductMono(b, WORD, Pow2(n));
  }

  lemma ProductMono(b: int, x: int, y: int)
    requires 0 <= b && x <= y
    ensures b * x <= b * y
  {
  }

  /** One round of the second loop when nothing wrapped. */
  lemma Round(a0: int, a: int, d: int, q: int)
    requires d >= 1 && 0 <= a < 2 * d && 0 <= q && a0 == q * (2 * d) + a
    ensures 2 * q <= a0
    ensures a >= d ==> 2 * q + 1 <= a0 && a0 == (2 * q + 1) * d + (a - d)
    ensures a < d ==> a0 == (2 * q) * d + a
  {
    assert q * (2 * d) == (2 * q) * d;
    FactorBound(2 * q, d, a0);
    if a >= d {
      assert (2 * q + 1) * d == (2 * q) * d + d;
      FactorBound(2 * q + 1, d, a0);
    }
  }

  /** The body of the second loop: halve the divisor, shift the quotient, subtract if that does not borrow. */
  method Subtract(a0: Dubble, d0: Dubble, q0: Dubble) returns (a: Dubble, d: Dubble, q: Dubble)
    requires Val(q0) < HALF2
    ensures Val(d) == Val(d0) / 2
    ensures Val(a0) < Val(d) ==> a == a0 && Val(q) == 2 * Val(q0)
    ensures Val(a0) >= Val(d) ==> Val(a) == Val(a0) - Val(d) && Val(q) == 2 * Val(q0) + 1
  {
    d := DubbleShr(d0);
    q := DubbleShl(q0);
    var diff, borrow := SubBorrow(a0, d).0, SubBorrow(a0, d).1;
    a := diff;
    if borrow {
      a := a0;
    } else {
      q := q.(lo := Wrap(q.lo + 1));
    }
  }

  /** Unsigned 128 by 64 division. The answer is exact when the quotient fits 64 bits, and otherwise
      its high half is nonzero, even when the shifted divisor has wrapped past 2^128. */
  method DubbleDiv(a0: Dubble, b: u64) returns (q: Dubble, r: u64)
    requires b != 0
    ensures q.hi == 0 <==> Val(a0) / b < WORD
    ensures q.hi == 0 ==> q.lo == Val(a0) / b && r == Val(a0) % b
    ensures Val(a0) < HALF2 ==> Val(q) == Val(a0) / b && r == Val(a0) % b
  {
    hide Pow2, Val;
    var a := a0;
    q := Dubble(0, 0);
    ZeroVal();
    var d, n, wrapped := ScaleDivisor(a, b);
    ghost var top := n;
    while n > 0
      invariant n <= top
      invariant !wrapped ==> Val(d) == b * Pow2(n) && Val(a) < Val(d) && Val(a0) == Val(q) * Val(d) + Val(a)
      invariant wrapped && n == top ==> a == a0 && q == Dubble(0, 0)
      invariant wrapped && n < top ==> Pow2(top - n - 1) <= Val(q) < Pow2(top - n)
    {
      if wrapped {
        WrappedRound(a, d, q, n, top);
      } else {
        PlainRound(a0, a, d, q, b, n);
      }
      a, d, q := Subtract(a, d, q);
      n := n - 1;
    }
    r := a.lo;
    ValHigh(q);
    ValHigh(a);
    PowerZero();
    if wrapped {
      WordPowers(top - 1);
    } else {
      DivisionUnique(Val(a0), b, Val(q), Val(a));
    }
  }

  lemma ZeroVal()
    ensures Val(Dubble(0, 0)) == 0
  {
  }

  lemma PowerZero()
    ensures Pow2(0) == 1
  {
  }

  lemma ValHigh(d: Dubble)
    ensures d.hi == 0 <==> Val(d) < WORD
    ensures d.hi == 0 ==> Val(d) == d.lo
    ensures 0 <= Val(d) < BB
  {
  }

  /** A round of the second loop when nothing wrapped. */
  lemma PlainRound(a0: Dubble, a: Dubble, d: Dubble, q: Dubble, b: u64, n: nat)
    requires n > 0 && b != 0 && Val(d) == b * Pow2(n) && Val(a) < Val(d) && Val(a0) == Val(q) * Val(d) + Val(a)
    ensures Val(q) < HALF2 && Val(d) / 2 == b * Pow2(n - 1)
    ensures Val(a) >= Val(d) / 2 ==>
              && Val(a) - Val(d) / 2 < b * Pow2(n - 1)
              && Val(a0) == (2 * Val(q) + 1) * (b * Pow2(n - 1)) + (Val(a) - Val(d) / 2)
    ensures Val(a) < Val(d) / 2 ==> Val(a0) == 2 * Val(q) * (b * Pow2(n - 1)) + Val(a)
  {
    hide Pow2, Val;
    ValHigh(a0);
    ValHigh(a);
    ValHigh(q);
    ShiftStep(b, n - 1);
    Multiple(b, Pow2(n - 1));
    PowerPositive(n - 1);
    Round(Val(a0), Val(a), b * Pow2(n - 1), Val(q));
  }

  lemma PowerPositive(n: nat)
    ensures Pow2(n) >= 1
  {
  }

  /** A round of the second loop after the divisor wrapped: the quotient's top bit moves up. */
  lemma WrappedRound(a: Dubble, d: Dubble, q: Dubble, n: nat, top: nat)
    requires 0 < n <= top <= 128
    requires n == top ==> q == Dubble(0, 0) && Val(a) >= HALF2
    requires n < top ==> Pow2(top - n - 1) <= Val(q) < Pow2(top - n)
    ensures Val(q) < HALF2
    ensures n == top ==> Val(q) == 0 && Val(a) >= Val(d) / 2 && Pow2(0) == 1 && Pow2(1) == 2
    ensures n < top ==> Pow2(top - n) <= 2 * Val(q) && 2 * Val(q) + 1 < Pow2(top - n + 1)
  {
    hide Pow2, Val;
    ZeroVal();
    ValHigh(d);
    Pow2Next(0);
    if n < top {
      WordPowers(top - n);
      Pow2Next(top - n - 1);
      Pow2Next(top - n);
    }
  }

  // ----- multiplication -----

  type u32 = x: int | 0 <= x < DWORD

  lemma ProductBound(x: int, y: int, m: int)
    requires 0 <= x <= m && 0 <= y <= m
    ensures 0 <= x * y <= m * m
  {
    assert x * y <= x * m <= m * m;
  }

  /** A product of two 32-bit halves fits a 64-bit word with room for a 32-bit carry. */
  function HalfProduct(x: u32, y: u32): (p: u64)
    ensures p == x * y && p <= (DWORD - 1) * (DWORD - 1)
  {
    ProductBound(x, y, DWORD - 1);
    Wrap(x * y)
  }

  lemma SplitProduct(a: int, b: int)
    ensures a * b == a / DWORD * (b / DWORD) * WORD + (a / DWORD * (b % DWORD) + b / DWORD * (a % DWORD)) * DWORD
                     + a % DWORD * (b % DWORD)
  {
    var a1, a0, b1, b0 := a / DWORD, a % DWORD, b / DWORD, b % DWORD;
    assert a * b == a * b1 * DWORD + a * b0;
    assert a * b1 == a1 * b1 * DWORD + b1 * a0;
    assert a * b0 == a1 * b0 * DWORD + a0 * b0;
  }

  /** Adds a partial product into the upper half of the word x; the carry out fits 32 bits. */
  method AddMiddle(x0: u64, p: u64) returns (x: u64, carry: u64)
    requires p <= (DWORD - 1) * (DWORD - 1)
    ensures x + carry * WORD == x0 + p * DWORD && carry < DWORD
  {
    var t := x0 / DWORD;
    x := x0 % DWORD;
    t := Wrap(t + p);
    x := Wrap(x + Wrap(t % DWORD * DWORD));
    carry := t / DWORD;
  }

  /** Sums the four partial products; no 64-bit step overflows. */
  method AddProducts(p00: u64, p10: u64, p01: u64, p11: u64) returns (d: Dubble)
    requires p10 <= (DWORD - 1) * (DWORD - 1) && p01 <= (DWORD - 1) * (DWORD - 1) && p11 <= (DWORD - 1) * (DWORD - 1)
    ensures Val(d) == p11 * WORD + (p10 + p01) * DWORD + p00
  {
    var x, y := AddMiddle(p00, p10);
    var carry;
    x, carry := AddMiddle(x, p01);
    y := Wrap(y + carry);
    y := Wrap(y + p11);
    d := Dubble(x, y);
  }

  /** The exact 128-bit product of two 64-bit words by 32-bit halves. */
  method DubbleMul(a: u64, b: u64) returns (d: Dubble)
    ensures Val(d) == a * b
  {
    d := AddProducts(HalfProduct(a % DWORD, b % DWORD), HalfProduct(a / DWORD, b % DWORD),
                     HalfProduct(b / DWORD, a % DWORD), HalfProduct(a / DWORD, b / DWORD));
    SplitProduct(a, b);
  }

  lemma ProductSigns(x: int, y: int)
    ensures Abs(x) * Abs(y) == if (x < 0) != (y < 0) then -(x * y) else x * y
  {
  }

  lemma NegReadings(q: Dubble, r: u64)
    requires Val(q) < HALF2 && r < HALF
    ensures Signed128(q) == Val(q) && Signed128(DubbleNeg(q)) == -Val(q)
    ensures Signed64(r) == r && Signed64(Neg64(r)) == 0 - r
  {
  }

  /** The exact signed product, the most negative operand included. */
  method DubbleImul(a0: u64, b0: u64) returns (p: Dubble)
    ensures Signed128(p) == Signed64(a0) * Signed64(b0)
  {
    var a, b := a0, b0;
    var s, t := TopBit(a), TopBit(b);
    if s != 0 { a := Neg64(a); }
    if t != 0 { b := Neg64(b); }
    p := DubbleMul(a, b);
    assert Val(p) == Abs(Signed64(a0)) * Abs(Signed64(b0));
    ProductSigns(Signed64(a0), Signed64(b0));
    ProductBound(a, b, HALF);
    NegReadings(p, 0);
    if s != t { p := DubbleNeg(p); }
  }

  /** Signed 128 by 64 division, quotient kept at 128 bits; exact for every dividend but -2^127, whose magnitude the
      unsigned division cannot be trusted with. */
  method DubbleIdiv(a0: Dubble, b0: u64) returns (q: Dubble, r: u64)
    requires b0 != 0
    ensures Signed128(a0) != -HALF2 ==> Signed128(q) == TruncDiv(Signed128(a0), Signed64(b0))
    ensures Signed128(a0) != -HALF2 ==> Signed64(r) == TruncRem(Signed128(a0), Signed64(b0))
  {
    var a, b := a0, b0;
    var s, t := TopBit(a.hi), TopBit(b);
    if s != 0 { a := DubbleNeg(a); }
    if t != 0 { b := Neg64(b); }
    assert Val(a) == Abs(Signed128(a0)) && b == Abs(Signed64(b0));
    q, r := DubbleDiv(a, b);
    QuotientBound(Val(a), b);
    if Signed128(a0) != -HALF2 { NegReadings(q, r); }
    if s != t { q := DubbleNeg(q); }
    if s != 0 { r := Neg64(r); }
  }

  lemma QuotientBound(a: int, b: int)
    requires 0 <= a && 0 < b
    ensures 0 <= a / b <= a && 0 <= a % b < b
  {
    var q, r := a / b, a % b;
    assert a == q * b + r;
    if q < 0 { Multiple(-q, b); }
    FactorBound(q, b, a);
  }

  /** C's division of signed numbers: truncation toward zero, remainder with the sign of the dividend. */
  function TruncDiv(a: int, b: int): int
    requires b != 0
  {
    if (a < 0) != (b < 0) then -(Abs(a) / Abs(b)) else Abs(a) / Abs(b)
  }

  function TruncRem(a: int, b: int): int
    requires b != 0
  {
    if a < 0 then -(Abs(a) % Abs(b)) else Abs(a) % Abs(b)
  }

  /** What makes these the truncated quotient and remainder, whatever their definition. */
  lemma TruncLaws(a: int, b: int)
    requires b != 0
    ensures a == TruncDiv(a, b) * b + TruncRem(a, b)
    ensures Abs(TruncRem(a, b)) < Abs(b)
    ensures TruncRem(a, b) == 0 || (TruncRem(a, b) < 0) == (a < 0)
  {
    var q, r := Abs(a) / Abs(b), Abs(a) % Abs(b);
    assert Abs(a) == q * Abs(b) + r;
    QuotientBound(Abs(a), Abs(b));
  }

  // ----- the instructions -----

  /** The registers the divide and multiply instructions touch, and the flags. */
  class Cpu {
    var ax: u64
    var dx: u64
    var flags: Flags.Flags

    /** DIV r/m64: faults exactly on a zero divisor or a quotient of 65 bits or more, changing nothing. */
    method DivUnsigned64(divisor: u64) returns (fault: bool)
      modifies this
      ensures fault <==> divisor == 0 || Val(Dubble(old(ax), old(dx))) / divisor >= WORD
      ensures fault ==> ax == old(ax) && dx == old(dx)
      ensures !fault ==> ax == Val(Dubble(old(ax), old(dx))) / divisor && dx == Val(Dubble(old(ax), old(dx))) % divisor
      ensures flags == old(flags)
    {
      if divisor == 0 { return true; }
      var q, r := DubbleDiv(Dubble(ax, dx), divisor);
      if q.hi != 0 { return true; }
      ax, dx := q.lo, r;
      fault := false;
    }

    /** IDIV r/m64: faults exactly on a zero divisor or a quotient outside the signed 64-bit range. */
    method DivSigned64(divisor: u64) returns (fault: bool)
      modifies this
      ensures fault <==> divisor == 0 ||
                         !(-HALF <= TruncDiv(Signed128(Dubble(old(ax), old(dx))), Signed64(divisor)) < HALF)
      ensures fault ==> ax == old(ax) && dx == old(dx)
      ensures !fault ==> Signed64(ax) == TruncDiv(Signed128(Dubble(old(ax), old(dx))), Signed64(divisor))
      ensures !fault ==> Signed64(dx) == TruncRem(Signed128(Dubble(old(ax), old(dx))), Signed64(divisor))
      ensures flags == old(flags)
    {
      if divisor == 0 { return true; }
      if ax == 0 && dx == HALF {
        QuotientAtLeast(HALF2, Abs(Signed64(divisor)), WORD);
        return true;
      }
      var q, r := DubbleIdiv(Dubble(ax, dx), divisor);
      if Signed64(q.lo) < 0 && Signed64(q.hi) != -1 { return true; }
      if Signed64(q.lo) >= 0 && q.hi != 0 { return true; }
      ax, dx := q.lo, r;
      fault := false;
    }

    /** MUL r/m64: CF and OF say whether the high half is needed. */
    method MulUnsigned64(x: u64)
      modifies this
      ensures Val(Dubble(ax, dx)) == old(ax) * x
      ensures flags == Flags.MulFlags(old(flags), old(ax) * x >= WORD)
    {
      var p := DubbleMul(ax, x);
      ax, dx := p.lo, p.hi;
      flags := flags.(cf := p.hi != 0, of := p.hi != 0);
    }

    /** IMUL r/m64: CF and OF say whether the product leaves the signed 64-bit range. */
    method MulSigned64(x: u64)
      modifies this
      ensures Signed128(Dubble(ax, dx)) == Signed64(old(ax)) * Signed64(x)
      ensures flags == Flags.MulFlags(old(flags), !(-HALF <= Signed64(old(ax)) * Signed64(x) < HALF))
    {
      var p := DubbleImul(ax, x);
      var o := Wrap(p.hi + TopBit(p.lo)) != 0;
      ax, dx := p.lo, p.hi;
      flags := flags.(cf := o, of := o);
    }
  }
}
