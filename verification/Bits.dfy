/** Unsigned machine words as natural numbers, and the bit-level operators C applies to them.
    `BitAnd`, `BitOr` and `BitXor` work digit by digit; the lemmas say what each operator does to one bit. */
module Bits {

  const WORD: nat := 0x1_0000_0000_0000_0000
  const DWORD: nat := 0x1_0000_0000

  type u64 = x: int | 0 <= x < 0x1_0000_0000_0000_0000

  function Int(v: bool): nat {
    if v then 1 else 0
  }

  function Pow2(n: nat): (r: nat)
    ensures r >= 1
  {
    if n == 0 then 1 else 2 * Pow2(n - 1)
  }

  /** Bit `i` of `x`. */
  predicate Bit(x: nat, i: nat) {
    if i == 0 then x % 2 == 1 else Bit(x / 2, i - 1)
  }

  function BitAnd(x: nat, y: nat): nat {
    if x == 0 then 0 else 2 * BitAnd(x / 2, y / 2) + (if x % 2 == 1 && y % 2 == 1 then 1 else 0)
  }

  function BitOr(x: nat, y: nat): nat {
    if x == 0 && y == 0 then 0
    else 2 * BitOr(x / 2, y / 2) + (if x % 2 == 1 || y % 2 == 1 then 1 else 0)
  }

  function BitXor(x: nat, y: nat): nat {
    if x == 0 && y == 0 then 0
    else 2 * BitXor(x / 2, y / 2) + (if x % 2 != y % 2 then 1 else 0)
  }

  lemma ZeroBits(i: nat)
    ensures !Bit(0, i)
  {
    if i > 0 { ZeroBits(i - 1); }
  }

  lemma OneBit()
    ensures Bit(1, 0)
  {
  }

  lemma {:induction false} AndBit(x: nat, y: nat, i: nat)
    ensures Bit(BitAnd(x, y), i) <==> Bit(x, i) && Bit(y, i)
  {
    if x == 0 {
      ZeroBits(i);
    } else if i > 0 {
      AndBit(x / 2, y / 2, i - 1);
    }
  }

  lemma {:induction false} OrBit(x: nat, y: nat, i: nat)
    ensures Bit(BitOr(x, y), i) <==> Bit(x, i) || Bit(y, i)
  {
    if x == 0 && y == 0 {
      ZeroBits(i);
    } else if i > 0 {
      OrBit(x / 2, y / 2, i - 1);
    }
  }

  lemma {:induction false} XorBit(x: nat, y: nat, i: nat)
    ensures Bit(BitXor(x, y), i) <==> Bit(x, i) != Bit(y, i)
  {
    if x == 0 && y == 0 {
      ZeroBits(i);
    } else if i > 0 {
      XorBit(x / 2, y / 2, i - 1);
    }
  }

  /** Words below 2^n that agree on bits 0..n-1 are equal. */
  lemma {:induction false} SameBits(x: nat, y: nat, n: nat)
    requires x < Pow2(n) && y < Pow2(n)
    requires forall i: nat :: i < n ==> (Bit(x, i) <==> Bit(y, i))
    ensures x == y
  {
    if n > 0 {
      assert Bit(x, 0) <==> Bit(y, 0);
      forall i: nat | i < n - 1
        ensures Bit(x / 2, i) <==> Bit(y / 2, i)
      {
        assert Bit(x, i + 1) <==> Bit(y, i + 1);
      }
      SameBits(x / 2, y / 2, n - 1);
    }
  }

  /** A word below 2^n has no bit at or above n. */
  lemma {:induction false} HighBits(x: nat, n: nat, i: nat)
    requires x < Pow2(n) && n <= i
    ensures !Bit(x, i)
  {
    if n == 0 {
      ZeroBits(i);
    } else {
      HighBits(x / 2, n - 1, i - 1);
    }
  }

  lemma {:induction false} OrBound(x: nat, y: nat, n: nat)
    requires x < Pow2(n) && y < Pow2(n)
    ensures BitOr(x, y) < Pow2(n)
  {
    if n > 0 { OrBound(x / 2, y / 2, n - 1); }
  }

  lemma {:induction false} AndBound(x: nat, y: nat, n: nat)
    requires x < Pow2(n)
    ensures BitAnd(x, y) < Pow2(n)
  {
    if n > 0 { AndBound(x / 2, y / 2, n - 1); }
  }

  lemma {:induction false} XorBound(x: nat, y: nat, n: nat)
    requires x < Pow2(n) && y < Pow2(n)
    ensures BitXor(x, y) < Pow2(n)
  {
    if n > 0 { XorBound(x / 2, y / 2, n - 1); }
  }

  lemma {:induction false} Pow2Add(a: nat, b: nat)
    ensures Pow2(a + b) == Pow2(a) * Pow2(b)
  {
    if a > 0 {
      Pow2Add(a - 1, b);
      assert Pow2(a) * Pow2(b) == 2 * (Pow2(a - 1) * Pow2(b));
    }
  }

  lemma {:induction false} Pow2Mono(a: nat, b: nat)
    requires a <= b
    ensures Pow2(a) <= Pow2(b)
  {
    if a < b { Pow2Mono(a, b - 1); }
  }

  lemma StrictPow2(a: nat, b: nat)
    requires a < b
    ensures 2 * Pow2(a) <= Pow2(b) && Pow2(a) < Pow2(b)
  {
    Pow2Mono(a + 1, b);
  }

  lemma {:induction false} BelowPow2(n: nat)
    ensures n < Pow2(n)
  {
    if n > 0 { BelowPow2(n - 1); }
  }

  /** 2^(2n), and 2^(2n-1), from 2^n. */
  lemma Pow2Square(n: nat, p: nat)
    requires n > 0 && Pow2(n) == 2 * p
    ensures Pow2(2 * n) == 4 * p * p && Pow2(2 * n - 1) == 2 * p * p
  {
    Pow2Add(n, n);
    assert Pow2(2 * n) == 2 * Pow2(2 * n - 1);
  }

  lemma Pow2Words()
    ensures Pow2(8) == 0x100 && Pow2(16) == 0x1_0000 && Pow2(32) == 0x1_0000_0000
    ensures Pow2(63) == 0x8000_0000_0000_0000 && Pow2(64) == 0x1_0000_0000_0000_0000
  {
    assert Pow2(8) == 256;
    Pow2Square(8, 128);
    Pow2Square(16, 0x8000);
    Pow2Square(32, 0x8000_0000);
  }

  /** Shifting left by s moves every bit up by s. */
  lemma {:induction false} ShlBit(x: nat, s: nat, i: nat)
    ensures Bit(x * Pow2(s), i) <==> i >= s && Bit(x, i - s)
  {
    if s > 0 {
      var y := x * Pow2(s - 1);
      assert x * Pow2(s) == 2 * y;
      assert (2 * y) / 2 == y && (2 * y) % 2 == 0;
      if i > 0 { ShlBit(x, s - 1, i - 1); }
    }
  }

  /** b in the low n bits, w above. */
  lemma {:induction false} AppendBit(b: nat, n: nat, w: nat, i: nat)
    requires b < Pow2(n)
    ensures Bit(b + Pow2(n) * w, i) <==> if i < n then Bit(b, i) else Bit(w, i - n)
  {
    if n > 0 {
      var x := b + Pow2(n) * w;
      assert Pow2(n) * w == 2 * (Pow2(n - 1) * w);
      assert x / 2 == b / 2 + Pow2(n - 1) * w && x % 2 == b % 2;
      if i > 0 { AppendBit(b / 2, n - 1, w, i - 1); }
    }
  }

  function Shr(x: nat, s: nat): (r: nat)
    ensures r <= x
  {
    if s == 0 then x else Shr(x / 2, s - 1)
  }

  /** Shifting right by s moves every bit down by s. */
  lemma {:induction false} ShrBit(x: nat, s: nat, i: nat)
    ensures Bit(Shr(x, s), i) <==> Bit(x, i + s)
  {
    if s > 0 { ShrBit(x / 2, s - 1, i); }
  }

  /** 2^n - 1 has exactly the bits below n. */
  lemma {:induction false} MaskBit(n: nat, i: nat)
    ensures Bit(Pow2(n) - 1, i) <==> i < n
  {
    if n == 0 {
      ZeroBits(i);
    } else {
      assert (Pow2(n) - 1) / 2 == Pow2(n - 1) - 1;
      if i > 0 { MaskBit(n - 1, i - 1); }
    }
  }

  /** Complement within n bits. */
  lemma {:induction false} NotBit(x: nat, n: nat, i: nat)
    requires x < Pow2(n) && i < n
    ensures Bit(Pow2(n) - 1 - x, i) <==> !Bit(x, i)
  {
    assert (Pow2(n) - 1 - x) / 2 == Pow2(n - 1) - 1 - x / 2;
    if i > 0 { NotBit(x / 2, n - 1, i - 1); }
  }

  /** Setting a bit above everything already set is addition. */
  lemma {:induction false} OrAdds(r: nat, n: nat)
    requires r < Pow2(n)
    ensures BitOr(r, Pow2(n)) == r + Pow2(n)
  {
    if n > 0 {
      assert Pow2(n) / 2 == Pow2(n - 1);
      OrAdds(r / 2, n - 1);
    } else {
      assert BitOr(0, 1) == 2 * BitOr(0, 0) + 1;
    }
  }

  lemma {:induction false} OrZero(x: nat)
    ensures BitOr(x, 0) == x
  {
    if x > 0 { OrZero(x / 2); }
  }

  /** The lowest set bit, as __builtin_ctz returns it. */
  function Ctz(x: nat): (r: nat)
    requires x > 0
    ensures Bit(x, r)
    ensures forall i: nat :: i < r ==> !Bit(x, i)
  {
    if x % 2 == 1 then 0
    else
      var r := Ctz(x / 2);
      assert forall i: nat :: 0 < i < r + 1 ==> (Bit(x, i) <==> Bit(x / 2, i - 1));
      r + 1
  }

  lemma Multiple(k: int, b: int)
    requires 1 <= k && 0 <= b
    ensures b <= k * b
  {
  }

  /** A quotient and remainder pin down a / b and a % b. */
  lemma DivisionUnique(a: int, b: int, q: int, r: int)
    requires 0 < b && 0 <= r < b && a == q * b + r
    ensures a / b == q && a % b == r
  {
    var q', r' := a / b, a % b;
    assert a == q' * b + r';
    if q > q' {
      Multiple(q - q', b);
    } else if q < q' {
      Multiple(q' - q, b);
    }
  }

  /** Adding a multiple of m does not change a remainder. */
  lemma ModShift(v: int, k: int, m: int)
    requires m > 0
    ensures (v + k * m) % m == v % m
  {
    var q, r := v / m, v % m;
    assert v + k * m == (q + k) * m + r;
    DivisionUnique(v + k * m, m, q + k, r);
  }

  // ----- exclusive or -----

  lemma {:induction false} XorZero(x: nat)
    ensures BitXor(x, 0) == x && BitXor(0, x) == x
  {
    if x > 0 { XorZero(x / 2); }
  }

  lemma {:induction false} XorSelf(x: nat)
    ensures BitXor(x, x) == 0
  {
    if x > 0 { XorSelf(x / 2); }
  }

  lemma {:induction false} XorCommutes(x: nat, y: nat)
    ensures BitXor(x, y) == BitXor(y, x)
  {
    if x > 0 || y > 0 { XorCommutes(x / 2, y / 2); }
  }

  /** BitXor one digit at a time. */
  lemma XorDigit(x: nat, y: nat)
    ensures BitXor(x, y) / 2 == BitXor(x / 2, y / 2)
    ensures BitXor(x, y) % 2 == if x % 2 != y % 2 then 1 else 0
  {
  }

  lemma {:induction false} XorAssociates(x: nat, y: nat, z: nat)
    ensures BitXor(BitXor(x, y), z) == BitXor(x, BitXor(y, z))
    decreases x + y + z
  {
    if x > 0 || y > 0 || z > 0 {
      hide BitXor;
      XorAssociates(x / 2, y / 2, z / 2);
      XorDigit(x, y);
      XorDigit(BitXor(x, y), z);
      XorDigit(y, z);
      XorDigit(x, BitXor(y, z));
    } else {
      XorZero(0);
    }
  }

  lemma XorLeft(x: nat, y: nat, z: nat)
    ensures BitXor(x, BitXor(y, z)) == BitXor(y, BitXor(x, z))
  {
    hide BitXor;
    XorAssociates(x, y, z);
    XorAssociates(y, x, z);
    XorCommutes(x, y);
  }

  lemma XorDouble(x: nat, y: nat)
    ensures BitXor(2 * x, 2 * y) == 2 * BitXor(x, y)
  {
    assert 2 * x / 2 == x && 2 * y / 2 == y;
  }

  lemma Halved(x: nat, p: nat, y: nat)
    ensures (x + 2 * p * y) / 2 == x / 2 + p * y && (x + 2 * p * y) % 2 == x % 2
  {
    assert 2 * p * y == 2 * (p * y);
  }

  lemma Pow2Next(n: nat)
    ensures Pow2(0) == 1 && Pow2(n + 1) == 2 * Pow2(n)
  {
  }

  /** Words side by side are combined separately. */
  lemma {:induction false} XorSplit(x: nat, y: nat, a: nat, t: nat, n: nat)
    requires x < Pow2(n) && a < Pow2(n)
    ensures BitXor(x + Pow2(n) * y, a + Pow2(n) * t) == BitXor(x, a) + Pow2(n) * BitXor(y, t)
  {
    hide BitXor, Pow2;
    if n == 0 {
      Pow2Next(0);
      XorZero(0);
    } else {
      Pow2Next(n - 1);
      var p := Pow2(n - 1);
      Halved(x, p, y);
      Halved(a, p, t);
      XorSplit(x / 2, y, a / 2, t, n - 1);
      XorDigit(x + 2 * p * y, a + 2 * p * t);
      XorDigit(x, a);
      Halved(BitXor(x, a), p, BitXor(y, t));
    }
  }
}
