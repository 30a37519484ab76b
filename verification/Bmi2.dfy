/** Parallel bit deposit and extract (blink/bmi2.c). */
module Bmi2 {
  import opened Bits

  /** How many of the low n bits of m are set. */
  function Rank(m: nat, n: nat): nat {
    if n == 0 then 0 else Rank(m, n - 1) + if Bit(m, n - 1) then 1 else 0
  }

  function Popcount(m: nat): nat {
    if m == 0 then 0 else Popcount(m / 2) + m % 2
  }

  /** The bits of x, lowest first, go to the set positions of m. */
  function Deposit(x: nat, m: nat): nat {
    if m == 0 then 0
    else if m % 2 == 1 then x % 2 + 2 * Deposit(x / 2, m / 2)
    else 2 * Deposit(x, m / 2)
  }

  /** The bits of x at the set positions of m, packed together. */
  function Extract(x: nat, m: nat): nat {
    if m == 0 then 0
    else if m % 2 == 1 then x % 2 + 2 * Extract(x / 2, m / 2)
    else Extract(x / 2, m / 2)
  }

  // ----- what the two functions mean, bit by bit -----

  lemma {:induction false} RankShift(m: nat, n: nat)
    requires n > 0
    ensures Rank(m, n) == m % 2 + Rank(m / 2, n - 1)
  {
    if n > 1 { RankShift(m, n - 1); }
  }

  /** Bit i of a deposit is set exactly when position i is in the mask and the bit of x with its rank is set. */
  lemma {:induction false} DepositBit(x: nat, m: nat, i: nat)
    ensures Bit(Deposit(x, m), i) <==> Bit(m, i) && Bit(x, Rank(m, i))
  {
    if m == 0 {
      ZeroBits(i);
    } else {
      var d := Deposit(x, m);
      var rest := if m % 2 == 1 then x / 2 else x;
      assert d / 2 == Deposit(rest, m / 2) && (m % 2 == 1 ==> d % 2 == x % 2);
      if i > 0 {
        hide Deposit;
        DepositBit(rest, m / 2, i - 1);
        RankShift(m, i);
      }
    }
  }

  /** Bit Rank(m, i) of an extract is bit i of x, for every position i in the mask. */
  lemma {:induction false} ExtractBit(x: nat, m: nat, i: nat)
    requires Bit(m, i)
    ensures Bit(Extract(x, m), Rank(m, i)) <==> Bit(x, i)
  {
    if m == 0 {
      ZeroBits(i);
    } else {
      var e := Extract(x, m);
      if i > 0 {
        RankShift(m, i);
        ExtractBit(x / 2, m / 2, i - 1);
        if m % 2 == 1 { assert e / 2 == Extract(x / 2, m / 2); }
      }
    }
  }

  // ----- round trips -----

  /** Extracting what was deposited gives x cut to as many bits as the mask has. */
  lemma {:induction false} ExtractDeposit(x: nat, m: nat)
    ensures Extract(Deposit(x, m), m) == x % Pow2(Popcount(m))
  {
    hide Pow2;
    if m == 0 {
      Pow2Next(0);
    } else {
      var x' := if m % 2 == 1 then x / 2 else x;
      ExtractDeposit(x', m / 2);
      Unpack(x, m);
      hide Extract, Deposit;
      if m % 2 == 1 {
        Pow2Next(Popcount(m / 2));
        ModHalf(x, Pow2(Popcount(m / 2)));
      }
    }
  }

  /** One digit of the round trip. */
  lemma Unpack(x: nat, m: nat)
    requires m > 0
    ensures Extract(Deposit(x, m), m) == if m % 2 == 1 then x % 2 + 2 * Extract(Deposit(x / 2, m / 2), m / 2)
            else Extract(Deposit(x, m / 2), m / 2)
  {
    var d := Deposit(x, m);
    assert d / 2 == Deposit(if m % 2 == 1 then x / 2 else x, m / 2) && (m % 2 == 1 ==> d % 2 == x % 2);
  }

  lemma ModHalf(x: nat, p: nat)
    requires p > 0
    ensures x % (2 * p) == x % 2 + 2 * (x / 2 % p)
  {
    var q, r := x / 2 / p, x / 2 % p;
    assert x == 2 * (x / 2) + x % 2 && x / 2 == q * p + r;
    assert x == q * (2 * p) + (x % 2 + 2 * r);
    DivisionUnique(x, 2 * p, q, x % 2 + 2 * r);
  }

  /** Depositing what was extracted gives x restricted to the mask. */
  lemma {:induction false} DepositExtract(x: nat, m: nat)
    ensures Deposit(Extract(x, m), m) == BitAnd(x, m)
  {
    if m == 0 {
      AndZero(x);
    } else {
      DepositExtract(x / 2, m / 2);
      if x == 0 { AndZero(m / 2); }
      if m % 2 == 1 {
        var e := Extract(x, m);
        assert e / 2 == Extract(x / 2, m / 2) && e % 2 == x % 2;
      }
    }
  }

  lemma {:induction false} AndZero(x: nat)
    ensures BitAnd(x, 0) == 0
  {
    if x > 0 { AndZero(x / 2); }
  }

  // ----- the loops -----

  lemma OrNext(r: nat, n: nat)
    requires r < Pow2(n)
    ensures BitOr(r, Pow2(n)) == r + Pow2(n) < Pow2(n + 1)
  {
    OrAdds(r, n);
  }

  method Pdep(x0: nat, mask0: nat) returns (r: nat)
    requires x0 < WORD && mask0 < WORD
    ensures r < WORD && r == Deposit(x0, mask0)
  {
    hide BitOr, Pow2, Deposit;
    Pow2Words();
    Pow2Next(0);
    var x: nat, mask: nat, b: nat := x0, mask0, 1;
    r := 0;
    ghost var i: nat := 0;
    while mask != 0
      invariant i <= 64 && mask < Pow2(64 - i) && r < Pow2(i) && (b == Pow2(i) || (i == 64 && mask == 0))
      invariant r + Pow2(i) * Deposit(x, mask) == Deposit(x0, mask0)
      decreases mask
    {
      Room(i, mask);
      DepositStep(r, i, x, mask);
      OrNext(r, i);
      if mask % 2 == 1 {
        if x % 2 == 1 { r := BitOr(r, b); }
        x := x / 2;
      }
      mask := mask / 2;
      b := 2 * b % WORD;
      i := i + 1;
    }
    DepositEnd(x);
    Pow2Mono(i, 64);
  }

  lemma Room(i: nat, mask: nat)
    requires i <= 64 && 0 < mask < Pow2(64 - i)
    ensures i < 64 && mask / 2 < Pow2(63 - i) && Pow2(i + 1) == 2 * Pow2(i) && Pow2(i) < WORD
    ensures i < 63 ==> 2 * Pow2(i) < WORD
    ensures i == 63 ==> mask / 2 == 0
  {
    Pow2Words();
    Pow2Next(0);
    hide Pow2;
    Pow2Next(if i < 64 then 63 - i else 0);
    Pow2Next(i);
    StrictPow2(i, 64);
    if i == 63 { Pow2Next(0); } else { StrictPow2(i + 1, 64); }
  }

  lemma DepositEnd(x: nat)
    ensures Deposit(x, 0) == 0
  {
  }

  lemma DepositStep(r: nat, i: nat, x: nat, mask: nat)
    requires mask > 0
    ensures var r', x' := if mask % 2 == 1 && x % 2 == 1 then r + Pow2(i) else r, if mask % 2 == 1 then x / 2 else x;
            r + Pow2(i) * Deposit(x, mask) == r' + Pow2(i + 1) * Deposit(x', mask / 2)
  {
    hide Pow2;
    var x' := if mask % 2 == 1 then x / 2 else x;
    var d, low := Deposit(x', mask / 2), if mask % 2 == 1 then x % 2 else 0;
    assert Deposit(x, mask) == low + 2 * d;
    hide Deposit;
    Pow2Next(i);
    Scaled(Pow2(i), low, d);
  }

  lemma Scaled(p: nat, low: nat, d: nat)
    requires low <= 1
    ensures p * (low + 2 * d) == (if low == 1 then p else 0) + 2 * p * d
  {
    assert p * (low + 2 * d) == p * low + p * (2 * d);
    assert 2 * p * d == p * (2 * d);
  }

  method Pext(x0: nat, mask0: nat) returns (r: nat)
    requires x0 < WORD && mask0 < WORD
    ensures r < WORD && r == Extract(x0, mask0)
  {
    hide BitOr, Pow2, Extract;
    Pow2Words();
    Pow2Next(0);
    var x: nat, mask: nat, b: nat := x0, mask0, 1;
    r := 0;
    ghost var i: nat, k: nat := 0, 0;
    while mask != 0
      invariant k <= i <= 64 && mask < Pow2(64 - i) && r < Pow2(k) && (b == Pow2(k) || (k == 64 && mask == 0))
      invariant r + Pow2(k) * Extract(x, mask) == Extract(x0, mask0)
      decreases mask
    {
      Room(i, mask);
      Narrow(i, k);
      ExtractStep(r, k, x, mask);
      OrNext(r, k);
      if mask % 2 == 1 {
        if x % 2 == 1 { r := BitOr(r, b); }
        b := 2 * b % WORD;
        k := k + 1;
      }
      mask := mask / 2;
      x := x / 2;
      i := i + 1;
    }
    ExtractEnd(x);
    Pow2Mono(k, 64);
  }

  lemma Narrow(i: nat, k: nat)
    requires k <= i < 64
    ensures Pow2(k + 1) == 2 * Pow2(k) && Pow2(k) < WORD
    ensures k < 63 ==> 2 * Pow2(k) < WORD
  {
    Pow2Words();
    hide Pow2;
    Pow2Next(k);
    StrictPow2(k, 64);
    if k == 63 { Pow2Next(0); } else { StrictPow2(k + 1, 64); }
  }

  lemma ExtractEnd(x: nat)
    ensures Extract(x, 0) == 0
  {
  }

  lemma ExtractStep(r: nat, k: nat, x: nat, mask: nat)
    requires mask > 0
    ensures var r' := if mask % 2 == 1 && x % 2 == 1 then r + Pow2(k) else r;
            r + Pow2(k) * Extract(x, mask) == r' + Pow2(if mask % 2 == 1 then k + 1 else k) * Extract(x / 2, mask / 2)
  {
    hide Pow2;
    if mask % 2 == 1 {
      var e := Extract(x / 2, mask / 2);
      assert Extract(x, mask) == x % 2 + 2 * e;
      hide Extract;
      Pow2Next(k);
      Scaled(Pow2(k), x % 2, e);
    }
  }
}
