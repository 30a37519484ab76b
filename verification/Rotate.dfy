/** Rotates through carry (blink/alu.c). The carry and a k-bit value form a ring of k + 1 bits. */
module Rotate {
  import opened Bits
  import opened Flags

  /** The ring: k value bits, and the carry at position k. */
  datatype Ring = Ring(x: nat, carry: bool)

  function Left1(k: nat, r: Ring): Ring
    requires k > 0
  {
    Ring((2 * r.x + Int(r.carry)) % Pow2(k), Bit(r.x, k - 1))
  }

  function Right1(k: nat, r: Ring): Ring
    requires k > 0
  {
    Ring(r.x / 2 + Int(r.carry) * Pow2(k - 1), Bit(r.x, 0))
  }

  function Left(k: nat, r: Ring, n: nat): Ring
    requires k > 0
  {
    if n == 0 then r else Left1(k, Left(k, r, n - 1))
  }

  function Right(k: nat, r: Ring, n: nat): Ring
    requires k > 0
    decreases n
  {
    if n == 0 then r else Right(k, Right1(k, r), n - 1)
  }

  // ----- the ring bit by bit -----

  predicate At(k: nat, r: Ring, i: nat) {
    if i == k then r.carry else Bit(r.x, i)
  }

  /** Where the bit at i was n left turns ago. */
  function Source(k: nat, n: nat, i: nat): nat
    requires n <= k + 1 && i <= k
  {
    if i >= n then i - n else i + (k + 1) - n
  }

  predicate Fits(k: nat, r: Ring) {
    r.x < Pow2(k)
  }

  lemma ModBit(v: nat, n: nat, i: nat)
    requires i < n
    ensures Bit(v % Pow2(n), i) <==> Bit(v, i)
  {
    hide Bit, Pow2;
    DivMod(v, Pow2(n));
    AppendBit(v % Pow2(n), n, v / Pow2(n), i);
  }

  lemma DivMod(v: nat, p: nat)
    requires p > 0
    ensures v == v % p + p * (v / p) && v % p < p
  {
  }

  lemma DoubleBit(x: nat, c: bool, i: nat)
    ensures Bit(2 * x + Int(c), i) <==> if i == 0 then c else Bit(x, i - 1)
  {
    assert (2 * x + Int(c)) / 2 == x;
  }

  lemma Left1At(k: nat, r: Ring, i: nat)
    requires k > 0 && i <= k
    ensures Fits(k, Left1(k, r)) && (At(k, Left1(k, r), i) <==> At(k, r, Source(k, 1, i)))
  {
    hide Bit, Pow2;
    DivMod(2 * r.x + Int(r.carry), Pow2(k));
    if i < k {
      ModBit(2 * r.x + Int(r.carry), k, i);
      DoubleBit(r.x, r.carry, i);
    }
  }

  lemma {:induction false} LeftAt(k: nat, r: Ring, n: nat, i: nat)
    requires k > 0 && n <= k + 1 && i <= k && Fits(k, r)
    ensures Fits(k, Left(k, r, n)) && (At(k, Left(k, r, n), i) <==> At(k, r, Source(k, n, i)))
  {
    hide Left1, At, Fits;
    if n > 0 {
      Left1At(k, Left(k, r, n - 1), i);
      LeftAt(k, r, n - 1, Source(k, 1, i));
    }
  }

  /** Rings with the same bits are the same. */
  lemma SameRing(k: nat, p: Ring, q: Ring)
    requires Fits(k, p) && Fits(k, q) && forall i: nat :: i <= k ==> (At(k, p, i) <==> At(k, q, i))
    ensures p == q
  {
    assert At(k, p, k) <==> At(k, q, k);
    forall i: nat | i < k ensures Bit(p.x, i) <==> Bit(q.x, i) { assert At(k, p, i) <==> At(k, q, i); }
    SameBits(p.x, q.x, k);
  }

  // ----- turning back, and turning all the way round -----

  lemma RightUndoesLeft1(k: nat, r: Ring)
    requires k > 0 && Fits(k, r)
    ensures Right1(k, Left1(k, r)) == r
  {
    hide Bit;
    var p, c := Pow2(k - 1), Bit(r.x, k - 1);
    HighHalf(r.x, k);
    var low := if c then r.x - p else r.x;
    DivisionUnique(2 * r.x + Int(r.carry), Pow2(k), Int(c), 2 * low + Int(r.carry));
    DoubleBit(low, r.carry, 0);
  }

  lemma HighHalf(x: nat, k: nat)
    requires k > 0 && x < Pow2(k)
    ensures Pow2(k) == 2 * Pow2(k - 1) && (Bit(x, k - 1) <==> x >= Pow2(k - 1))
  {
    hide Bit;
    var p := Pow2(k - 1);
    if x >= p {
      AppendBit(x - p, k - 1, 1, k - 1);
      OneBit();
    } else {
      HighBits(x, k - 1, k - 1);
    }
  }

  /** Turning right undoes turning left. */
  lemma {:induction false} RightUndoesLeft(k: nat, r: Ring, n: nat)
    requires k > 0 && Fits(k, r)
    ensures Right(k, Left(k, r, n), n) == r
  {
    hide Left1, Right1, Fits;
    if n > 0 {
      LeftFits(k, r, n - 1);
      RightUndoesLeft1(k, Left(k, r, n - 1));
      RightUndoesLeft(k, r, n - 1);
    }
  }

  lemma {:induction false} LeftFits(k: nat, r: Ring, n: nat)
    requires k > 0 && Fits(k, r)
    ensures Fits(k, Left(k, r, n))
  {
    hide Left1, Fits;
    if n > 0 { Left1At(k, Left(k, r, n - 1), 0); }
  }

  /** k + 1 turns are none. */
  lemma FullTurn(k: nat, r: Ring)
    requires k > 0 && Fits(k, r)
    ensures Left(k, r, k + 1) == r
  {
    hide Left, At, Fits;
    LeftAt(k, r, k + 1, 0);
    forall i: nat | i <= k ensures At(k, Left(k, r, k + 1), i) <==> At(k, r, i) { LeftAt(k, r, k + 1, i); }
    SameRing(k, Left(k, r, k + 1), r);
  }

  lemma {:induction false} LeftAdd(k: nat, r: Ring, m: nat, n: nat)
    requires k > 0
    ensures Left(k, r, m + n) == Left(k, Left(k, r, m), n)
  {
    hide Left1;
    if n > 0 { LeftAdd(k, r, m, n - 1); }
  }

  /** So turning by n is turning by n reduced modulo k + 1. */
  lemma {:induction false} LeftReduced(k: nat, r: Ring, n: nat, q: nat)
    requires k > 0 && Fits(k, r)
    ensures Left(k, r, n + q * (k + 1)) == Left(k, r, n)
  {
    hide Left, Fits;
    if q > 0 {
      assert n + q * (k + 1) == (n + (q - 1) * (k + 1)) + (k + 1);
      var m := n + (q - 1) * (k + 1);
      LeftAdd(k, r, m, k + 1);
      LeftFits(k, r, m);
      FullTurn(k, Left(k, r, m));
      LeftReduced(k, r, n, q - 1);
    }
  }

  /** Turning right by n is turning left by the rest of the circle. */
  lemma RightIsLeft(k: nat, r: Ring, n: nat)
    requires k > 0 && n <= k + 1 && Fits(k, r)
    ensures Right(k, r, n) == Left(k, r, k + 1 - n)
  {
    hide Left, Right, Fits;
    var l := Left(k, r, k + 1 - n);
    LeftAdd(k, r, k + 1 - n, n);
    FullTurn(k, r);
    LeftFits(k, r, k + 1 - n);
    RightUndoesLeft(k, l, n);
  }

  lemma {:induction false} RightAdd(k: nat, r: Ring, m: nat, n: nat)
    requires k > 0
    ensures Right(k, r, m + n) == Right(k, Right(k, r, m), n)
    decreases m
  {
    hide Right1;
    if m > 0 { RightAdd(k, Right1(k, r), m - 1, n); }
  }

  lemma {:induction false} RightReduced(k: nat, r: Ring, n: nat, q: nat)
    requires k > 0 && Fits(k, r)
    ensures Right(k, r, n + q * (k + 1)) == Right(k, r, n)
  {
    hide Left, Right, Fits;
    if q > 0 {
      assert n + q * (k + 1) == (k + 1) + (n + (q - 1) * (k + 1));
      RightAdd(k, r, k + 1, n + (q - 1) * (k + 1));
      RightIsLeft(k, r, k + 1);
      NoTurn(k, r);
      RightReduced(k, r, n, q - 1);
    }
  }

  lemma NoTurn(k: nat, r: Ring)
    requires k > 0
    ensures Left(k, r, 0) == r && Right(k, r, 0) == r
  {
  }

  // ----- the shifts and ors that turn the ring in one go -----

  /** x << s on 64 bits. */
  function Shl(x: nat, s: nat): nat {
    x * Pow2(s) % WORD
  }

  lemma ShlWordBit(x: nat, s: nat, i: nat)
    requires i < 64
    ensures Bit(Shl(x, s), i) <==> i >= s && Bit(x, i - s)
  {
    hide Bit, Pow2;
    Pow2Words();
    ModBit(x * Pow2(s), 64, i);
    ShlBit(x, s, i);
  }

  function RclValue(k: nat, r: Ring, y: nat): nat
    requires 1 <= y <= k
  {
    if y == 1 then BitOr(Shl(r.x, 1), Int(r.carry)) % Pow2(k)
    else BitOr(BitOr(Shl(r.x, y), Shl(Int(r.carry), y - 1)), Shr(r.x, k + 1 - y)) % Pow2(k)
  }

  function RcrValue(k: nat, r: Ring, y: nat): nat
    requires 1 <= y <= k
  {
    if y == 1 then BitOr(Shr(r.x, 1), Shl(Int(r.carry), k - 1)) % Pow2(k)
    else BitOr(BitOr(Shr(r.x, y), Shl(Int(r.carry), k - y)), Shl(r.x, k + 1 - y)) % Pow2(k)
  }

  lemma IntBit(c: bool, i: nat)
    ensures Bit(Int(c), i) <==> c && i == 0
  {
    if i > 0 { ZeroBits(i - 1); }
  }

  /** Three words ored together. */
  lemma Or3Bit(a: nat, b: nat, c: nat, n: nat, i: nat)
    requires i < n
    ensures Bit(BitOr(BitOr(a, b), c) % Pow2(n), i) <==> Bit(a, i) || Bit(b, i) || Bit(c, i)
  {
    hide Bit, BitOr, Pow2;
    ModBit(BitOr(BitOr(a, b), c), n, i);
    OrBit(BitOr(a, b), c, i);
    OrBit(a, b, i);
  }

  lemma Or2Bit(a: nat, b: nat, n: nat, i: nat)
    requires i < n
    ensures Bit(BitOr(a, b) % Pow2(n), i) <==> Bit(a, i) || Bit(b, i)
  {
    hide Bit, BitOr, Pow2;
    ModBit(BitOr(a, b), n, i);
    OrBit(a, b, i);
  }

  lemma NoBit(k: nat, r: Ring, i: nat)
    requires Fits(k, r) && i >= k
    ensures !Bit(r.x, i)
  {
    HighBits(r.x, k, i);
  }

  lemma RclBit(k: nat, r: Ring, y: nat, i: nat)
    requires 1 <= y <= k <= 64 && y < 64 && i < k && Fits(k, r)
    ensures Bit(RclValue(k, r, y), i) <==> At(k, r, Source(k, y, i))
  {
    hide Bit, BitOr, Pow2, Shl, Shr, Fits, Int;
    ShlWordBit(r.x, y, i);
    if y == 1 {
      Or2Bit(Shl(r.x, 1), Int(r.carry), k, i);
      IntBit(r.carry, i);
    } else {
      Or3Bit(Shl(r.x, y), Shl(Int(r.carry), y - 1), Shr(r.x, k + 1 - y), k, i);
      ShlWordBit(Int(r.carry), y - 1, i);
      if i >= y - 1 { IntBit(r.carry, i - (y - 1)); }
      ShrBit(r.x, k + 1 - y, i);
      if i >= y - 1 { NoBit(k, r, i + (k + 1 - y)); }
    }
  }

  lemma RcrBit(k: nat, r: Ring, y: nat, i: nat)
    requires 1 <= y <= k <= 64 && y < 64 && i < k && Fits(k, r)
    ensures Bit(RcrValue(k, r, y), i) <==> At(k, r, Source(k, k + 1 - y, i))
  {
    hide Bit, BitOr, Pow2, Shl, Shr, Fits, Int;
    ShrBit(r.x, y, i);
    if i + y >= k { NoBit(k, r, i + y); }
    ShlWordBit(Int(r.carry), k - y, i);
    if i >= k - y { IntBit(r.carry, i - (k - y)); }
    if y == 1 {
      Or2Bit(Shr(r.x, 1), Shl(Int(r.carry), k - 1), k, i);
    } else {
      Or3Bit(Shr(r.x, y), Shl(Int(r.carry), k - y), Shl(r.x, k + 1 - y), k, i);
      ShlWordBit(r.x, k + 1 - y, i);
    }
  }

  lemma ModFits(v: nat, k: nat, c: bool)
    ensures Fits(k, Ring(v % Pow2(k), c))
  {
  }

  /** The expression for RCL is y one-bit turns to the left. */
  lemma RclTurns(k: nat, r: Ring, y: nat)
    requires 1 <= y <= k <= 64 && y < 64 && Fits(k, r)
    ensures Ring(RclValue(k, r, y), Bit(r.x, k - y)) == Left(k, r, y)
  {
    hide Bit, BitOr, Pow2, Shl, Shr, Fits, Left;
    var q := Ring(RclValue(k, r, y), Bit(r.x, k - y));
    LeftAt(k, r, y, 0);
    ModFits(BitOr(Shl(r.x, 1), Int(r.carry)), k, q.carry);
    ModFits(BitOr(BitOr(Shl(r.x, y), Shl(Int(r.carry), y - 1)), Shr(r.x, k + 1 - y)), k, q.carry);
    forall i: nat | i <= k ensures At(k, q, i) <==> At(k, Left(k, r, y), i) {
      LeftAt(k, r, y, i);
      if i < k { RclBit(k, r, y, i); }
    }
    hide At, RclValue;
    SameRing(k, q, Left(k, r, y));
  }

  /** The expression for RCR is y one-bit turns to the right. */
  lemma RcrTurns(k: nat, r: Ring, y: nat)
    requires 1 <= y <= k <= 64 && y < 64 && Fits(k, r)
    ensures Ring(RcrValue(k, r, y), Bit(r.x, y - 1)) == Right(k, r, y)
  {
    hide Bit, BitOr, Pow2, Shl, Shr, Fits, Left, Right;
    var q, n := Ring(RcrValue(k, r, y), Bit(r.x, y - 1)), k + 1 - y;
    RightIsLeft(k, r, y);
    LeftAt(k, r, n, 0);
    ModFits(BitOr(Shr(r.x, 1), Shl(Int(r.carry), k - 1)), k, q.carry);
    ModFits(BitOr(BitOr(Shr(r.x, y), Shl(Int(r.carry), k - y)), Shl(r.x, k + 1 - y)), k, q.carry);
    forall i: nat | i <= k ensures At(k, q, i) <==> At(k, Left(k, r, n), i) {
      LeftAt(k, r, n, i);
      if i < k { RcrBit(k, r, y, i); }
    }
    hide At, RcrValue;
    SameRing(k, q, Left(k, r, n));
  }

  // ----- the instructions -----

  /** The masked count, and what it is reduced to for the narrow widths. */
  function Count(k: nat, y: nat): nat {
    if k == 64 then y % 64 else y % 32
  }

  function Reduced(k: nat, y: nat): nat {
    if k == 8 then Count(k, y) % 9 else if k == 16 then Count(k, y) % 17 else Count(k, y)
  }

  predicate IsWidth(k: nat) {
    k == 8 || k == 16 || k == 32 || k == 64
  }

  /** Reducing the count does not change where the ring ends up. */
  lemma ReducedTurns(k: nat, r: Ring, y: nat)
    requires IsWidth(k) && Fits(k, r)
    ensures Reduced(k, y) <= k && Reduced(k, y) < 64
    ensures Left(k, r, Reduced(k, y)) == Left(k, r, Count(k, y)) &&
            Right(k, r, Reduced(k, y)) == Right(k, r, Count(k, y))
  {
    hide Fits, Left, Right;
    var n := Count(k, y);
    if k == 8 || k == 16 {
      LeftReduced(k, r, n % (k + 1), n / (k + 1));
      RightReduced(k, r, n % (k + 1), n / (k + 1));
    }
  }

  lemma WholeTurns(k: nat, y: nat)
    requires IsWidth(k)
    ensures Reduced(k, y) == 0 <==> (if k == 64 then y % 64 else y % 32) % (k + 1) == 0
  {
  }

  class Machine {
    var flags: Flags

    /** RotateFlags: only CF and OF change. */
    method RotateFlags(cf: bool, of: bool)
      modifies this
      ensures flags == old(flags).(cf := cf, of := of)
    {
      flags := flags.(cf := cf, of := of);
    }

    /** Rcl8 .. Rcl64: the value and CF are turned left as often as the masked count says; OF is set exactly when the
        new CF and the new top bit differ, and stays as it was for a count that is a whole number of turns. */
    method Rcl(k: nat, x0: nat, y0: nat) returns (z: nat)
      requires IsWidth(k)
      modifies this
      ensures var r, n := Ring(x0 % Pow2(k), old(flags.cf)), if k == 64 then y0 % 64 else y0 % 32;
              && Ring(z, flags.cf) == Left(k, r, n)
              && flags == old(flags).(cf := flags.cf, of := if n % (k + 1) == 0 then old(flags.of)
                  else flags.cf != Bit(z, k - 1))
    {
      hide Bit, Pow2, Left, Right, Fits, RclValue;
      var x, y := x0 % Pow2(k), Reduced(k, y0);
      ghost var r := Ring(x, flags.cf);
      ModFits(x0, k, flags.cf);
      ReducedTurns(k, r, y0);
      WholeTurns(k, y0);
      NoTurn(k, r);
      if y == 0 { return x; }
      var ct := Bit(x, k - y);
      z := RclValue(k, Ring(x, flags.cf), y);
      RclTurns(k, r, y);
      RotateFlags(ct, ct != Bit(z, k - 1));
    }

    /** Rcr8 .. Rcr64: the same to the right; OF is set exactly when the two top bits of the result differ. */
    method Rcr(k: nat, x0: nat, y0: nat) returns (z: nat)
      requires IsWidth(k)
      modifies this
      ensures var r, n := Ring(x0 % Pow2(k), old(flags.cf)), if k == 64 then y0 % 64 else y0 % 32;
              && Ring(z, flags.cf) == Right(k, r, n)
              && flags == old(flags).(cf := flags.cf, of := if n % (k + 1) == 0 then old(flags.of)
                  else Bit(z, k - 2) != Bit(z, k - 1))
    {
      hide Bit, Pow2, Left, Right, Fits, RcrValue;
      var x, y := x0 % Pow2(k), Reduced(k, y0);
      ghost var r := Ring(x, flags.cf);
      ModFits(x0, k, flags.cf);
      ReducedTurns(k, r, y0);
      WholeTurns(k, y0);
      NoTurn(k, r);
      if y == 0 { return x; }
      var ct := Bit(x, y - 1);
      z := RcrValue(k, Ring(x, flags.cf), y);
      RcrTurns(k, r, y);
      RotateFlags(ct, Bit(BitXor(Shl(z, 1), z), k - 1));
      TopTwo(k, z);
    }
  }

  lemma TopTwo(k: nat, z: nat)
    requires IsWidth(k)
    ensures Bit(BitXor(Shl(z, 1), z), k - 1) <==> Bit(z, k - 2) != Bit(z, k - 1)
  {
    hide Bit, BitXor, Shl;
    XorBit(Shl(z, 1), z, k - 1);
    ShlWordBit(z, 1, k - 1);
  }
}
