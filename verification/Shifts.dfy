/** SHL, SHR and SAR (blink/alu.c): one C expression each, at four widths. The specification shifts by one place at a
    time, as often as the masked count says. */
module Shifts {
  import opened Bits
  import opened Flags
  import opened Alu
  import opened AluLaws

  datatype ShiftOp = ShiftLeft | ShiftRight | ShiftSigned

  /** A word and the bit last pushed out of it. */
  datatype Cell = Cell(x: nat, out: bool)

  /** One place; the sign bit stays where it is in ShiftSigned. */
  function Once(op: ShiftOp, m: int, x: nat): Cell
    requires IsModulus(m) && x < m
  {
    match op
    case ShiftLeft => Cell(2 * x % m, 2 * x >= m)
    case ShiftRight => Cell(x / 2, x % 2 == 1)
    case ShiftSigned => Cell(x / 2 + (if 2 * x >= m then m / 2 else 0), x % 2 == 1)
  }

  function Times(op: ShiftOp, m: int, x: nat, n: nat): (r: Cell)
    requires IsModulus(m) && x < m
    ensures r.x < m
  {
    if n == 0 then Cell(x, false) else Once(op, m, Times(op, m, x, n - 1).x)
  }

  /** A zero count leaves every flag alone. OF is what x86 defines for a count of one: SHL changed the sign, SHR dropped
      it, SAR never does. */
  function Shifted(op: ShiftOp, w: Width, f: Flags, x64: u64, y: u64): Outcome {
    var m, x, c := w.Mod(), x64 % w.Mod(), if w.W64? then y % 64 else y % 32;
    if c == 0 then Outcome(x, f)
    else
      var r := Times(op, m, x, c);
      var of :=
        match op
        case ShiftLeft => (2 * r.x >= m) != r.out
        case ShiftRight => c == 1 && 2 * x >= m
        case ShiftSigned => false;
      Outcome(r.x, Flags(r.out, false, r.x == 0, 2 * r.x >= m, of, r.x % 256))
  }

  // ----- left -----

  lemma TopIsBit(y: nat, k: nat)
    requires k >= 1 && y < Pow2(k)
    ensures Bit(y, k - 1) <==> 2 * y >= Pow2(k)
  {
    var h := Pow2(k - 1);
    var q, r := y / h, y % h;
    assert y == r + h * q && q < 2 && r < h by { SplitAt(y, h); Halves(y, h); }
    hide Pow2;
    AppendBit(r, k - 1, q, k - 1);
    Pow2Next(k - 1);
  }

  lemma Halves(y: nat, h: nat)
    requires h > 0 && y < 2 * h
    ensures y / h < 2
  {
  }

  lemma {:induction false} LeftTimes(m: int, x: nat, n: nat)
    requires IsModulus(m) && x < m
    ensures Times(ShiftLeft, m, x, n).x == x * Pow2(n) % m
    decreases n
  {
    hide IsModulus, Pow2;
    if n == 0 {
      SmallMod(x, m);
      NoShift(x);
    } else {
      LeftTimes(m, x, n - 1);
      OneMore(x, n - 1);
      DoubleMod(x * Pow2(n - 1), m);
    }
  }

  lemma NoShift(x: nat)
    ensures x * Pow2(0) == x
  {
  }

  lemma OneMore(x: nat, n: nat)
    ensures x * Pow2(n + 1) == 2 * (x * Pow2(n))
  {
  }

  lemma SmallMod(x: nat, m: int)
    requires x < m
    ensures x % m == x
  {
  }

  lemma DoubleMod(p: nat, m: int)
    requires m > 0
    ensures 2 * (p % m) % m == 2 * p % m
  {
    var q := p / m;
    assert 2 * p == 2 * (p % m) + (2 * q) * m;
    ModShift(2 * (p % m), 2 * q, m);
  }

  /** The bit last pushed out on the left is bit k - n of the operand, if it has one. */
  lemma LeftOut(w: Width, x: nat, n: nat)
    requires x < w.Mod() && n >= 1
    ensures Times(ShiftLeft, w.Mod(), x, n).out <==> n <= Bitsize(w) && Bit(x, Bitsize(w) - n)
  {
    hide Bit, Pow2, Width.Mod, Bitsize, Once;
    Moduli(w);
    LeftTimes(w.Mod(), x, n - 1);
    OutIsTop(w.Mod(), Times(ShiftLeft, w.Mod(), x, n - 1).x);
    TopOfProduct(x, n - 1, Bitsize(w));
  }

  lemma OutIsTop(m: int, y: nat)
    requires IsModulus(m) && y < m
    ensures Once(ShiftLeft, m, y).out <==> 2 * y >= m
  {
  }

  lemma TopOfProduct(x: nat, n: nat, k: nat)
    requires k >= 1
    ensures 2 * (x * Pow2(n) % Pow2(k)) >= Pow2(k) <==> n < k && Bit(x, k - 1 - n)
  {
    hide Bit, Pow2;
    var v := x * Pow2(n);
    SplitAt(v, Pow2(k));
    TopIsBit(v % Pow2(k), k);
    LowBits(v, k, k - 1);
    ShlBit(x, n, k - 1);
  }

  /** What the C expression shifts out: it masks its own count, and reads zero where that is past the operand. */
  lemma LeftCarry(w: Width, x: nat, n: nat)
    requires x < w.Mod() && 1 <= n < if w.W64? then 64 else 32
    ensures var s := (Bitsize(w) - n) % if w.W64? then 64 else 32;
            Shr(x, s) % 2 == 1 <==> n <= Bitsize(w) && Bit(x, Bitsize(w) - n)
  {
    var k := Bitsize(w);
    var s := (k - n) % if w.W64? then 64 else 32;
    Moduli(w);
    hide Pow2;
    ShrBit(x, s, 0);
    assert n <= k ==> s == k - n;
    if n > k { HighBits(x, k, s); }
  }

  /** Cutting to 32 or 64 bits first changes nothing. */
  lemma LeftValue(w: Width, x: nat, n: nat)
    requires x < w.Mod()
    ensures (x * Pow2(n) % if w.W64? then WORD else DWORD) % w.Mod() == x * Pow2(n) % w.Mod()
  {
    hide Pow2;
    var v, big := x * Pow2(n), if w.W64? then WORD else DWORD;
    var j := match w case W8 => 0x100_0000 case W16 => 0x1_0000 case W32 => 1 case W64 => 1;
    assert j * w.Mod() == big;
    var q := v / big;
    assert v == v % big + q * big;
    assert q * (j * w.Mod()) == (q * j) * w.Mod();
    ModShift(v % big, q * j, w.Mod());
  }

  // ----- right -----

  lemma {:induction false} RightTimes(m: int, x: nat, n: nat)
    requires IsModulus(m) && x < m
    ensures Times(ShiftRight, m, x, n).x == Shr(x, n)
    decreases n
  {
    if n > 0 {
      RightTimes(m, x, n - 1);
      ShrNext(x, n - 1);
    }
  }

  lemma {:induction false} ShrNext(x: nat, n: nat)
    ensures Shr(x, n + 1) == Shr(x, n) / 2
  {
    if n > 0 { ShrNext(x / 2, n - 1); }
  }

  lemma {:induction false} ShrHalf(x: nat, n: nat)
    requires n >= 1
    ensures Shr(x, n) <= x / 2
    decreases n
  {
    if n > 1 { ShrHalf(x / 2, n - 1); }
  }

  /** The exclusive or of the two top bits of the result: the top bit is clear, and the one below it came from the
      sign. */
  lemma RightOverflow(w: Width, x: nat, n: nat)
    requires x < w.Mod() && n >= 1
    ensures var k, z := Bitsize(w), Shr(x, n); Bit(BitXor(2 * z, z), k - 1) <==> n == 1 && 2 * x >= w.Mod()
  {
    var k, z := Bitsize(w), Shr(x, n);
    Moduli(w);
    ShrHalf(x, n);
    assert Bit(2 * z, k - 1) == Bit(z, k - 2) by { assert 2 * z / 2 == z; }
    hide Bit, BitXor, Pow2, Shr;
    XorBit(2 * z, z, k - 1);
    TopIsBit(z, k);
    ShrBit(x, n, k - 2);
    if n > 1 { HighBits(x, k, k - 2 + n); } else { TopIsBit(x, k); }
  }

  // ----- signed right -----

  lemma {:induction false} SignedTimes(m: int, x: nat, n: nat)
    requires IsModulus(m) && x < m
    ensures TwosComplement(m, Times(ShiftSigned, m, x, n).x) == TwosComplement(m, x) / Pow2(n)
    decreases n
  {
    if n > 0 {
      SignedTimes(m, x, n - 1);
      hide IsModulus;
      var v, p := TwosComplement(m, x), Pow2(n - 1);
      SignedOnce(m, Times(ShiftSigned, m, x, n - 1).x);
      FloorTwice(v, p);
    }
  }

  lemma SignedOnce(m: int, x: nat)
    requires IsModulus(m) && x < m
    ensures TwosComplement(m, Once(ShiftSigned, m, x).x) == TwosComplement(m, x) / 2
  {
  }

  lemma FloorTwice(v: int, p: nat)
    requires p >= 1
    ensures v / p / 2 == v / (2 * p)
  {
    var a, b := v / p, v / p / 2;
    var r, s := v % p, (v / p) % 2;
    assert v == p * a + r && a == 2 * b + s;
    assert p * (2 * b) == b * (2 * p);
    assert 0 <= p * s + r < 2 * p;
    assert v == b * (2 * p) + (p * s + r);
    DivisionUnique(v, 2 * p, b, p * s + r);
  }

  lemma SignedMod(m: int, z: nat)
    requires IsModulus(m) && z < m
    ensures TwosComplement(m, z) % m == z && TwosComplement(m, z) % 2 == z % 2
  {
  }

  class Machine {
    var flags: Flags

    /** Shl8 .. Shl64 */
    method DoShl(w: Width, x64: u64, y64: u64) returns (z: u64)
      modifies this
      ensures Outcome(z, flags) == Shifted(ShiftLeft, w, old(flags), x64, y64)
    {
      hide Width.Mod, Bitsize, Pow2, Shr, Bit, Times;
      var m, k, x := w.Mod(), Bitsize(w), x64 % w.Mod();
      var y := if w.W64? then y64 % 64 else y64 % 32;
      WordFits(m, x64);
      if y == 0 { return x; }
      var cf := Shr(x, (k - y) % if w.W64? then 64 else 32) % 2 == 1;
      LeftValue(w, x, y);
      LeftCarry(w, x, y);
      LeftOut(w, x, y);
      LeftTimes(m, x, y);
      TimesBound(ShiftLeft, m, x, y);
      z := (x * Pow2(y) % if w.W64? then WORD else DWORD) % m;
      flags := Flags(cf, false, z == 0, Top(m, z), Top(m, z) != cf, z % 256);
    }

    /** Shr8 .. Shr64 */
    method DoShr(w: Width, x64: u64, y64: u64) returns (z: u64)
      modifies this
      ensures Outcome(z, flags) == Shifted(ShiftRight, w, old(flags), x64, y64)
    {
      hide Width.Mod, Bitsize, Pow2, Shr, Bit, BitXor, Times;
      var m, k, x := w.Mod(), Bitsize(w), x64 % w.Mod();
      var y := if w.W64? then y64 % 64 else y64 % 32;
      WordFits(m, x64);
      Moduli(w);
      if y == 0 { return x; }
      var cf := Shr(x, y - 1) % 2 == 1;
      RightTimes(m, x, y);
      TimesBound(ShiftRight, m, x, y);
      RightOut(m, x, y);
      z := Shr(x, y);
      RightOverflow(w, x, y);
      flags := Flags(cf, false, z == 0, Top(m, z), Bit(BitXor(2 * z, z), k - 1), z % 256);
    }

    /** Sar8 .. Sar64: the sign-extended word, shifted. */
    method DoSar(w: Width, x64: u64, y64: u64) returns (z: u64)
      modifies this
      ensures Outcome(z, flags) == Shifted(ShiftSigned, w, old(flags), x64, y64)
    {
      hide Width.Mod, Pow2, Times, Signed, TwosComplement;
      var m, x := w.Mod(), x64 % w.Mod();
      var y := if w.W64? then y64 % 64 else y64 % 32;
      WordFits(m, x64);
      if y == 0 { return x; }
      var cf := Signed(m, x) / Pow2(y - 1) % 2 == 1;
      SignedIs(m, x);
      SignedOut(m, x, y);
      SignedTimes(m, x, y);
      TimesBound(ShiftSigned, m, x, y);
      SignedMod(m, Times(ShiftSigned, m, x, y).x);
      z := Signed(m, x) / Pow2(y) % m;
      flags := Flags(cf, false, z == 0, Top(m, z), false, z % 256);
    }
  }

  lemma WordFits(m: int, x: u64)
    requires IsModulus(m)
    ensures 0 <= x % m < m && x % m < WORD && m <= WORD
  {
  }

  lemma TimesBound(op: ShiftOp, m: int, x: nat, n: nat)
    requires IsModulus(m) && x < m
    ensures Times(op, m, x, n).x < m
  {
  }

  lemma SignedIs(m: int, x: int)
    ensures Signed(m, x) == TwosComplement(m, x)
  {
  }

  lemma RightOut(m: int, x: nat, n: nat)
    requires IsModulus(m) && x < m && n >= 1
    ensures Times(ShiftRight, m, x, n).out <==> Shr(x, n - 1) % 2 == 1
  {
    RightTimes(m, x, n - 1);
  }

  lemma SignedOut(m: int, x: nat, n: nat)
    requires IsModulus(m) && x < m && n >= 1
    ensures Times(ShiftSigned, m, x, n).out <==> TwosComplement(m, x) / Pow2(n - 1) % 2 == 1
  {
    hide TwosComplement;
    SignedTimes(m, x, n - 1);
    SignedMod(m, Times(ShiftSigned, m, x, n - 1).x);
  }
}
