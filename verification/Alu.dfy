/** Integer ALU (blink/alu.c, blink/uop.c). `AluSpec` says what each operation means in terms of integers:
    carries, borrows and signed ranges. The class `Machine` computes the same results the way the C code
    does, by comparing truncated words and mixing sign bits, and is proved equal to the specification. */
module Alu {
  import opened Bits
  import opened Flags

  datatype Width = W8 | W16 | W32 | W64 {
    /** 2^w */
    function Mod(): (m: int)
      ensures IsModulus(m)
    {
      match this
      case W8 => 0x100
      case W16 => 0x1_0000
      case W32 => 0x1_0000_0000
      case W64 => 0x1_0000_0000_0000_0000
    }
  }

  predicate IsModulus(m: int) {
    m == 0x100 || m == 0x1_0000 || m == 0x1_0000_0000 || m == 0x1_0000_0000_0000_0000
  }

  function Bitsize(w: Width): nat {
    match w
    case W8 => 8
    case W16 => 16
    case W32 => 32
    case W64 => 64
  }

  /** The rows of kAlu; CMP shares SUB's. */
  datatype AluOp = Add | Or | Adc | Sbb | And | Sub | Xor | Cmp | Not | Neg | Inc | Dec

  datatype Outcome = Outcome(value: u64, flags: Flags)

  /** x & 15 */
  function Nibble(x: int): (r: int)
    ensures 0 <= r < 16
  {
    x % 16
  }

  /** Two's complement reading of a word below m. */
  function Signed(m: int, x: int): int {
    if Top(m, x) then x - m else x
  }

  predicate FitsSigned(m: int, v: int) {
    -m <= 2 * v < m
  }

  /** The sign bit. */
  predicate Top(m: int, x: int) {
    2 * x >= m
  }

  /** Reduction modulo m of a sum or difference of two words and a carry. */
  function Reduce(m: int, v: int): (r: int)
    requires -m <= v < 2 * m
    ensures 0 <= r < m
  {
    if v < 0 then v + m else if v >= m then v - m else v
  }

  function Trunc(m: int, x: int): (r: int)
    requires IsModulus(m)
    ensures 0 <= r < m
    ensures 0 <= x < m ==> r == x
  {
    if 0 <= x < m then x else x % m
  }

  /** Flags for the result z: ZF, SF and the lazy parity byte follow from z. */
  function Stamp(m: int, z: nat, af: bool, of: bool, cf: bool): Flags {
    Flags(cf, af, z == 0, Top(m, z), of, z % 256)
  }

  function Carry(f: Flags): int {
    if f.cf then 1 else 0
  }

  /** Addition with carry in c. */
  function AddSpec(m: int, x: int, y: int, c: int): Outcome
    requires IsModulus(m) && 0 <= x < m && 0 <= y < m && 0 <= c <= 1
  {
    var z := Reduce(m, x + y + c);
    Outcome(z, Stamp(m, z, Nibble(x) + Nibble(y) + c >= 16, !FitsSigned(m, Signed(m, x) + Signed(m, y) + c),
        x + y + c >= m))
  }

  /** Subtraction with borrow in c. */
  function SubSpec(m: int, x: int, y: int, c: int): Outcome
    requires IsModulus(m) && 0 <= x < m && 0 <= y < m && 0 <= c <= 1
  {
    var z := Reduce(m, x - y - c);
    Outcome(z, Stamp(m, z, Nibble(x) - Nibble(y) - c < 0, !FitsSigned(m, Signed(m, x) - Signed(m, y) - c),
        x - y - c < 0))
  }

  lemma BitwiseBounds(x: u64, y: u64)
    ensures BitAnd(x, y) < 0x1_0000_0000_0000_0000
    ensures BitOr(x, y) < 0x1_0000_0000_0000_0000
    ensures BitXor(x, y) < 0x1_0000_0000_0000_0000
  {
    Pow2Words();
    AndBound(x, y, 64);
    OrBound(x, y, 64);
    XorBound(x, y, 64);
  }

  function NegSpec(m: int, x: int): Outcome
    requires IsModulus(m) && 0 <= x < m
  {
    var r := SubSpec(m, 0, x, 0);
    r.(flags := r.flags.(af := x != 0))
  }

  function IncSpec(m: int, x: int, y64: int, cf: bool): Outcome
    requires IsModulus(m) && 0 <= x < m
  {
    var r := AddSpec(m, x, 1, 0);
    r.(flags := r.flags.(cf := cf, af := Nibble(r.value) < Nibble(y64)))
  }

  function DecSpec(m: int, x: int, cf: bool): Outcome
    requires IsModulus(m) && 0 <= x < m
  {
    var r := SubSpec(m, x, 1, 0);
    r.(flags := r.flags.(cf := cf))
  }

  function Logic(m: int, z: nat): Outcome
    requires IsModulus(m)
  {
    var t := Trunc(m, z);
    Outcome(t, Stamp(m, t, false, false, false))
  }

  /** The meaning of one ALU operation on 64-bit operands that it first truncates to w. INC, DEC keep CF.
      INC and NEG set AF as the emulator does, which is not the x86 half carry: see `AuxCarryDefects`. */
  function AluSpec(op: AluOp, w: Width, f: Flags, x64: u64, y64: u64): (r: Outcome)
    ensures r.value < w.Mod()
  {
    var m := w.Mod();
    var x, y := Trunc(m, x64), Trunc(m, y64);
    match op
    case Add => AddSpec(m, x, y, 0)
    case Adc => AddSpec(m, x, y, Carry(f))
    case Sub => SubSpec(m, x, y, 0)
    case Cmp => SubSpec(m, x, y, 0)
    case Sbb => SubSpec(m, x, y, Carry(f))
    case And => Logic(m, BitAnd(x64, y64))
    case Or => Logic(m, BitOr(x64, y64))
    case Xor => Logic(m, BitXor(x64, y64))
    case Not => Outcome(m - 1 - x, f)
    case Neg => NegSpec(m, x)
    case Inc => IncSpec(m, x, y64, f.cf)
    case Dec => DecSpec(m, x, f.cf)
  }

  /** The carry an addition or subtraction takes in. */
  function CarryIn(op: AluOp, f: Flags): int {
    if op.Adc? || op.Sbb? then Carry(f) else 0
  }

  /** Value, CF and ZF of the additive operations. */
  lemma SumFields(op: AluOp, w: Width, f: Flags, x: u64, y: u64)
    requires op.Add? || op.Adc? || op.Sub? || op.Cmp? || op.Sbb?
    ensures var r, m, c := AluSpec(op, w, f, x, y), w.Mod(), CarryIn(op, f);
            var v := if op.Add? || op.Adc? then Trunc(m, x) + Trunc(m, y) + c else Trunc(m, x) - Trunc(m, y) - c;
            && r.value == Reduce(m, v) && r.flags.zf == (r.value == 0)
            && r.flags.cf == if op.Add? || op.Adc? then v >= m else v < 0
  {
    hide Nibble, Signed, FitsSigned, Top;
  }

  /** The half carry is right for INC, whose callers pass y = 0, unless the low nibble is 15, and for NEG unless
      the operand is a nonzero multiple of 16. */
  lemma AuxCarryDefects(w: Width, f: Flags, x: u64)
    requires x < w.Mod()
    ensures AluSpec(Inc, w, f, x, 0).flags.af == AddSpec(w.Mod(), x, 1, 0).flags.af <==> x % 16 != 15
    ensures AluSpec(Neg, w, f, x, 0).flags.af == SubSpec(w.Mod(), 0, x, 0).flags.af <==> x == 0 || x % 16 != 0
  {
  }

  // ----- why the comparisons and sign tests of the C code work -----

  lemma OverflowAdd(m: int, x: int, y: int, c: int)
    requires IsModulus(m) && 0 <= x < m && 0 <= y < m && 0 <= c <= 1
    ensures var z := Reduce(m, x + y + c);
            (Top(m, z) != Top(m, x) && Top(m, z) != Top(m, y)) <==> !FitsSigned(m, Signed(m, x) + Signed(m, y) + c)
  {
  }

  lemma OverflowSub(m: int, x: int, y: int, c: int)
    requires IsModulus(m) && 0 <= x < m && 0 <= y < m && 0 <= c <= 1
    ensures var z := Reduce(m, x - y - c);
            (Top(m, z) != Top(m, x) && Top(m, x) != Top(m, y)) <==> !FitsSigned(m, Signed(m, x) - Signed(m, y) - c)
  {
  }

  lemma NibbleUnique(v: int, q: int, n: int)
    requires v == 16 * q + n && 0 <= n < 16
    ensures Nibble(v) == n
  {
  }

  lemma NibbleSplit(x: int)
    ensures x == 16 * (x / 16) + Nibble(x)
  {
  }

  lemma SixteenDivides(m: int)
    requires IsModulus(m)
    ensures m == 16 * (m / 16)
  {
  }

  /** The low nibble of a reduced word is the sum of nibbles, less any carry out of it. */
  lemma NibbleAdd(m: int, x: int, y: int)
    requires IsModulus(m) && 0 <= x < m && 0 <= y < m
    ensures var n := Nibble(x) + Nibble(y);
            Nibble(Reduce(m, x + y)) == if n >= 16 then n - 16 else n
  {
    hide Nibble, IsModulus;
    NibbleSplit(x);
    NibbleSplit(y);
    SixteenDivides(m);
    NibbleBound(x);
    NibbleBound(y);
    var i, j, h, n := x / 16, y / 16, m / 16, Nibble(x) + Nibble(y);
    var c := if n >= 16 then 1 else 0;
    NibbleUnique(x + y, i + j + c, n - 16 * c);
    NibbleUnique(x + y - m, i + j + c - h, n - 16 * c);
  }

  lemma NibbleSub(m: int, x: int, y: int)
    requires IsModulus(m) && 0 <= x < m && 0 <= y < m
    ensures var n := Nibble(x) - Nibble(y);
            Nibble(Reduce(m, x - y)) == if n < 0 then n + 16 else n
  {
    hide Nibble, IsModulus;
    NibbleSplit(x);
    NibbleSplit(y);
    SixteenDivides(m);
    NibbleBound(x);
    NibbleBound(y);
    var i, j, h, n := x / 16, y / 16, m / 16, Nibble(x) - Nibble(y);
    var c := if n < 0 then 1 else 0;
    NibbleUnique(x - y, i - j - c, n + 16 * c);
    NibbleUnique(x - y + m, i - j - c + h, n + 16 * c);
  }

  lemma NibbleBound(x: int)
    ensures 0 <= Nibble(x) < 16
  {
  }

  lemma BitNibble(c: int)
    requires 0 <= c <= 1
    ensures Nibble(c) == c
  {
  }

  /** The two-step carry of ADC: adding the carry in, then y. */
  lemma AdcCarry(m: int, x: int, y: int, c: int)
    requires IsModulus(m) && 0 <= x < m && 0 <= y < m && 0 <= c <= 1
    ensures var t := Reduce(m, x + c);
            Reduce(m, t + y) == Reduce(m, x + y + c) && (t < x || Reduce(m, t + y) < y <==> x + y + c >= m)
  {
  }

  lemma AdcNibble(m: int, x: int, y: int, c: int)
    requires IsModulus(m) && 0 <= x < m && 0 <= y < m && 0 <= c <= 1
    ensures var t := Reduce(m, x + c);
            Nibble(t) < Nibble(x) || Nibble(Reduce(m, t + y)) < Nibble(y) <==> Nibble(x) + Nibble(y) + c >= 16
  {
    BitNibble(c);
    hide Nibble;
    NibbleAdd(m, x, c);
    NibbleAdd(m, Reduce(m, x + c), y);
  }

  lemma SbbBorrow(m: int, x: int, y: int, c: int)
    requires IsModulus(m) && 0 <= x < m && 0 <= y < m && 0 <= c <= 1
    ensures var t := Reduce(m, x - c);
            Reduce(m, t - y) == Reduce(m, x - y - c) && (x < t || t < Reduce(m, t - y) <==> x - y - c < 0)
  {
  }

  lemma SbbNibble(m: int, x: int, y: int, c: int)
    requires IsModulus(m) && 0 <= x < m && 0 <= y < m && 0 <= c <= 1
    ensures var t := Reduce(m, x - c);
            Nibble(x) < Nibble(t) || Nibble(t) < Nibble(Reduce(m, t - y)) <==> Nibble(x) - Nibble(y) - c < 0
  {
    BitNibble(c);
    hide Nibble;
    NibbleSub(m, x, c);
    NibbleSub(m, Reduce(m, x - c), y);
  }

  lemma AdcOutcome(m: int, x: int, y: int, c: int)
    requires IsModulus(m) && 0 <= x < m && 0 <= y < m && 0 <= c <= 1
    ensures var t := Reduce(m, x + c); var z := Reduce(m, t + y);
            Outcome(z, Stamp(m, z, Nibble(t) < Nibble(x) || Nibble(z) < Nibble(y),
                             Top(m, z) != Top(m, x) && Top(m, z) != Top(m, y), t < x || z < y)) == AddSpec(m, x, y, c)
  {
    hide Nibble, Reduce, Top, Signed, FitsSigned, IsModulus, Stamp;
    AdcCarry(m, x, y, c);
    AdcNibble(m, x, y, c);
    OverflowAdd(m, x, y, c);
  }

  lemma SbbOutcome(m: int, x: int, y: int, c: int)
    requires IsModulus(m) && 0 <= x < m && 0 <= y < m && 0 <= c <= 1
    ensures var t := Reduce(m, x - c); var z := Reduce(m, t - y);
            Outcome(z, Stamp(m, z, Nibble(x) < Nibble(t) || Nibble(t) < Nibble(z),
                             Top(m, z) != Top(m, x) && Top(m, x) != Top(m, y), x < t || t < z)) == SubSpec(m, x, y, c)
  {
    hide Nibble, Reduce, Top, Signed, FitsSigned, IsModulus, Stamp;
    SbbBorrow(m, x, y, c);
    SbbNibble(m, x, y, c);
    OverflowSub(m, x, y, c);
  }

  lemma DecOutcome(m: int, x: int, cf: bool)
    requires IsModulus(m) && 0 <= x < m
    ensures var z := Reduce(m, x - 1);
            Outcome(z, Stamp(m, z, Nibble(x) < Nibble(z), Top(m, z) != Top(m, x) && Top(m, x) != Top(m, 1), cf)) ==
                DecSpec(m, x, cf)
  {
    BitNibble(1);
    hide Nibble, Reduce, Top, Signed, FitsSigned;
    OverflowSub(m, x, 1, 0);
    NibbleSub(m, x, 1);
  }

  class Machine {
    var flags: Flags

    /** AluFlags: replace every status flag. */
    method AluFlags(m: int, z: u64, af: bool, of: bool, cf: bool)
      modifies this
      ensures flags == Stamp(m, z, af, of, cf)
    {
      flags := Flags(cf, af, z == 0, Top(m, z), of, z % 256);
    }

    method DoAdd(w: Width, x64: u64, y64: u64) returns (z: u64)
      modifies this
      ensures Outcome(z, flags) == AddSpec(w.Mod(), Trunc(w.Mod(), x64), Trunc(w.Mod(), y64), 0)
    {
      var m := w.Mod();
      var x, y := Trunc(m, x64), Trunc(m, y64);
      z := Reduce(m, x + y);
      var cf := z < y;
      var af := Nibble(z) < Nibble(y);
      var of := Top(m, z) != Top(m, x) && Top(m, z) != Top(m, y);
      AluFlags(m, z, af, of, cf);
      AdcOutcome(m, x, y, 0);
      hide Nibble, Top, Trunc, AddSpec;
    }

    method DoSub(w: Width, x64: u64, y64: u64) returns (z: u64)
      modifies this
      ensures Outcome(z, flags) == SubSpec(w.Mod(), Trunc(w.Mod(), x64), Trunc(w.Mod(), y64), 0)
    {
      var m := w.Mod();
      var x, y := Trunc(m, x64), Trunc(m, y64);
      z := Reduce(m, x - y);
      var cf := x < z;
      var af := Nibble(x) < Nibble(z);
      var of := Top(m, x) != Top(m, y) && Top(m, z) != Top(m, x);
      AluFlags(m, z, af, of, cf);
      SbbOutcome(m, x, y, 0);
      hide Nibble, Top, Trunc, SubSpec;
    }

    method DoAdc(w: Width, x64: u64, y64: u64) returns (z: u64)
      modifies this
      ensures Outcome(z, flags) == AddSpec(w.Mod(), Trunc(w.Mod(), x64), Trunc(w.Mod(), y64), Carry(old(flags)))
    {
      var m := w.Mod();
      var x, y, c := Trunc(m, x64), Trunc(m, y64), Carry(flags);
      var t := Reduce(m, x + c);
      z := Reduce(m, t + y);
      var cf := t < x || z < y;
      var of := Top(m, z) != Top(m, x) && Top(m, z) != Top(m, y);
      var af := Nibble(t) < Nibble(x) || Nibble(z) < Nibble(y);
      AluFlags(m, z, af, of, cf);
      AdcOutcome(m, x, y, c);
      hide Nibble, Reduce, Top, Trunc, AddSpec;
    }

    method DoSbb(w: Width, x64: u64, y64: u64) returns (z: u64)
      modifies this
      ensures Outcome(z, flags) == SubSpec(w.Mod(), Trunc(w.Mod(), x64), Trunc(w.Mod(), y64), Carry(old(flags)))
    {
      var m := w.Mod();
      var x, y, c := Trunc(m, x64), Trunc(m, y64), Carry(flags);
      var t := Reduce(m, x - c);
      z := Reduce(m, t - y);
      var cf := x < t || t < z;
      var of := Top(m, z) != Top(m, x) && Top(m, x) != Top(m, y);
      var af := Nibble(x) < Nibble(t) || Nibble(t) < Nibble(z);
      AluFlags(m, z, af, of, cf);
      SbbOutcome(m, x, y, c);
      hide Nibble, Reduce, Top, Trunc, SubSpec;
    }

    method DoNeg(w: Width, x64: u64) returns (z: u64)
      modifies this
      ensures Outcome(z, flags) == NegSpec(w.Mod(), Trunc(w.Mod(), x64))
    {
      var m := w.Mod();
      var x := Trunc(m, x64);
      var cf := x != 0;
      var af := cf;
      var of := 2 * x == m;
      z := Reduce(m, m - 1 - x + 1);
      AluFlags(m, z, af, of, cf);
      hide Nibble, Trunc;
    }

    method DoInc(w: Width, x64: u64, y64: u64) returns (z: u64)
      modifies this
      ensures Outcome(z, flags) == IncSpec(w.Mod(), Trunc(w.Mod(), x64), y64, old(flags).cf)
    {
      var m := w.Mod();
      var x := Trunc(m, x64);
      z := Reduce(m, x + 1);
      var af := Nibble(z) < Nibble(y64);
      var of := Top(m, z) != Top(m, x) && Top(m, z) != Top(m, 1);
      AluFlags(m, z, af, of, flags.cf);
      OverflowAdd(m, x, 1, 0);
      hide Nibble, Reduce, Top, Signed, FitsSigned, Trunc;
    }

    method DoDec(w: Width, x64: u64) returns (z: u64)
      modifies this
      ensures Outcome(z, flags) == DecSpec(w.Mod(), Trunc(w.Mod(), x64), old(flags).cf)
    {
      var m := w.Mod();
      var x := Trunc(m, x64);
      z := Reduce(m, x - 1);
      var af := Nibble(x) < Nibble(z);
      var of := Top(m, z) != Top(m, x) && Top(m, x) != Top(m, 1);
      AluFlags(m, z, af, of, flags.cf);
      DecOutcome(m, x, old(flags).cf);
      hide Nibble, Reduce, Top, Signed, FitsSigned, Trunc, DecSpec;
    }

    /** The bitwise operations clear CF, OF and AF. */
    method DoLogic(w: Width, z64: u64) returns (z: u64)
      modifies this
      ensures Outcome(z, flags) == Logic(w.Mod(), z64)
    {
      z := Trunc(w.Mod(), z64);
      AluFlags(w.Mod(), z, false, false, false);
    }

    /** kAlu: every row and width of the table computes what the operation means. */
    method Dispatch(op: AluOp, w: Width, x: u64, y: u64) returns (z: u64)
      modifies this
      ensures Outcome(z, flags) == AluSpec(op, w, old(flags), x, y)
    {
      BitwiseBounds(x, y);
      match op {
        case Add => z := DoAdd(w, x, y);
        case Or => z := DoLogic(w, BitOr(x, y));
        case Adc => z := DoAdc(w, x, y);
        case Sbb => z := DoSbb(w, x, y);
        case And => z := DoLogic(w, BitAnd(x, y));
        case Sub => z := DoSub(w, x, y);
        case Xor => z := DoLogic(w, BitXor(x, y));
        case Cmp => z := DoSub(w, x, y);
        case Not => z := w.Mod() - 1 - Trunc(w.Mod(), x);
        case Neg => z := DoNeg(w, x);
        case Inc => z := DoInc(w, x, y);
        case Dec => z := DoDec(w, x);
      }
      hide AddSpec, SubSpec, NegSpec, IncSpec, DecSpec, Logic, Trunc;
    }
  }
}
