/** What `AluSpec` promises, operation by operation, in plain integer arithmetic and bit by bit: results modulo 2^8,
    2^16, 2^32 or 2^64, carries, signed overflow, half carries, zero, sign and parity. */
module AluLaws {
  import opened Bits
  import opened Flags
  import opened Alu

  lemma ReduceMod(m: int, v: int)
    requires IsModulus(m) && -m <= v < 2 * m
    ensures Reduce(m, v) == v % m
  {
  }

  /** Truncating operands first or the result last makes no difference. */
  lemma CutPlus(m: int, x: int, y: int, c: int)
    requires m > 0
    ensures (x + y + c) % m == (x % m + y % m + c) % m
  {
    var qx, rx, qy, ry := x / m, x % m, y / m, y % m;
    assert x == qx * m + rx && y == qy * m + ry;
    assert x + y + c == rx + ry + c + (qx + qy) * m;
    ModShift(rx + ry + c, qx + qy, m);
  }

  lemma CutMinus(m: int, x: int, y: int, c: int)
    requires m > 0
    ensures (x - y - c) % m == (x % m - y % m - c) % m
  {
    var qx, rx, qy, ry := x / m, x % m, y / m, y % m;
    assert x == qx * m + rx && y == qy * m + ry;
    assert x - y - c == rx - ry - c + (qx - qy) * m;
    ModShift(rx - ry - c, qx - qy, m);
  }

  lemma TruncMod(m: int, v: int)
    requires IsModulus(m)
    ensures Trunc(m, v) == v % m
  {
  }

  lemma Moduli(w: Width)
    ensures w.Mod() == Pow2(Bitsize(w)) && (Bitsize(w) == 8 || Bitsize(w) == 16 || Bitsize(w) == 32 || Bitsize(w) == 64)
  {
    Pow2Words();
    hide Pow2;
  }

  /** A word below m read as a signed number. */
  function TwosComplement(m: int, x: int): int {
    if 2 * x >= m then x - m else x
  }

  /** Addition and subtraction with and without carry. */
  lemma SumMeans(op: AluOp, w: Width, f: Flags, x: u64, y: u64)
    requires op.Add? || op.Adc? || op.Sub? || op.Sbb? || op.Cmp?
    ensures var r, m, c := AluSpec(op, w, f, x, y), w.Mod(), if (op.Adc? || op.Sbb?) && f.cf then 1 else 0;
            var a, b := x % m, y % m;
            if op.Add? || op.Adc? then
              && r.value == (x + y + c) % m && (r.flags.cf <==> a + b + c >= m)
              && (r.flags.of <==> !(-m <= 2 * (TwosComplement(m, a) + TwosComplement(m, b) + c) < m))
              && (r.flags.af <==> a % 16 + b % 16 + c >= 16)
            else
              && r.value == (x - y - c) % m && (r.flags.cf <==> a < b + c)
              && (r.flags.of <==> !(-m <= 2 * (TwosComplement(m, a) - TwosComplement(m, b) - c) < m))
              && (r.flags.af <==> a % 16 < b % 16 + c)
  {
    var m, c := w.Mod(), if (op.Adc? || op.Sbb?) && f.cf then 1 else 0;
    hide Width.Mod, IsModulus, Trunc, AddSpec, SubSpec, TwosComplement;
    TruncMod(m, x);
    TruncMod(m, y);
    CutPlus(m, x, y, c);
    CutMinus(m, x, y, c);
    AddFields(m, x % m, y % m, c);
    SubFields(m, x % m, y % m, c);
  }

  lemma AddFields(m: int, a: int, b: int, c: int)
    requires IsModulus(m) && 0 <= a < m && 0 <= b < m && 0 <= c <= 1
    ensures var r := AddSpec(m, a, b, c);
            && r.value == (a + b + c) % m && (r.flags.cf <==> a + b + c >= m)
            && (r.flags.of <==> !(-m <= 2 * (TwosComplement(m, a) + TwosComplement(m, b) + c) < m))
            && (r.flags.af <==> a % 16 + b % 16 + c >= 16)
  {
    ReduceMod(m, a + b + c);
    hide IsModulus, Reduce;
  }

  lemma SubFields(m: int, a: int, b: int, c: int)
    requires IsModulus(m) && 0 <= a < m && 0 <= b < m && 0 <= c <= 1
    ensures var r := SubSpec(m, a, b, c);
            && r.value == (a - b - c) % m && (r.flags.cf <==> a < b + c)
            && (r.flags.of <==> !(-m <= 2 * (TwosComplement(m, a) - TwosComplement(m, b) - c) < m))
            && (r.flags.af <==> a % 16 < b % 16 + c)
  {
    ReduceMod(m, a - b - c);
    hide IsModulus, Reduce;
  }

  /** INC and DEC keep CF; NEG subtracts from zero; NOT complements and keeps every flag. */
  lemma UnaryMeans(op: AluOp, w: Width, f: Flags, x: u64, y: u64)
    requires op.Inc? || op.Dec? || op.Neg? || op.Not?
    ensures var r, m, a := AluSpec(op, w, f, x, y), w.Mod(), x % w.Mod();
            match op
            case Inc => r.value == (x + 1) % m && r.flags.cf == f.cf && (r.flags.of <==> a == m / 2 - 1)
            case Dec =>
              && r.value == (x - 1) % m && r.flags.cf == f.cf && (r.flags.of <==> a == m / 2)
              && (r.flags.af <==> a % 16 == 0)
            case Neg =>
              && r.value == (0 - x) % m && (r.flags.cf <==> a != 0) && (r.flags.of <==> a == m / 2)
              && (r.flags.af <==> a != 0)
            case _ => r.value + a == m - 1 && r.flags == f
  {
    var m, a := w.Mod(), x % w.Mod();
    hide Width.Mod, Trunc, IncSpec, DecSpec, NegSpec, IsModulus;
    TruncMod(m, x);
    StepMod(m, x);
    StepFields(m, a, y, f.cf);
  }

  lemma StepMod(m: int, x: int)
    requires IsModulus(m)
    ensures (x + 1) % m == (x % m + 1) % m && (x - 1) % m == (x % m - 1) % m && (0 - x) % m == (0 - x % m) % m
    ensures 0 <= x % m < m
  {
    assert 0 % m == 0 && 1 % m == 1;
    hide IsModulus;
    CutPlus(m, x, 1, 0);
    CutMinus(m, x, 1, 0);
    CutMinus(m, 0, x, 0);
  }

  lemma StepFields(m: int, a: int, y: int, cf: bool)
    requires IsModulus(m) && 0 <= a < m
    ensures var r := IncSpec(m, a, y, cf);
            r.value == (a + 1) % m && r.flags.cf == cf && (r.flags.of <==> a == m / 2 - 1)
    ensures var r := DecSpec(m, a, cf);
            r.value == (a - 1) % m && r.flags.cf == cf && (r.flags.of <==> a == m / 2) && (r.flags.af <==> a % 16 == 0)
    ensures var r := NegSpec(m, a);
            && r.value == (0 - a) % m && (r.flags.cf <==> a != 0) && (r.flags.of <==> a == m / 2)
            && (r.flags.af <==> a != 0)
  {
    hide AddSpec, SubSpec, TwosComplement;
    AddFields(m, a, 1, 0);
    SubFields(m, a, 1, 0);
    SubFields(m, 0, a, 0);
    StepOverflow(m, a);
  }

  /** Where stepping up, stepping down and negating leave the signed range. */
  lemma StepOverflow(m: int, a: int)
    requires IsModulus(m) && 0 <= a < m
    ensures !(-m <= 2 * (TwosComplement(m, a) + TwosComplement(m, 1)) < m) <==> a == m / 2 - 1
    ensures !(-m <= 2 * (TwosComplement(m, a) - TwosComplement(m, 1)) < m) <==> a == m / 2
    ensures !(-m <= 2 * (TwosComplement(m, 0) - TwosComplement(m, a)) < m) <==> a == m / 2
  {
  }

  /** AND, OR and XOR work bit by bit within the width and clear CF, OF and AF. */
  lemma LogicMeans(op: AluOp, w: Width, f: Flags, x: u64, y: u64, i: nat)
    requires op.And? || op.Or? || op.Xor?
    ensures var r := AluSpec(op, w, f, x, y);
            && !r.flags.cf && !r.flags.of && !r.flags.af
            && (Bit(r.value, i) <==>
                i < Bitsize(w) &&
                if op.And? then Bit(x, i) && Bit(y, i)
                else if op.Or? then Bit(x, i) || Bit(y, i) else Bit(x, i) != Bit(y, i))
  {
    Moduli(w);
    AndBit(x, y, i);
    OrBit(x, y, i);
    XorBit(x, y, i);
    BitwiseBounds(x, y);
    var z := if op.And? then BitAnd(x, y) else if op.Or? then BitOr(x, y) else BitXor(x, y);
    hide Pow2, BitAnd, BitOr, BitXor, Bit, Width.Mod, Trunc, Bitsize;
    TruncMod(w.Mod(), z);
    LowBits(z, Bitsize(w), i);
  }

  /** Reduction modulo 2^n keeps the low n bits. */
  lemma LowBits(z: nat, n: nat, i: nat)
    ensures Bit(z % Pow2(n), i) <==> i < n && Bit(z, i)
  {
    hide Bit, Pow2;
    var q, r := z / Pow2(n), z % Pow2(n);
    SplitAt(z, Pow2(n));
    AppendBit(r, n, q, i);
    if i >= n { HighBits(r, n, i); }
  }

  lemma SplitAt(z: nat, p: nat)
    requires p > 0
    ensures z == z % p + p * (z / p) && 0 <= z % p < p
  {
  }

  /** ZF, SF and PF follow from the result, for every operation but NOT. */
  lemma ResultFlags(op: AluOp, w: Width, f: Flags, x: u64, y: u64)
    requires !op.Not?
    ensures var r, m := AluSpec(op, w, f, x, y), w.Mod();
            && (GetFlag(r.flags, ZF) <==> r.value == 0) && (GetFlag(r.flags, SF) <==> 2 * r.value >= m)
            && (GetFlag(r.flags, PF) <==> EvenOnes(r.value % 256))
  {
    hide Reduce, Trunc, Nibble, Signed, FitsSigned, BitAnd, BitOr, BitXor, GetParity, EvenOnes;
    ParityIsEven(AluSpec(op, w, f, x, y).value % 256);
  }
}
