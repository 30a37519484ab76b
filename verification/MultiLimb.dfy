/** Multiword arithmetic as guests write it: ADD then ADC, SUB then SBB, limb by limb from the least significant
    (blink/alu.c). The flags register is all that passes from one limb to the next. */
module MultiLimb {
  import opened Bits
  import opened Flags
  import opened Alu

  ghost predicate Limbs(m: int, xs: seq<u64>) {
    forall i :: 0 <= i < |xs| ==> xs[i] < m
  }

  function Value(m: int, xs: seq<u64>): int {
    if xs == [] then 0 else xs[0] + m * Value(m, xs[1..])
  }

  /** Two's complement reading: the top limb counts as signed. */
  function SignedValue(m: int, xs: seq<u64>): int
    requires xs != []
  {
    if |xs| == 1 then Signed(m, xs[0]) else xs[0] + m * SignedValue(m, xs[1..])
  }

  function Power(m: int, n: nat): int {
    if n == 0 then 1 else m * Power(m, n - 1)
  }

  lemma {:induction false} SignedValueIs(m: int, xs: seq<u64>)
    requires xs != []
    ensures SignedValue(m, xs) == Value(m, xs) - if Top(m, xs[|xs| - 1]) then Power(m, |xs|) else 0
  {
    if |xs| == 1 {
      assert Value(m, xs[1..]) == 0;
      assert Power(m, 1) == m * Power(m, 0) == m;
    } else {
      SignedValueIs(m, xs[1..]);
      var v, p := Value(m, xs[1..]), Power(m, |xs| - 1);
      assert m * (v - p) == m * v - m * p;
    }
  }

  /** The remaining limbs of a chain, with ADC or SBB, given the flags left so far. */
  function Chain(op: AluOp, w: Width, f: Flags, xs: seq<u64>, ys: seq<u64>): (seq<u64>, Flags)
    requires (op.Adc? || op.Sbb?) && |xs| == |ys|
    decreases |xs|
  {
    if xs == [] then ([], f)
    else
      var r := AluSpec(op, w, f, xs[0], ys[0]);
      var rest := Chain(op, w, r.flags, xs[1..], ys[1..]);
      ([r.value] + rest.0, rest.1)
  }

  /** ADD on the lowest limb, ADC on the others. */
  function AddChain(w: Width, f: Flags, xs: seq<u64>, ys: seq<u64>): (seq<u64>, Flags)
    requires |xs| == |ys| > 0
  {
    var r := AluSpec(Add, w, f, xs[0], ys[0]);
    var rest := Chain(Adc, w, r.flags, xs[1..], ys[1..]);
    ([r.value] + rest.0, rest.1)
  }

  /** SUB on the lowest limb, SBB on the others. */
  function SubChain(w: Width, f: Flags, xs: seq<u64>, ys: seq<u64>): (seq<u64>, Flags)
    requires |xs| == |ys| > 0
  {
    var r := AluSpec(Sub, w, f, xs[0], ys[0]);
    var rest := Chain(Sbb, w, r.flags, xs[1..], ys[1..]);
    ([r.value] + rest.0, rest.1)
  }

  /** One limb: value and carry out account for both operands and the carry in. */
  lemma LimbSum(op: AluOp, w: Width, f: Flags, x: u64, y: u64)
    requires (op.Add? || op.Adc? || op.Sub? || op.Sbb?) && x < w.Mod() && y < w.Mod()
    ensures var r, m := AluSpec(op, w, f, x, y), w.Mod();
            && 0 <= r.value < m
            && if op.Add? || op.Adc? then r.value + Carry(r.flags) * m == x + y + CarryIn(op, f)
               else r.value - Carry(r.flags) * m == x - y - CarryIn(op, f)
  {
    SumFields(op, w, f, x, y);
    hide AluSpec;
  }

  lemma {:induction false} ChainValue(op: AluOp, w: Width, f: Flags, xs: seq<u64>, ys: seq<u64>)
    requires (op.Adc? || op.Sbb?) && |xs| == |ys| && Limbs(w.Mod(), xs) && Limbs(w.Mod(), ys)
    ensures var r, m := Chain(op, w, f, xs, ys), w.Mod();
            && |r.0| == |xs| && Limbs(m, r.0)
            && if op.Adc? then Value(m, r.0) + Carry(r.1) * Power(m, |xs|) == Value(m, xs) + Value(m, ys) + Carry(f)
               else Value(m, r.0) - Carry(r.1) * Power(m, |xs|) == Value(m, xs) - Value(m, ys) - Carry(f)
    decreases |xs|
  {
    hide AluSpec, Width.Mod;
    var m := w.Mod();
    if xs != [] {
      var r := AluSpec(op, w, f, xs[0], ys[0]);
      LimbSum(op, w, f, xs[0], ys[0]);
      ChainValue(op, w, r.flags, xs[1..], ys[1..]);
      var rest := Chain(op, w, r.flags, xs[1..], ys[1..]);
      assert ([r.value] + rest.0)[1..] == rest.0;
      Assemble(op.Adc?, m, Value(m, rest.0), Value(m, xs[1..]), Value(m, ys[1..]), Carry(rest.1), Power(m, |xs| - 1),
          Carry(r.flags));
    }
  }

  /** Multiplying the tail's equation by m. */
  lemma Assemble(plus: bool, m: int, z: int, x: int, y: int, out: int, p: int, c: int)
    requires if plus then z + out * p == x + y + c else z - out * p == x - y - c
    ensures if plus then m * z + out * (m * p) == m * x + m * y + c * m
            else m * z - out * (m * p) == m * x - m * y - c * m
  {
    assert out * (m * p) == m * (out * p);
    if plus {
      assert m * (z + out * p) == m * (x + y + c);
    } else {
      assert m * (z - out * p) == m * (x - y - c);
    }
  }

  /** ADD/ADC computes the sum of the two numbers, and CF at the end is its carry. */
  lemma AddChainIsSum(w: Width, f: Flags, xs: seq<u64>, ys: seq<u64>)
    requires |xs| == |ys| > 0 && Limbs(w.Mod(), xs) && Limbs(w.Mod(), ys)
    ensures var r, m := AddChain(w, f, xs, ys), w.Mod();
            && |r.0| == |xs| && Limbs(m, r.0)
            && Value(m, r.0) + Carry(r.1) * Power(m, |xs|) == Value(m, xs) + Value(m, ys)
  {
    hide AluSpec, Width.Mod;
    var m := w.Mod();
    var r := AluSpec(Add, w, f, xs[0], ys[0]);
    LimbSum(Add, w, f, xs[0], ys[0]);
    ChainValue(Adc, w, r.flags, xs[1..], ys[1..]);
    var rest := Chain(Adc, w, r.flags, xs[1..], ys[1..]);
    assert ([r.value] + rest.0)[1..] == rest.0;
    Assemble(true, m, Value(m, rest.0), Value(m, xs[1..]), Value(m, ys[1..]), Carry(rest.1), Power(m, |xs| - 1),
        Carry(r.flags));
  }

  /** SUB/SBB computes the difference, and CF at the end is its borrow. */
  lemma SubChainIsDifference(w: Width, f: Flags, xs: seq<u64>, ys: seq<u64>)
    requires |xs| == |ys| > 0 && Limbs(w.Mod(), xs) && Limbs(w.Mod(), ys)
    ensures var r, m := SubChain(w, f, xs, ys), w.Mod();
            && |r.0| == |xs| && Limbs(m, r.0)
            && Value(m, r.0) - Carry(r.1) * Power(m, |xs|) == Value(m, xs) - Value(m, ys)
  {
    hide AluSpec, Width.Mod;
    var m := w.Mod();
    var r := AluSpec(Sub, w, f, xs[0], ys[0]);
    LimbSum(Sub, w, f, xs[0], ys[0]);
    ChainValue(Sbb, w, r.flags, xs[1..], ys[1..]);
    var rest := Chain(Sbb, w, r.flags, xs[1..], ys[1..]);
    assert ([r.value] + rest.0)[1..] == rest.0;
    Assemble(false, m, Value(m, rest.0), Value(m, xs[1..]), Value(m, ys[1..]), Carry(rest.1), Power(m, |xs| - 1),
        Carry(r.flags));
  }

  // ----- comparison -----

  lemma DigitBound(m: int, x: int, v: int, p: int)
    requires 0 <= x < m && 0 <= v <= p - 1
    ensures 0 <= x + m * v < m * p
  {
    assert m * v <= m * (p - 1);
    assert 0 <= m * v;
  }

  lemma {:induction false} ValueBound(m: int, xs: seq<u64>)
    requires m > 0 && Limbs(m, xs)
    ensures 0 <= Value(m, xs) < Power(m, |xs|)
  {
    if xs != [] {
      ValueBound(m, xs[1..]);
      DigitBound(m, xs[0], Value(m, xs[1..]), Power(m, |xs| - 1));
    }
  }

  /** SF != OF after a subtraction says that the true signed difference is negative. */
  lemma LimbLess(op: AluOp, w: Width, f: Flags, x: u64, y: u64)
    requires (op.Sub? || op.Sbb?) && x < w.Mod() && y < w.Mod()
    ensures var r := AluSpec(op, w, f, x, y).flags;
            r.sf != r.of <==> Signed(w.Mod(), x) - Signed(w.Mod(), y) - CarryIn(op, f) < 0
  {
    hide Nibble;
  }

  lemma BorrowCompares(w: Width, f: Flags, xs: seq<u64>, ys: seq<u64>)
    requires |xs| == |ys| > 0 && Limbs(w.Mod(), xs) && Limbs(w.Mod(), ys)
    ensures SubChain(w, f, xs, ys).1.cf <==> Value(w.Mod(), xs) < Value(w.Mod(), ys)
  {
    var m := w.Mod();
    hide SubChain, Value, Power, Width.Mod;
    SubChainIsDifference(w, f, xs, ys);
    ValueBound(m, xs);
    ValueBound(m, ys);
    ValueBound(m, SubChain(w, f, xs, ys).0);
  }

  lemma SignOfPair(m: int, low: int, high: int)
    requires 0 <= low < m
    ensures low + m * high < 0 <==> high < 0
  {
    if high < 0 {
      assert m * high <= m * -1;
    } else {
      assert m * high >= 0;
    }
  }

  lemma {:induction false} ChainLess(w: Width, f: Flags, xs: seq<u64>, ys: seq<u64>)
    requires |xs| == |ys| > 0 && Limbs(w.Mod(), xs) && Limbs(w.Mod(), ys)
    ensures var r, m := Chain(Sbb, w, f, xs, ys).1, w.Mod();
            r.sf != r.of <==> SignedValue(m, xs) - SignedValue(m, ys) - Carry(f) < 0
    decreases |xs|
  {
    hide AluSpec, Width.Mod;
    var m := w.Mod();
    var r := AluSpec(Sbb, w, f, xs[0], ys[0]);
    LimbSum(Sbb, w, f, xs[0], ys[0]);
    if |xs| == 1 {
      LimbLess(Sbb, w, f, xs[0], ys[0]);
      assert Chain(Sbb, w, r.flags, xs[1..], ys[1..]).1 == r.flags;
    } else {
      ChainLess(w, r.flags, xs[1..], ys[1..]);
      TailSign(m, xs, ys, r.value, Carry(r.flags), Carry(f));
    }
  }

  lemma Distribute(m: int, a: int, b: int, c: int)
    ensures m * (a - b - c) == m * a - m * b - m * c
  {
  }

  lemma PairSign(m: int, x0: int, y0: int, x: int, y: int, z: int, borrow: int, c: int)
    requires 0 <= z < m && z - borrow * m == x0 - y0 - c
    ensures x0 + m * x - (y0 + m * y) - c < 0 <==> x - y - borrow < 0
  {
    Distribute(m, x, y, borrow);
    SignOfPair(m, z, x - y - borrow);
  }

  lemma TailSign(m: int, xs: seq<u64>, ys: seq<u64>, z: int, borrow: int, c: int)
    requires |xs| == |ys| > 1 && 0 <= z < m && z - borrow * m == xs[0] - ys[0] - c
    ensures SignedValue(m, xs) - SignedValue(m, ys) - c < 0
            <==> SignedValue(m, xs[1..]) - SignedValue(m, ys[1..]) - borrow < 0
  {
    PairSign(m, xs[0], ys[0], SignedValue(m, xs[1..]), SignedValue(m, ys[1..]), z, borrow, c);
  }

  /** After a SUB/SBB chain the conditional jumps on the last limb's flags decide the signed comparison of the whole
      numbers, and CF decides the unsigned one. `word` is any flags word holding those flags. */
  lemma ChainCompares(w: Width, f: Flags, xs: seq<u64>, ys: seq<u64>, word: bv32)
    requires |xs| == |ys| > 0 && Limbs(w.Mod(), xs) && Limbs(w.Mod(), ys)
    requires Represents(word, SubChain(w, f, xs, ys).1)
    ensures IsLess(word) <==> SignedValue(w.Mod(), xs) < SignedValue(w.Mod(), ys)
    ensures IsGreaterOrEqual(word) <==> SignedValue(w.Mod(), xs) >= SignedValue(w.Mod(), ys)
    ensures SubChain(w, f, xs, ys).1.cf <==> Value(w.Mod(), xs) < Value(w.Mod(), ys)
  {
    BorrowCompares(w, f, xs, ys);
    hide AluSpec, Width.Mod, IsLess, IsGreaterOrEqual, Represents;
    var m := w.Mod();
    var r := AluSpec(Sub, w, f, xs[0], ys[0]);
    LimbSum(Sub, w, f, xs[0], ys[0]);
    PredicateTricks(word, SubChain(w, f, xs, ys).1);
    if |xs| == 1 {
      LimbLess(Sub, w, f, xs[0], ys[0]);
      assert Chain(Sbb, w, r.flags, xs[1..], ys[1..]).1 == r.flags;
    } else {
      ChainLess(w, r.flags, xs[1..], ys[1..]);
      TailSign(m, xs, ys, r.value, Carry(r.flags), 0);
    }
  }
}
