/** Which form of an ALU operation the JIT emits (blink/alu2.c, blink/alui.c, blink/alu1.c, blink/uop.c): the full one,
    a fast one that keeps only CF and ZF, or one that computes no flags, chosen by the flags still needed. */
module Specialise {
  import opened Bits
  import opened Flags
  import opened Alu
  import opened AluLaws
  import opened Deps
  import opened Liveness

  datatype Variant = Full | Fast | Just

  /** The rows that have fast and flagless forms. */
  predicate InTable(op: AluOp) {
    !op.Not? && !op.Neg? && !op.Inc? && !op.Dec?
  }

  /** The switch on GetNeededFlags in OpAluw and AluiUnlocked, on hosts without x86 intrinsics. */
  function Choose(needed: Option<set<Flag>>): Variant {
    match needed
    case None => Full
    case Some(s) => if s == {} then Just else if s <= {CF, ZF} then Fast else Full
  }

  /** The flagless form is for when no flag is needed, and the fast one for when only CF or ZF are. */
  lemma ChosenForm(needed: Option<set<Flag>>)
    ensures Choose(needed).Just? <==> needed.Some? && forall f :: f !in needed.value
    ensures Choose(needed).Fast? <==>
              && needed.Some? && (CF in needed.value || ZF in needed.value)
              && PF !in needed.value && AF !in needed.value && SF !in needed.value && OF !in needed.value
  {
    if needed.Some? {
      var s := needed.value;
      assert s <= {CF, ZF} <==> PF !in s && AF !in s && SF !in s && OF !in s by {
        forall f | f in s && f !in {CF, ZF} ensures f == PF || f == AF || f == SF || f == OF { match f case _ => }
      }
      if s <= {CF, ZF} && CF !in s && ZF !in s { assert forall f :: f !in s; }
    }
  }

  /** Arithmetic on u64. */
  function Cut(v: int): (r: u64) {
    v % WORD
  }

  /** kJustAlu: a 64-bit result, cut to the operand size when it is stored. */
  function JustAlu(op: AluOp, f: Flags, x: u64, y: u64): (z: int)
    requires InTable(op)
  {
    match op
    case Add => Cut(x + y)
    case Or => BitOr(x, y)
    case Adc => Cut(x + y + Carry(f))
    case Sbb => Cut(x - y - Carry(f))
    case And => BitAnd(x, y)
    case Sub => Cut(x - y)
    case Xor => BitXor(x, y)
    case Cmp => Cut(x - y)
  }

  lemma CutTwice(m: int, v: int)
    requires IsModulus(m)
    ensures Trunc(m, Cut(v)) == v % m
  {
    var k, r := v / WORD, v % WORD;
    var j := if m == 0x100 then 0x100_0000_0000_0000 else if m == 0x1_0000 then 0x1_0000_0000_0000
             else if m == 0x1_0000_0000 then 0x1_0000_0000 else 1;
    assert j * m == WORD;
    assert v == r + k * WORD;
    assert k * (j * m) == (k * j) * m;
    ModShift(r, k * j, m);
    TruncMod(m, r);
  }

  lemma JustSum(m: int, x: u64, y: u64, c: int)
    requires IsModulus(m) && 0 <= c <= 1
    ensures Trunc(m, Cut(x + y + c)) == Reduce(m, Trunc(m, x) + Trunc(m, y) + c)
    ensures Trunc(m, Cut(x - y - c)) == Reduce(m, Trunc(m, x) - Trunc(m, y) - c)
  {
    TruncMod(m, x);
    TruncMod(m, y);
    CutTwice(m, x + y + c);
    CutTwice(m, x - y - c);
    CutPlus(m, x, y, c);
    CutMinus(m, x, y, c);
    ReduceMod(m, Trunc(m, x) + Trunc(m, y) + c);
    ReduceMod(m, Trunc(m, x) - Trunc(m, y) - c);
    hide Trunc, Reduce, Cut;
  }

  /** The flagless form stores the same value as the full one, at every width and for all 64-bit operands. */
  lemma JustStoresSame(op: AluOp, w: Width, f: Flags, x: u64, y: u64)
    requires InTable(op)
    ensures Trunc(w.Mod(), JustAlu(op, f, x, y)) == AluSpec(op, w, f, x, y).value
  {
    var m := w.Mod();
    if op.And? || op.Or? || op.Xor? {
      hide Trunc, Stamp, BitAnd, BitOr, BitXor, Width.Mod;
    } else {
      hide Trunc, Reduce, Cut, AluSpec, Width.Mod, IsModulus;
      SumFields(op, w, f, x, y);
      JustSum(m, x, y, CarryIn(op, f));
    }
  }

  /** FastAdd and FastAdc; FastAdd takes no carry in. The operand y is a 64-bit value: an immediate arrives
      sign-extended. */
  function FastPlus(m: int, f: Flags, x: int, y: u64, c: int): Outcome
    requires IsModulus(m) && 0 <= x < m && 0 <= c <= 1
  {
    var t := Reduce(m, x + c);
    var z := Trunc(m, Cut(t + y));
    FastStamp(f, z, t < x || z < y)
  }

  /** FastSub and FastSbb. */
  function FastMinus(m: int, f: Flags, x: int, y: u64, c: int): Outcome
    requires IsModulus(m) && 0 <= x < m && 0 <= c <= 1
  {
    var t := Reduce(m, x - c);
    var z := Trunc(m, Cut(t - y));
    FastStamp(f, z, x < t || t < z)
  }

  /** kAluFast, the portable version. */
  function FastAlu(op: AluOp, w: Width, f: Flags, x: u64, y: u64): Outcome
    requires InTable(op) && x < w.Mod()
  {
    var m := w.Mod();
    match op
    case Add => FastPlus(m, f, x, y, 0)
    case Adc => FastPlus(m, f, x, y, Carry(f))
    case Sub => FastMinus(m, f, x, y, 0)
    case Cmp => FastMinus(m, f, x, y, 0)
    case Sbb => FastMinus(m, f, x, y, Carry(f))
    case And => FastStamp(f, Trunc(m, BitAnd(x, y)), false)
    case Or => FastStamp(f, Trunc(m, BitOr(x, y)), false)
    case Xor => FastStamp(f, Trunc(m, BitXor(x, y)), false)
  }

  function FastStamp(f: Flags, z: int, c: bool): Outcome
    requires 0 <= z < WORD
  {
    Outcome(z, f.(cf := c, zf := z == 0))
  }

  /** When the fast carry is the carry: always for register and memory operands (y below 2^w), and for a sign-extended
      immediate of ADD or ADC exactly when the operands cut to size add up to 2^w or more. */
  predicate FastCarryRight(op: AluOp, w: Width, f: Flags, x: u64, y: u64) {
    var m := w.Mod();
    (op.Add? || op.Adc?) ==> y < m || Trunc(m, x) + Trunc(m, y) + CarryIn(op, f) >= m
  }

  /** Value and flags of FastPlus against the true sum. A y of 2^w or more always reads as a carry. */
  lemma FastPlusFields(m: int, f: Flags, x: int, y: u64, c: int)
    requires IsModulus(m) && 0 <= x < m && 0 <= c <= 1
    ensures var r := FastPlus(m, f, x, y, c);
            && r.value == Reduce(m, x + Trunc(m, y) + c) && r.flags == f.(cf := r.flags.cf, zf := r.value == 0)
            && r.flags.cf == (y >= m || x + Trunc(m, y) + c >= m)
  {
    var t, r := Reduce(m, x + c), Trunc(m, y);
    JustSum(m, t, y, 0);
    AdcCarry(m, x, r, c);
    assert Trunc(m, t) == t && Trunc(m, Cut(t + y)) < m;
    hide Cut, Trunc;
  }

  lemma FastMinusFields(m: int, f: Flags, x: int, y: u64, c: int)
    requires IsModulus(m) && 0 <= x < m && 0 <= c <= 1
    ensures var r := FastMinus(m, f, x, y, c);
            && r.value == Reduce(m, x - Trunc(m, y) - c) && r.flags == f.(cf := r.flags.cf, zf := r.value == 0)
            && r.flags.cf == (x - Trunc(m, y) - c < 0)
  {
    var t, r := Reduce(m, x - c), Trunc(m, y);
    JustSum(m, t, y, 0);
    SbbBorrow(m, x, r, c);
    assert Trunc(m, t) == t;
    hide Cut, Trunc;
  }

  /** The fast form stores the same value and ZF; its CF is right exactly under FastCarryRight; the flags it does
      not own it leaves alone. */
  lemma FastExact(op: AluOp, w: Width, f: Flags, x: u64, y: u64)
    requires InTable(op) && x < w.Mod()
    ensures var full, fast := AluSpec(op, w, f, x, y), FastAlu(op, w, f, x, y);
            && fast.value == full.value && fast.flags.zf == full.flags.zf
            && (fast.flags.cf == full.flags.cf <==> FastCarryRight(op, w, f, x, y))
            && fast.flags == f.(cf := fast.flags.cf, zf := fast.flags.zf)
  {
    hide AluSpec, FastAlu, FastCarryRight, Width.Mod;
    if op.And? || op.Or? || op.Xor? {
      FastLogic(op, w, f, x, y);
    } else {
      FastSums(op, w, f, x, y);
    }
  }

  lemma FastLogic(op: AluOp, w: Width, f: Flags, x: u64, y: u64)
    requires (op.And? || op.Or? || op.Xor?) && x < w.Mod()
    ensures var full, fast := AluSpec(op, w, f, x, y), FastAlu(op, w, f, x, y);
            && fast.value == full.value && fast.flags.zf == full.flags.zf
            && fast.flags.cf == full.flags.cf && FastCarryRight(op, w, f, x, y)
            && fast.flags == f.(cf := fast.flags.cf, zf := fast.flags.zf)
  {
    hide Trunc, BitAnd, BitOr, BitXor, Width.Mod, Top;
  }

  lemma TruncSame(m: int, x: int)
    requires IsModulus(m) && 0 <= x < m
    ensures Trunc(m, x) == x
  {
  }

  lemma FastSums(op: AluOp, w: Width, f: Flags, x: u64, y: u64)
    requires InTable(op) && !op.And? && !op.Or? && !op.Xor? && x < w.Mod()
    ensures var full, fast := AluSpec(op, w, f, x, y), FastAlu(op, w, f, x, y);
            && fast.value == full.value && fast.flags.zf == full.flags.zf
            && (fast.flags.cf == full.flags.cf <==> FastCarryRight(op, w, f, x, y))
            && fast.flags == f.(cf := fast.flags.cf, zf := fast.flags.zf)
  {
    hide AluSpec, Trunc, Reduce, Cut, FastPlus, FastMinus, Width.Mod, IsModulus;
    var m, c := w.Mod(), CarryIn(op, f);
    TruncSame(m, x);
    SumFields(op, w, f, x, y);
    FastPlusFields(m, f, x, y, c);
    FastMinusFields(m, f, x, y, c);
  }

  /** add eax, -1 with eax = 0 does not carry, but the fast form says it does: the immediate is wider than eax. */
  lemma FastAddImmediate(f: Flags)
    ensures !AluSpec(Add, W32, f, 0, WORD - 1).flags.cf
    ensures FastAlu(Add, W32, f, 0, WORD - 1).flags.cf
  {
  }

  function Emitted(v: Variant, op: AluOp, w: Width, f: Flags, x: u64, y: u64): Outcome
    requires InTable(op) && x < w.Mod()
  {
    match v
    case Full => AluSpec(op, w, f, x, y)
    case Fast => FastAlu(op, w, f, x, y)
    case Just => Outcome(Trunc(w.Mod(), JustAlu(op, f, x, y)), f)
  }

  /** What the choice of form rests on: CF is the only needed flag a form can get wrong, and only the fast form does. */
  predicate CarrySafe(needed: Option<set<Flag>>, op: AluOp, w: Width, f: Flags, x: u64, y: u64) {
    needed.Some? && Choose(needed).Fast? && CF in needed.value ==> FastCarryRight(op, w, f, x, y)
  }

  /** The emitted form always stores the right value, and gets every needed flag right exactly when `CarrySafe` holds.
      */
  lemma EmittedAgrees(needed: Option<set<Flag>>, op: AluOp, w: Width, f: Flags, x: u64, y: u64)
    requires InTable(op) && x < w.Mod()
    ensures var full, spec := AluSpec(op, w, f, x, y), Emitted(Choose(needed), op, w, f, x, y);
            && spec.value == full.value
            && (needed.None? ==> spec == full)
            && (needed.Some? ==>
                  (Diff(View(full.flags), View(spec.flags)) !! needed.value <==> CarrySafe(needed, op, w, f, x, y)))
  {
    hide AluSpec, FastAlu, JustAlu, Trunc, GetParity, FastCarryRight, Width.Mod;
    if Choose(needed).Fast? { FastExact(op, w, f, x, y); }
    if Choose(needed).Just? { JustStoresSame(op, w, f, x, y); }
    var full, spec := AluSpec(op, w, f, x, y), Emitted(Choose(needed), op, w, f, x, y);
    if needed.Some? { NeededApart(full.flags, spec.flags, needed.value); }
  }

  /** With nothing but CF and ZF needed, being right about them is all that counts. */
  lemma NeededApart(full: Flags, spec: Flags, needed: set<Flag>)
    ensures needed <= {CF, ZF} ==>
              (Diff(View(full), View(spec)) !! needed <==>
               (CF in needed ==> full.cf == spec.cf) && (ZF in needed ==> full.zf == spec.zf))
    ensures full == spec ==> Diff(View(full), View(spec)) !! needed
  {
    hide GetParity;
    var d := Diff(View(full), View(spec));
    assert CF in d <==> full.cf != spec.cf by { assert GetFlag(full, CF) == full.cf && GetFlag(spec, CF) == spec.cf; }
    assert ZF in d <==> full.zf != spec.zf by { assert GetFlag(full, ZF) == full.zf && GetFlag(spec, ZF) == spec.zf; }
    if needed <= {CF, ZF} && (CF in needed ==> full.cf == spec.cf) && (ZF in needed ==> full.zf == spec.zf) {
      forall g | g in d ensures g !in needed {}
    }
  }

  /** `spec` may stand in for `full` where the walk asking about the flags `my` gave the answer `needed`. */
  ghost predicate StandsIn(needed: Option<set<Flag>>, my: set<Flag>, full: Outcome, spec: Outcome) {
    && spec.value == full.value
    && (needed.None? ==> spec == full)
    && (needed.Some? ==> Diff(View(full.flags), View(spec.flags)) <= my - needed.value)
  }

  /** The state after an instruction that leaves outcome r: flags, and the value put wherever it goes. */
  function Landed<R>(ip: int, rest: R, put: (R, u64) -> R, r: Outcome): State<R> {
    State(ip, View(r.flags), put(rest, r.value))
  }

  /** Whatever may stand in may be run on from: the runs agree on everything but dead flags for any number of steps, and
      are equal after 32 instructions. */
  lemma FormRuns<R(!new)>(step: State<R> -> State<R>, code: Code, ip: int, rest: R, put: (R, u64) -> R,
                          my: set<Flag>, full: Outcome, spec: Outcome, n: nat)
    requires Contract(step, code) && StandsIn(NeededFlags(code, ip, my), my, full, spec)
    requires NoBoundary(step, code, Landed(ip, rest, put, full), if n < 32 then n else 32)
    ensures var s, t := Landed(ip, rest, put, full), Landed(ip, rest, put, spec);
            && Twins(Run(step, s, n), Run(step, t, n))
            && (n >= 32 ==> Run(step, s, n) == Run(step, t, n))
  {
    hide Contract, View, Diff, Crawl;
    var s, t := Landed(ip, rest, put, full), Landed(ip, rest, put, spec);
    if NeededFlags(code, ip, my).Some? {
      assert FoundDead(code, s.pc, Diff(s.flags, t.flags), my, 32);
      DeadFlags(step, code, s, t, my, 32, n);
    }
  }

  /** The same up to and including the first call, return or system call. */
  lemma FormRunsAtBoundary<R(!new)>(step: State<R> -> State<R>, code: Code, ip: int, rest: R, put: (R, u64) -> R,
                                    my: set<Flag>, full: Outcome, spec: Outcome, n: nat)
    requires Contract(step, code) && StandsIn(NeededFlags(code, ip, my), my, full, spec)
    requires NoBoundary(step, code, Landed(ip, rest, put, full), n)
    requires var a := Run(step, Landed(ip, rest, put, full), n); a.pc in code && Boundary(code[a.pc])
    ensures var s, t := Landed(ip, rest, put, full), Landed(ip, rest, put, spec);
            && Twins(Run(step, s, n + 1), Run(step, t, n + 1))
            && Diff(Run(step, s, n + 1).flags, Run(step, t, n + 1).flags) <= Diff(s.flags, t.flags)
  {
    hide Contract, View, Diff, Crawl, Boundary;
    var s, t := Landed(ip, rest, put, full), Landed(ip, rest, put, spec);
    if NeededFlags(code, ip, my).Some? {
      assert FoundDead(code, s.pc, Diff(s.flags, t.flags), my, 32);
      DeadFlagsAtBoundary(step, code, s, t, my, 32, n);
    } else {
      NoDiff(Run(step, s, n + 1).flags);
      NoDiff(s.flags);
    }
  }

  lemma EmittedStandsIn(needed: Option<set<Flag>>, op: AluOp, w: Width, f: Flags, x: u64, y: u64)
    requires InTable(op) && x < w.Mod() && CarrySafe(needed, op, w, f, x, y)
    ensures StandsIn(needed, STATUS, AluSpec(op, w, f, x, y), Emitted(Choose(needed), op, w, f, x, y))
  {
    hide AluSpec, Emitted, View, Diff, CarrySafe, Width.Mod;
    EmittedAgrees(needed, op, w, f, x, y);
    AllStatus(Diff(View(AluSpec(op, w, f, x, y).flags), View(Emitted(Choose(needed), op, w, f, x, y).flags)));
  }

  /** Specialisation preserves meaning: storing the value of the emitted form and running on at ip, or storing that of
      the full operation, gives runs that agree on everything but dead flags, for any number of steps, and that are
      equal after 32 instructions. */
  lemma SpecialisedRuns<R(!new)>(step: State<R> -> State<R>, code: Code, ip: int, rest: R, put: (R, u64) -> R,
                                 op: AluOp, w: Width, f: Flags, x: u64, y: u64, n: nat)
    requires InTable(op) && x < w.Mod() && Contract(step, code)
    requires CarrySafe(NeededFlags(code, ip, STATUS), op, w, f, x, y)
    requires NoBoundary(step, code, Landed(ip, rest, put, AluSpec(op, w, f, x, y)), if n < 32 then n else 32)
    ensures var s := Landed(ip, rest, put, AluSpec(op, w, f, x, y));
            var t := Landed(ip, rest, put, Emitted(Choose(NeededFlags(code, ip, STATUS)), op, w, f, x, y));
            && Twins(Run(step, s, n), Run(step, t, n))
            && (n >= 32 ==> Run(step, s, n) == Run(step, t, n))
  {
    hide *;
    var needed := NeededFlags(code, ip, STATUS);
    EmittedStandsIn(needed, op, w, f, x, y);
    FormRuns(step, code, ip, rest, put, STATUS, AluSpec(op, w, f, x, y), Emitted(Choose(needed), op, w, f, x, y), n);
  }

  lemma SpecialisedAtBoundary<R(!new)>(step: State<R> -> State<R>, code: Code, ip: int, rest: R, put: (R, u64) -> R,
                                       op: AluOp, w: Width, f: Flags, x: u64, y: u64, n: nat)
    requires InTable(op) && x < w.Mod() && Contract(step, code)
    requires CarrySafe(NeededFlags(code, ip, STATUS), op, w, f, x, y)
    requires NoBoundary(step, code, Landed(ip, rest, put, AluSpec(op, w, f, x, y)), n)
    requires var a := Run(step, Landed(ip, rest, put, AluSpec(op, w, f, x, y)), n); a.pc in code && Boundary(code[a.pc])
    ensures var s := Landed(ip, rest, put, AluSpec(op, w, f, x, y));
            var t := Landed(ip, rest, put, Emitted(Choose(NeededFlags(code, ip, STATUS)), op, w, f, x, y));
            && Twins(Run(step, s, n + 1), Run(step, t, n + 1))
            && Diff(Run(step, s, n + 1).flags, Run(step, t, n + 1).flags) <= Diff(s.flags, t.flags)
  {
    hide *;
    var needed := NeededFlags(code, ip, STATUS);
    EmittedStandsIn(needed, op, w, f, x, y);
    FormRunsAtBoundary(step, code, ip, rest, put, STATUS, AluSpec(op, w, f, x, y),
                       Emitted(Choose(needed), op, w, f, x, y), n);
  }

  /** add eax, -1 and jz, the everyday case: only ZF is needed, so the fast form's wrong CF does no harm. */
  lemma AddMinusOneJz(f: Flags)
    ensures Choose(Some({ZF})) == Fast && !FastCarryRight(Add, W32, f, 0, WORD - 1)
    ensures StandsIn(Some({ZF}), STATUS, AluSpec(Add, W32, f, 0, WORD - 1), FastAlu(Add, W32, f, 0, WORD - 1))
  {
    assert CF !in {ZF};
    EmittedStandsIn(Some({ZF}), Add, W32, f, 0, WORD - 1);
  }

  // ----- DEC, NEG, and XOR of a register with itself -----

  /** The switch in OpDecEvqp: flagless, ZF only, or full. */
  function EmittedDec(needed: Option<set<Flag>>, w: Width, f: Flags, x: u64): Outcome {
    if needed == Some({}) then Outcome(Trunc(w.Mod(), Cut(x - 1)), f)
    else if needed == Some({ZF}) then
      var z := Trunc(w.Mod(), Cut(x - 1));
      Outcome(z, f.(zf := z == 0))
    else AluSpec(Dec, w, f, x, 0)
  }

  /** DEC asks about every flag but CF, which it does not touch in any form. */
  lemma EmittedDecAgrees(needed: Option<set<Flag>>, w: Width, f: Flags, x: u64)
    ensures var full, spec := AluSpec(Dec, w, f, x, 0), EmittedDec(needed, w, f, x);
            && spec.value == full.value
            && (needed.Some? ==> Diff(View(full.flags), View(spec.flags)) !! needed.value + {CF})
            && (needed.None? ==> spec == full)
  {
    hide AluSpec, Trunc, Cut, Reduce, GetParity, Width.Mod;
    var full, spec := AluSpec(Dec, w, f, x, 0), EmittedDec(needed, w, f, x);
    DecFields(w, f, x);
    NeededApart(full.flags, spec.flags, {CF});
    if needed.Some? { NeededApart(full.flags, spec.flags, needed.value); }
  }

  lemma DecFields(w: Width, f: Flags, x: u64)
    ensures var r := AluSpec(Dec, w, f, x, 0);
            r.value == Trunc(w.Mod(), Cut(x - 1)) && r.flags.cf == f.cf && r.flags.zf == (r.value == 0)
  {
    JustSum(w.Mod(), x, 1, 0);
    assert Trunc(w.Mod(), 1) == 1;
    hide Nibble, Signed, FitsSigned, Top, Trunc, Cut, Width.Mod;
  }

  /** Whichever form of DEC is emitted, the program runs on as after the full one. */
  lemma DecRuns<R(!new)>(step: State<R> -> State<R>, code: Code, ip: int, rest: R, put: (R, u64) -> R,
                         w: Width, f: Flags, x: u64, n: nat)
    requires Contract(step, code)
    requires NoBoundary(step, code, Landed(ip, rest, put, AluSpec(Dec, w, f, x, 0)), if n < 32 then n else 32)
    ensures var s := Landed(ip, rest, put, AluSpec(Dec, w, f, x, 0));
            var t := Landed(ip, rest, put, EmittedDec(NeededFlags(code, ip, STATUS - {CF}), w, f, x));
            && Twins(Run(step, s, n), Run(step, t, n))
            && (n >= 32 ==> Run(step, s, n) == Run(step, t, n))
  {
    hide AluSpec, EmittedDec, View, Diff, Contract, NoBoundary, Run, Crawl;
    var my := STATUS - {CF};
    var needed, full := NeededFlags(code, ip, my), AluSpec(Dec, w, f, x, 0);
    var spec := EmittedDec(needed, w, f, x);
    EmittedDecAgrees(needed, w, f, x);
    AllStatus(Diff(View(full.flags), View(spec.flags)));
    FormRuns(step, code, ip, rest, put, my, full, spec, n);
  }

  /** The choice in OpNegEvqp. */
  function EmittedNeg(needed: Option<set<Flag>>, w: Width, f: Flags, x: u64): Outcome {
    if needed == Some({}) then Outcome(Trunc(w.Mod(), Cut(0 - x)), f) else AluSpec(Neg, w, f, x, 0)
  }

  lemma NegValue(w: Width, f: Flags, x: u64)
    ensures AluSpec(Neg, w, f, x, 0).value == Trunc(w.Mod(), Cut(0 - x))
  {
    JustSum(w.Mod(), 0, x, 0);
    assert Trunc(w.Mod(), 0) == 0;
    hide Nibble, Signed, FitsSigned, Top, Trunc, Cut, Width.Mod;
  }

  /** Whichever form of NEG is emitted, the program runs on as after the full one. */
  lemma NegRuns<R(!new)>(step: State<R> -> State<R>, code: Code, ip: int, rest: R, put: (R, u64) -> R,
                         w: Width, f: Flags, x: u64, n: nat)
    requires Contract(step, code)
    requires NoBoundary(step, code, Landed(ip, rest, put, AluSpec(Neg, w, f, x, 0)), if n < 32 then n else 32)
    ensures var s := Landed(ip, rest, put, AluSpec(Neg, w, f, x, 0));
            var t := Landed(ip, rest, put, EmittedNeg(NeededFlags(code, ip, STATUS), w, f, x));
            && Twins(Run(step, s, n), Run(step, t, n))
            && (n >= 32 ==> Run(step, s, n) == Run(step, t, n))
  {
    hide AluSpec, View, Diff, Contract, NoBoundary, Run, Crawl, Trunc, Cut;
    var needed, full := NeededFlags(code, ip, STATUS), AluSpec(Neg, w, f, x, 0);
    var spec := EmittedNeg(needed, w, f, x);
    NegValue(w, f, x);
    AllStatus(Diff(View(full.flags), View(spec.flags)));
    NoDiff(View(full.flags));
    FormRuns(step, code, ip, rest, put, STATUS, full, spec, n);
  }

  /** XOR of a register with itself at 32 or 64 bits: a zero is stored, with ZeroRegFlags if any flag may be needed. */
  function EmittedZero(needed: Option<set<Flag>>, f: Flags): Outcome {
    if needed == Some({}) then Outcome(0, f) else Outcome(0, Flags(false, false, true, false, false, 0))
  }

  /** ZeroRegFlags writes every flag XOR would. */
  lemma ZeroIsXor(w: Width, f: Flags, x: u64)
    ensures AluSpec(Xor, w, f, x, x) == Outcome(0, Flags(false, false, true, false, false, 0))
  {
    hide BitXor;
    XorSelf(x);
  }

  /** Clearing a register without computing flags, or with them written as constants, runs on as after XOR. */
  lemma ZeroRuns<R(!new)>(step: State<R> -> State<R>, code: Code, ip: int, rest: R, put: (R, u64) -> R,
                          w: Width, f: Flags, x: u64, n: nat)
    requires Contract(step, code)
    requires NoBoundary(step, code, Landed(ip, rest, put, AluSpec(Xor, w, f, x, x)), if n < 32 then n else 32)
    ensures var s := Landed(ip, rest, put, AluSpec(Xor, w, f, x, x));
            var t := Landed(ip, rest, put, EmittedZero(NeededFlags(code, ip, STATUS), f));
            && Twins(Run(step, s, n), Run(step, t, n))
            && (n >= 32 ==> Run(step, s, n) == Run(step, t, n))
  {
    hide AluSpec, View, Diff, Contract, NoBoundary, Run, Crawl;
    var needed, full := NeededFlags(code, ip, STATUS), AluSpec(Xor, w, f, x, x);
    var spec := EmittedZero(needed, f);
    ZeroIsXor(w, f, x);
    AllStatus(Diff(View(full.flags), View(spec.flags)));
    NoDiff(View(full.flags));
    FormRuns(step, code, ip, rest, put, STATUS, full, spec, n);
  }
}
