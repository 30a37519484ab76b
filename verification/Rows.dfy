/** The table rows against the instructions they describe. For the ALU, Jcc, SETcc and jump rows whose code is in
    blink/alu.c and blink/flags.h the contract of `Liveness` is proved, for whole programs of such instructions.
    For the rows that promise too much, the exact condition under which they tell the truth is given. */
module Rows {
  import opened Bits
  import opened Flags
  import opened Alu
  import opened Deps
  import opened Liveness
  import opened Shifts

  /** A flags register showing the set s. */
  function Showing(s: set<Flag>): Flags {
    Flags(CF in s, AF in s, ZF in s, SF in s, OF in s, if PF in s then 0 else 1)
  }

  lemma ShowingView(s: set<Flag>)
    ensures View(Showing(s)) == s
  {
    assert GetParity(0) && !GetParity(1) by {
      assert BitXor(0, 0) == 0;
      assert BitXor(1, 0) == 2 * BitXor(0, 0) + 1;
    }
    forall b ensures b in View(Showing(s)) <==> b in s { match b case _ => }
  }

  /** x86 condition codes. */
  predicate Cond(cc: nat, s: set<Flag>) {
    var even :=
      match cc / 2
      case 0 => OF in s
      case 1 => CF in s
      case 2 => ZF in s
      case 3 => CF in s || ZF in s
      case 4 => SF in s
      case 5 => PF in s
      case 6 => (SF in s) != (OF in s)
      case _ => ZF in s || (SF in s) != (OF in s);
    even == (cc % 2 == 0)
  }

  // ----- ALU rows -----

  predicate ReadsCarry(op: AluOp) {
    op.Adc? || op.Sbb?
  }

  /** The instruction encodings of the ALU operations. */
  predicate Encodes(i: Insn, op: AluOp) {
    || (AluEncoding(i.mop) && op == TableOp(i.mop / 8))
    || (0x80 <= i.mop <= 0x83 && i.reg < 8 && op == TableOp(i.reg))
    || ((0x84 <= i.mop <= 0x85 || 0xA8 <= i.mop <= 0xA9) && op == And)
    || ((i.mop == 0xF6 || i.mop == 0xF7) &&
        ((i.reg < 2 && op == And) || (i.reg == 2 && op == Not) || (i.reg == 3 && op == Neg)))
    || ((i.mop == 0xFE || i.mop == 0xFF) && ((i.reg == 0 && op == Inc) || (i.reg == 1 && op == Dec)))
  }

  /** Row t of kAlu. */
  function TableOp(t: nat): AluOp {
    match t
    case 0 => Add
    case 1 => Or
    case 2 => Adc
    case 3 => Sbb
    case 4 => And
    case 5 => Sub
    case 6 => Xor
    case _ => Cmp
  }

  lemma EncodedRow(i: Insn, op: AluOp)
    requires Encodes(i, op)
    ensures !Boundary(i) && IsNormal(i) && !IsJump(i) && !IsConditionalJump(i)
    ensures Reads(i) == if ReadsCarry(op) then {CF} else {}
    ensures Clobbers(i) == if op.Not? then {} else if op.Inc? || op.Dec? then STATUS - {CF} else STATUS
  {
  }

  /** Two flag registers with the same carry are indistinguishable to the ALU, except that NOT leaves them alone. */
  lemma AluUsesCarry(op: AluOp, w: Width, f: Flags, g: Flags, x: u64, y: u64)
    ensures !ReadsCarry(op) || f.cf == g.cf ==> AluSpec(op, w, f, x, y).value == AluSpec(op, w, g, x, y).value
    ensures !ReadsCarry(op) || f.cf == g.cf ==>
              var a, b := AluSpec(op, w, f, x, y).flags, AluSpec(op, w, g, x, y).flags;
              if op.Not? then a == f && b == g
              else if op.Inc? || op.Dec? then a.(cf := false) == b.(cf := false) && a.cf == f.cf && b.cf == g.cf
              else a == b
  {
    hide AddSpec, SubSpec, Logic, NegSpec, Trunc, Reduce, Stamp, Nibble, BitAnd, BitOr, BitXor;
  }

  function AluOn(op: AluOp, w: Width, s: set<Flag>, x: u64, y: u64): set<Flag> {
    View(AluSpec(op, w, Showing(s), x, y).flags)
  }

  lemma CarryOnlyDiffers(f: Flags, g: Flags)
    requires f.(cf := false) == g.(cf := false)
    ensures Diff(View(f), View(g)) <= {CF}
    ensures CF in Diff(View(f), View(g)) <==> f.cf != g.cf
  {
    hide GetParity;
    forall b | b in Diff(View(f), View(g)) ensures b == CF { match b case _ => }
  }

  /** ALU rows tell the truth about values and flags. */
  lemma AluRowHolds(i: Insn, op: AluOp, w: Width, a: set<Flag>, b: set<Flag>, x: u64, y: u64)
    requires Encodes(i, op) && Diff(a, b) !! Reads(i)
    ensures AluSpec(op, w, Showing(a), x, y).value == AluSpec(op, w, Showing(b), x, y).value
    ensures Diff(AluOn(op, w, a, x, y), AluOn(op, w, b, x, y)) <= Diff(a, b) - Clobbers(i)
  {
    EncodedRow(i, op);
    hide Clobbers, Reads, Encodes, AluSpec, GetParity;
    assert ReadsCarry(op) ==> Showing(a).cf == Showing(b).cf by {
      if ReadsCarry(op) { assert CF !in Diff(a, b); }
    }
    AluUsesCarry(op, w, Showing(a), Showing(b), x, y);
    ShowingView(a);
    ShowingView(b);
    var f, g := AluSpec(op, w, Showing(a), x, y).flags, AluSpec(op, w, Showing(b), x, y).flags;
    if op.Inc? || op.Dec? {
      CarryOnlyDiffers(f, g);
      assert CF in Diff(a, b) <==> Showing(a).cf != Showing(b).cf;
    }
  }

  // ----- condition rows -----

  lemma CondRowHolds(cc: nat, a: set<Flag>, b: set<Flag>)
    requires cc < 16 && Diff(a, b) !! CondDeps(cc)
    ensures Cond(cc, a) == Cond(cc, b)
  {
    assert forall f :: f in CondDeps(cc) ==> f !in Diff(a, b);
    assert forall f :: f in CondDeps(cc) ==> (f in a <==> f in b);
  }

  /** No row lists a flag in vain: the listed flags are exactly those that can change the condition. */
  lemma CondRowExact(cc: nat, f: Flag)
    requires cc < 16
    ensures f in CondDeps(cc) <==> exists s: set<Flag> :: Cond(cc, s) != Cond(cc, s + {f})
  {
    if f in CondDeps(cc) {
      assert Cond(cc, {}) != Cond(cc, {} + {f});
    } else {
      forall s: set<Flag> ensures Cond(cc, s) == Cond(cc, s + {f}) {
        assert Diff(s, s + {f}) <= {f};
        CondRowHolds(cc, s, s + {f});
      }
    }
  }

  // ----- instructions on the flags themselves -----

  datatype FlagInsn = Cmc | Clc | Stc | Sahf | Popf | Lahf | Pushf | Salc

  function FlagOpcode(o: FlagInsn): nat {
    match o
    case Cmc => 0xF5
    case Clc => 0xF8
    case Stc => 0xF9
    case Sahf => 0x9E
    case Popf => 0x9D
    case Lahf => 0x9F
    case Pushf => 0x9C
    case Salc => 0xD6
  }

  /** The flags afterwards; v is what AH or the stack holds. */
  function FlagsAfter(o: FlagInsn, s: set<Flag>, v: set<Flag>): set<Flag> {
    match o
    case Cmc => Diff(s, {CF})
    case Clc => s - {CF}
    case Stc => s + {CF}
    case Sahf => s * {OF} + (v - {OF})
    case Popf => v
    case _ => s
  }

  /** What registers and memory get to see of the flags. */
  function FlagsSeen(o: FlagInsn, s: set<Flag>): set<Flag> {
    match o
    case Lahf => s - {OF}
    case Pushf => s
    case Salc => s * {CF}
    case _ => {}
  }

  /** The same flag by flag. */
  lemma FlagMoves(s: set<Flag>, v: set<Flag>, f: Flag)
    ensures f in FlagsAfter(Cmc, s, v) <==> (f in s) != (f == CF)
    ensures f in FlagsAfter(Clc, s, v) <==> f in s && f != CF
    ensures f in FlagsAfter(Stc, s, v) <==> f in s || f == CF
    ensures f in FlagsAfter(Sahf, s, v) <==> if f == OF then f in s else f in v
    ensures f in FlagsAfter(Popf, s, v) <==> f in v
    ensures FlagsAfter(Lahf, s, v) == FlagsAfter(Pushf, s, v) == FlagsAfter(Salc, s, v) == s
    ensures f in FlagsSeen(Lahf, s) <==> f in s && f != OF
    ensures f in FlagsSeen(Pushf, s) <==> f in s
    ensures f in FlagsSeen(Salc, s) <==> f in s && f == CF
  {
  }

  /** From flags s, something outside the flags sees f, or a flag that is overwritten comes to depend on it. */
  predicate Reaches(o: FlagInsn, i: Insn, f: Flag, s: set<Flag>, v: set<Flag>) {
    || FlagsSeen(o, s) != FlagsSeen(o, s + {f})
    || !(Diff(FlagsAfter(o, s, v), FlagsAfter(o, s + {f}, v)) !! Clobbers(i))
  }

  ghost predicate Matters(o: FlagInsn, i: Insn, f: Flag) {
    exists s: set<Flag>, v: set<Flag> :: Reaches(o, i, f, s, v)
  }

  /** The rows of these are exact: they read what matters, and what they list and nothing else is overwritten. */
  lemma FlagRowExact(o: FlagInsn, i: Insn, a: set<Flag>, b: set<Flag>, v: set<Flag>, f: Flag)
    requires i.mop == FlagOpcode(o)
    ensures Diff(a, b) !! Reads(i) ==>
              && FlagsSeen(o, a) == FlagsSeen(o, b)
              && Diff(FlagsAfter(o, a, v), FlagsAfter(o, b, v)) == Diff(a, b) - Clobbers(i)
    ensures f in Reads(i) <==> Matters(o, i, f)
  {
    hide FlagsSeen, FlagsAfter, Reads, Clobbers, FlagOpcode, Diff, Reaches;
    if Diff(a, b) !! Reads(i) { FlagRowHonest(o, i, a, b, v); }
    if f in Reads(i) {
      FlagRead(o, i, f);
    } else {
      forall s: set<Flag>, v: set<Flag> ensures !Reaches(o, i, f, s, v) { Unread(o, i, f, s, v); }
    }
  }

  lemma Unread(o: FlagInsn, i: Insn, f: Flag, s: set<Flag>, v: set<Flag>)
    requires i.mop == FlagOpcode(o) && f !in Reads(i)
    ensures !Reaches(o, i, f, s, v)
  {
    assert Diff(s, s + {f}) <= {f};
    hide FlagsSeen, FlagsAfter, Reads, Clobbers, FlagOpcode, Diff;
    FlagRowHonest(o, i, s, s + {f}, v);
  }

  lemma FlagRowHonest(o: FlagInsn, i: Insn, a: set<Flag>, b: set<Flag>, v: set<Flag>)
    requires i.mop == FlagOpcode(o) && Diff(a, b) !! Reads(i)
    ensures FlagsSeen(o, a) == FlagsSeen(o, b)
    ensures Diff(FlagsAfter(o, a, v), FlagsAfter(o, b, v)) == Diff(a, b) - Clobbers(i)
  {
    forall f ensures f in Diff(a, b) ==> f !in Reads(i) && f in STATUS { AllStatus(Diff(a, b)); }
    forall f ensures f in FlagsSeen(o, a) <==> f in FlagsSeen(o, b) { match f case _ => }
    forall f
      ensures f in Diff(FlagsAfter(o, a, v), FlagsAfter(o, b, v)) <==> f in Diff(a, b) - Clobbers(i)
    {
      match f case _ =>
    }
  }

  lemma FlagRead(o: FlagInsn, i: Insn, f: Flag)
    requires i.mop == FlagOpcode(o) && f in Reads(i)
    ensures Matters(o, i, f)
  {
    if o.Cmc? {
      assert CF in Diff(FlagsAfter(o, {}, {}), FlagsAfter(o, {} + {f}, {})) && CF in Clobbers(i);
    } else {
      assert f in FlagsSeen(o, {} + {f}) && f !in FlagsSeen(o, {});
    }
    assert Reaches(o, i, f, {}, {});
  }

  /** Which operation each ALU opcode stands for. */
  lemma Opcodes(i: Insn, op: AluOp)
    requires i.reg < 8
    ensures i.mop < 0x40 && i.mop % 8 < 6 ==>
              (Encodes(i, op) <==> op == [Add, Or, Adc, Sbb, And, Sub, Xor, Cmp][i.mop / 8])
    ensures i.mop in {0x80, 0x81, 0x82, 0x83} ==>
              (Encodes(i, op) <==> op == [Add, Or, Adc, Sbb, And, Sub, Xor, Cmp][i.reg])
    ensures i.mop in {0x84, 0x85, 0xA8, 0xA9} ==> (Encodes(i, op) <==> op == And)
    ensures i.mop in {0xF6, 0xF7} ==> (Encodes(i, op) <==> i.reg < 4 && op == [And, And, Not, Neg][i.reg])
    ensures i.mop in {0xFE, 0xFF} ==> (Encodes(i, op) <==> i.reg < 2 && op == [Inc, Dec][i.reg])
  {
  }

  // ----- whole programs -----

  /** What an instruction does to the rest of the machine, left open: where operands come from, where results go. */
  datatype Meaning<!R> =
    | Arith(op: AluOp, w: Width, x: R -> u64, y: R -> u64, put: (R, u64) -> R)
    | Branch(cc: nat)
    | SetCond(cc: nat, store: (R, bool) -> R)
    | Jump

  datatype Op<!R> = Op(insn: Insn, does: Meaning<R>)

  ghost predicate WellEncoded<R>(op: Op<R>) {
    match op.does
    case Arith(o, _, _, _, _) => Encodes(op.insn, o)
    case Branch(cc) => cc < 16 && (op.insn.mop == 0x70 + cc || op.insn.mop == 0x180 + cc)
    case SetCond(cc, _) => cc < 16 && (op.insn.mop == 0x190 + cc || op.insn.mop == 0x140 + cc)
    case Jump => op.insn.mop == 0xE9 || op.insn.mop == 0xEB
  }

  function Execute<R>(op: Op<R>, s: State<R>): State<R> {
    var next := s.pc + op.insn.length;
    match op.does
    case Arith(o, w, x, y, put) =>
      State(next, AluOn(o, w, s.flags, x(s.rest), y(s.rest)),
          put(s.rest, AluSpec(o, w, Showing(s.flags), x(s.rest), y(s.rest)).value))
    case Branch(cc) => s.(pc := if Cond(cc, s.flags) then next + op.insn.disp else next)
    case SetCond(cc, store) => State(next, s.flags, store(s.rest, Cond(cc, s.flags)))
    case Jump => s.(pc := next + op.insn.disp)
  }

  function StepOf<R>(prog: map<int, Op<R>>): State<R> -> State<R> {
    (s: State<R>) => if s.pc in prog then Execute(prog[s.pc], s) else s
  }

  function CodeOf<R>(prog: map<int, Op<R>>): Code {
    map pc | pc in prog :: prog[pc].insn
  }

  lemma CondEncoded(i: Insn, cc: nat)
    requires cc < 16
    requires i.mop == 0x70 + cc || i.mop == 0x180 + cc || i.mop == 0x190 + cc || i.mop == 0x140 + cc
    ensures Reads(i) == CondDeps(cc) && Clobbers(i) == {} && !Boundary(i) && !IsJump(i)
    ensures IsConditionalJump(i) <==> i.mop == 0x70 + cc || i.mop == 0x180 + cc
    ensures !IsConditionalJump(i) ==> IsNormal(i)
  {
  }

  lemma OpHonoursRow<R>(op: Op<R>, s: State<R>, t: State<R>)
    requires WellEncoded(op) && Twins(s, t) && Diff(s.flags, t.flags) !! Reads(op.insn)
    ensures Twins(Execute(op, s), Execute(op, t))
    ensures Diff(Execute(op, s).flags, Execute(op, t).flags)
            <= Diff(s.flags, t.flags) - (if Boundary(op.insn) then {} else Clobbers(op.insn))
  {
    match op.does
    case Arith(o, w, x, y, put) =>
      EncodedRow(op.insn, o);
      hide Clobbers, Reads, Encodes, AluOn, AluSpec, Diff, Boundary;
      AluRowHolds(op.insn, o, w, s.flags, t.flags, x(s.rest), y(s.rest));
    case Branch(cc) =>
      CondEncoded(op.insn, cc);
      hide Clobbers, Reads, Cond, CondDeps;
      CondRowHolds(cc, s.flags, t.flags);
    case SetCond(cc, store) =>
      CondEncoded(op.insn, cc);
      hide Clobbers, Reads, Cond, CondDeps;
      CondRowHolds(cc, s.flags, t.flags);
    case Jump =>
  }

  lemma OpGoesTo<R>(op: Op<R>, s: State<R>)
    requires WellEncoded(op)
    ensures Execute(op, s).pc in Succs(op.insn, s.pc)
  {
    match op.does
    case Arith(o, w, x, y, put) => EncodedRow(op.insn, o);
    case Branch(cc) => CondEncoded(op.insn, cc);
    case SetCond(cc, store) => CondEncoded(op.insn, cc);
    case Jump =>
  }

  /** Every program made of these instructions meets the contract, so `DeadFlags` holds of it outright. */
  lemma ProgramsMeetContract<R(!new)>(prog: map<int, Op<R>>)
    requires forall pc :: pc in prog ==> WellEncoded(prog[pc])
    ensures Contract(StepOf(prog), CodeOf(prog))
  {
    hide StepOf, RowHolds, GoesTo, WellEncoded;
    var step, code := StepOf(prog), CodeOf(prog);
    forall s: State<R>, t: State<R> | s.pc in code ensures RowHolds(step, code[s.pc], s, t) {
      OpMeetsContract(prog, s, t);
    }
    forall s: State<R> | s.pc in code ensures GoesTo(step, code[s.pc], s) {
      OpMeetsContract(prog, s, s);
    }
  }

  lemma OpMeetsContract<R>(prog: map<int, Op<R>>, s: State<R>, t: State<R>)
    requires s.pc in prog && WellEncoded(prog[s.pc])
    ensures RowHolds(StepOf(prog), prog[s.pc].insn, s, t) && GoesTo(StepOf(prog), prog[s.pc].insn, s)
  {
    hide Clobbers, Reads, Execute, Diff, Boundary, Succs, WellEncoded;
    var op := prog[s.pc];
    if Twins(s, t) && Diff(s.flags, t.flags) !! Reads(op.insn) { OpHonoursRow(op, s, t); }
    OpGoesTo(op, s);
  }

  // ----- rows that promise too much -----

  /** After at least one place, nothing of the old flags is left. */
  lemma ShiftForgets(op: ShiftOp, w: Width, f: Flags, g: Flags, x: u64, y: u64)
    requires y % (if w.W64? then 64 else 32) != 0
    ensures Shifted(op, w, f, x, y) == Shifted(op, w, g, x, y)
  {
    hide Times;
  }

  /** The rows of the three shifts list all six flags as overwritten. That is true exactly when the masked count is not
      zero. */
  lemma ShiftRowExact(op: ShiftOp, w: Width, x: u64, y: u64)
    ensures (forall a: set<Flag>, b: set<Flag> ::
               View(Shifted(op, w, Showing(a), x, y).flags) == View(Shifted(op, w, Showing(b), x, y).flags))
            <==> y % (if w.W64? then 64 else 32) != 0
  {
    hide Times, View, Showing;
    if y % (if w.W64? then 64 else 32) == 0 {
      ShowingView({CF});
      ShowingView({});
      assert CF in View(Shifted(op, w, Showing({CF}), x, y).flags);
      assert CF !in View(Shifted(op, w, Showing({}), x, y).flags);
    } else {
      hide Shifted;
      forall a: set<Flag>, b: set<Flag>
        ensures View(Shifted(op, w, Showing(a), x, y).flags) == View(Shifted(op, w, Showing(b), x, y).flags)
      {
        ShiftForgets(op, w, Showing(a), Showing(b), x, y);
      }
    }
  }

  /** shl ecx, cl at 2 and jz +2 at 4. */
  function ShiftCode(): Code {
    map[2 := Insn(0xD3, 4, 0, false, true, 2, 0), 4 := Insn(0x74, 0, 0, false, false, 2, 2)]
  }

  /** What they do; the rest of the machine is ecx. */
  function ShiftProgram(s: State<nat>): State<nat> {
    if s.pc == 2 then
      var ecx := s.rest % DWORD;
      var r := Shifted(ShiftLeft, W32, Showing(s.flags), ecx, ecx);
      State(4, View(r.flags), r.value)
    else if s.pc == 4 then s.(pc := if Cond(4, s.flags) then 8 else 6)
    else s
  }

  /** Before a shift by CL the walk finds no flag needed, so the instruction before it is compiled without flags. The
      jump behind the shift then goes the same way whatever ZF was left if and only if the count, taken from ecx, is not
      zero. */
  lemma ShiftFoolsTheWalk(ecx: nat)
    requires ecx < DWORD
    ensures NeededFlags(ShiftCode(), 2, STATUS) == Some({})
    ensures Run(ShiftProgram, State(2, {ZF}, ecx), 2).pc == Run(ShiftProgram, State(2, {}, ecx), 2).pc <==>
            ecx % 32 != 0
  {
    hide *;
    WalkFindsNothing();
    JumpAfterShift({ZF}, ecx);
    JumpAfterShift({}, ecx);
    if ecx % 32 == 0 {
      ShiftedByNone({ZF}, ecx);
      ShiftedByNone({}, ecx);
      ZeroJumps();
    } else {
      ShiftedSame({ZF}, {}, ecx);
    }
  }

  lemma WalkFindsNothing()
    ensures NeededFlags(ShiftCode(), 2, STATUS) == Some({})
  {
    assert Clobbers(ShiftCode()[2]) == STATUS && Reads(ShiftCode()[2]) == {};
    assert STATUS - STATUS == {} && {} * STATUS == {};
  }

  /** The flags the jump finds. */
  function ShiftedFlags(f: set<Flag>, ecx: nat): set<Flag>
    requires ecx < DWORD
  {
    View(Shifted(ShiftLeft, W32, Showing(f), ecx, ecx).flags)
  }

  lemma JumpAfterShift(f: set<Flag>, ecx: nat)
    requires ecx < DWORD
    ensures Run(ShiftProgram, State(2, f, ecx), 2).pc == if Cond(4, ShiftedFlags(f, ecx)) then 8 else 6
  {
    hide Shifted, Cond, View, Showing;
    TwoSteps(State(2, f, ecx));
    SmallMod(ecx, DWORD);
  }

  lemma SmallMod(x: nat, m: nat)
    requires x < m
    ensures x % m == x
  {
  }

  lemma ShiftedByNone(f: set<Flag>, ecx: nat)
    requires ecx < DWORD && ecx % 32 == 0
    ensures ShiftedFlags(f, ecx) == f
  {
    hide Times, View, Showing;
    ShowingView(f);
  }

  lemma ShiftedSame(f: set<Flag>, g: set<Flag>, ecx: nat)
    requires ecx < DWORD && ecx % 32 != 0
    ensures ShiftedFlags(f, ecx) == ShiftedFlags(g, ecx)
  {
    hide Shifted, View, Showing;
    ShiftForgets(ShiftLeft, W32, Showing(f), Showing(g), ecx, ecx);
  }

  lemma TwoSteps(s: State<nat>)
    ensures Run(ShiftProgram, s, 2) == ShiftProgram(ShiftProgram(s))
  {
    hide ShiftProgram;
    assert Run(ShiftProgram, s, 2) == Run(ShiftProgram, ShiftProgram(s), 1);
  }

  lemma ZeroJumps()
    ensures Cond(4, {ZF}) && !Cond(4, {})
  {
  }

  /** DIV and IDIV leave every flag alone, as `Dubble.Cpu.DivUnsigned64` does, so what differed before differs after.
      Their rows list all six flags as overwritten, which is true of no two registers that differ. */
  lemma DivRowExact(i: Insn, a: set<Flag>, b: set<Flag>)
    requires (i.mop == 0xF6 || i.mop == 0xF7) && (i.reg == 6 || i.reg == 7)
    ensures Diff(a, b) <= Diff(a, b) - Clobbers(i) <==> a == b
  {
    AllStatus(Diff(a, b));
    assert Clobbers(i) == STATUS;
    if Diff(a, b) == {} { SameState(State(0, a, 0), State(0, b, 0)); }
    if a == b { NoDiff(a); }
  }

  /** Of the six flags the multiply row lists, exactly CF and OF are overwritten. */
  lemma MulRowExact(a: set<Flag>, b: set<Flag>, overflow: bool)
    ensures Diff(View(MulFlags(Showing(a), overflow)), View(MulFlags(Showing(b), overflow))) == Diff(a, b) - {CF, OF}
  {
    MulView(a, overflow);
    MulView(b, overflow);
    hide View, MulFlags, Showing;
  }

  lemma MulView(a: set<Flag>, overflow: bool)
    ensures View(MulFlags(Showing(a), overflow)) == (a - {CF, OF}) + (if overflow then {CF, OF} else {})
  {
    ShowingView(a);
    hide GetParity;
    var f, g := Showing(a), MulFlags(Showing(a), overflow);
    forall b ensures b in View(g) <==> b in (a - {CF, OF}) + (if overflow then {CF, OF} else {}) {
      assert b in View(f) <==> GetFlag(f, b);
      match b case _ =>
    }
  }

  /** FCMOVBE moves on CF or ZF. Its row lists only ZF, which is enough exactly when ZF is set or CF agrees. */
  lemma FcmovbeRowExact(a: set<Flag>, b: set<Flag>)
    requires Diff(a, b) !! Reads(Insn(0xDA, 2, 0, false, true, 2, 0))
    ensures Cond(6, a) == Cond(6, b) <==> ZF in a || CF !in Diff(a, b)
  {
    assert ZF !in Diff(a, b);
  }
}
