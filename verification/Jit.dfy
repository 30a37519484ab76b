/** The whole program as the JIT compiles it: every ALU instruction in the form its needed flags allow, registers
    cleared in place of XOR, compares and tests fused with the jumps behind them. Flags left wrong by one rewrite are
    still about when the next one comes, and pile up; the run is the plain program's all the same. */
module Jit {
  import opened Bits
  import opened Flags
  import opened Alu
  import opened Deps
  import opened Liveness
  import opened Rows
  import opened Specialise
  import opened Fusion
  import opened Programs

  // ----- dead flags, one at a time -----

  /** Some walk from pc asked about f alone finds it unneeded. */
  ghost predicate Dead(code: Code, pc: int, f: Flag) {
    exists look: int :: look >= 1 && Crawl(code, pc, {f}, look) == Some({})
  }

  ghost predicate AllDead(code: Code, pc: int, d: set<Flag>) {
    forall f :: f in d ==> Dead(code, pc, f)
  }

  lemma OneLive(i: Insn, f: Flag)
    ensures {f} - Clobbers(i) == if f in Clobbers(i) then {} else {f}
  {
  }

  /** A walk that answers for many flags answers for each of them. */
  lemma {:induction false} CrawlOne(code: Code, pc: int, my: set<Flag>, look: int, f: Flag)
    requires look >= 1 && Crawl(code, pc, my, look).Some? && f in my
    ensures Crawl(code, pc, {f}, look).Some?
    decreases look
  {
    hide Clobbers, Reads, IsNormal, IsJump, IsConditionalJump;
    var i := code[pc];
    var next, live := pc + i.length, my - Clobbers(i);
    OneLive(i, f);
    if f !in Clobbers(i) {
      assert f in live;
      if IsJump(i) || IsConditionalJump(i) { CrawlOne(code, next + i.disp, live, look - 1, f); }
      if !IsJump(i) { CrawlOne(code, next, live, look - 1, f); }
    }
  }

  /** A flag asked about and not found needed is dead. */
  lemma FoundIsDead(code: Code, pc: int, my: set<Flag>, f: Flag)
    requires NeededFlags(code, pc, my).Some? && f in my - NeededFlags(code, pc, my).value
    ensures Dead(code, pc, f)
  {
    hide Crawl, Live;
    CrawlOne(code, pc, my, 32, f);
    CrawlExact(code, pc, my, 32);
    CrawlExact(code, pc, {f}, 32);
    var found := Crawl(code, pc, {f}, 32).value;
    assert forall g :: g in found ==> g in {f};
    assert f !in found;
    assert found == {};
  }

  lemma JoinNothing(need: set<Flag>, r: Option<set<Flag>>)
    ensures Join(need, r) == Some({}) <==> need == {} && r == Some({})
  {
    assert forall a: set<Flag>, b: set<Flag> :: a + b == {} <==> a == {} && b == {};
  }

  /** A dead flag is not read, and unless it is overwritten it is dead wherever the instruction leads. */
  lemma DeadStep(code: Code, pc: int, f: Flag, next: int)
    requires Dead(code, pc, f)
    ensures pc in code && f !in Reads(code[pc])
    ensures f !in Clobbers(code[pc]) && next in Succs(code[pc], pc) ==> Dead(code, next, f)
  {
    hide Clobbers, Reads, IsNormal, IsJump, IsConditionalJump;
    var look: int :| look >= 1 && Crawl(code, pc, {f}, look) == Some({});
    var i := code[pc];
    OneLive(i, f);
    assert Reads(i) * {f} <= Crawl(code, pc, {f}, look).value;
    assert f in Reads(i) ==> f in Reads(i) * {f};
    if f !in Clobbers(i) && next in Succs(i, pc) {
      var need, rest := Reads(i) * {f}, pc + i.length;
      JoinNothing(need, Crawl(code, next, {f}, look - 1));
      if IsConditionalJump(i) && !IsJump(i) {
        JoinNothing(need + Crawl(code, rest + i.disp, {f}, look - 1).value, Crawl(code, rest, {f}, look - 1));
      }
      assert Crawl(code, next, {f}, look - 1) == Some({});
    }
  }

  lemma AllDeadStep(code: Code, pc: int, d: set<Flag>, next: int)
    requires AllDead(code, pc, d) && pc in code && next in Succs(code[pc], pc)
    ensures d !! Reads(code[pc]) && AllDead(code, next, d - Clobbers(code[pc]))
  {
    hide Clobbers, Reads, Succs, Dead;
    forall f | f in d ensures f !in Reads(code[pc]) && (f !in Clobbers(code[pc]) ==> Dead(code, next, f)) {
      DeadStep(code, pc, f, next);
    }
  }

  /** Off the program nothing is dead, so nothing differs. */
  lemma AllDeadOutside(code: Code, pc: int, d: set<Flag>)
    requires AllDead(code, pc, d) && pc !in code
    ensures d == {}
  {
    hide Dead;
    if f :| f in d { DeadStep(code, pc, f, pc); }
  }

  lemma AllDeadFound(code: Code, pc: int, my: set<Flag>, d: set<Flag>)
    requires NeededFlags(code, pc, my).Some? && d <= my - NeededFlags(code, pc, my).value
    ensures AllDead(code, pc, d)
  {
    hide NeededFlags, Dead;
    forall f | f in d ensures Dead(code, pc, f) { FoundIsDead(code, pc, my, f); }
  }

  lemma AllDeadUnion(code: Code, pc: int, c: set<Flag>, d: set<Flag>, e: set<Flag>)
    requires AllDead(code, pc, c) && AllDead(code, pc, d) && e <= c + d
    ensures AllDead(code, pc, e)
  {
    hide Dead;
  }

  lemma Triangle(a: set<Flag>, b: set<Flag>, c: set<Flag>)
    ensures Diff(a, c) <= Diff(a, b) + Diff(b, c)
  {
  }

  // ----- what the JIT emits -----

  /** A compare or test to be fused with the jump behind it; p is the page of code the jump is read from. */
  datatype Fuse = FuseCmp(p: Option<seq<nat>>) | FuseTest(p: Option<seq<nat>>, reg: nat, rm: nat)

  /** What is compiled how: pairs to be fused, and XORs of a register with itself. */
  datatype Plan = Plan(host: Host, fused: map<int, Fuse>, zeroed: set<int>)

  /** The form of an ALU instruction ending at ip. An operand wider than the operation is never loaded. */
  function Form(code: Code, ip: int, zero: bool, op: AluOp, w: Width, f: Flags, x: u64, y: u64): Outcome {
    if zero then EmittedZero(NeededFlags(code, ip, STATUS), f)
    else if op.Dec? then EmittedDec(NeededFlags(code, ip, STATUS - {CF}), w, f, x)
    else if op.Neg? then EmittedNeg(NeededFlags(code, ip, STATUS), w, f, x)
    else if InTable(op) && x < w.Mod() then Emitted(Choose(NeededFlags(code, ip, STATUS)), op, w, f, x, y)
    else AluSpec(op, w, f, x, y)
  }

  /** Whether the native branch of a fused pair is taken. */
  predicate FusedTakes<R>(host: Host, fuse: Fuse, cc: nat, a: Meaning<R>, rest: R)
    requires a.Arith?
    requires if fuse.FuseCmp? then Accepted(host, cc) else AcceptedTest(host, cc)
  {
    var m := a.w.Mod();
    if fuse.FuseCmp? then NativeTakes(host, cc, m, Trunc(m, a.x(rest)), Trunc(m, a.y(rest)))
    else FusedTestTakes(host, cc, m, a.y(rest))
  }

  /** The pair at pc passes the JIT's checks on the bytes behind it, which are the program's. */
  ghost predicate CanBeFused<R(!new)>(prog: map<int, Op<R>>, host: Host, pc: int, fuse: Fuse) {
    && pc in prog && prog[pc].does.Arith? && fuse.p.Some? && |fuse.p.value| >= 6 && ReadJcc(fuse.p.value).Some?
    && var a, ip, code := prog[pc].does, pc + prog[pc].insn.length, CodeOf(prog);
       && (if fuse.FuseCmp? then a.op == Cmp && CanFuse(host, a.w, ip, fuse.p, code)
           else a.op == And && CanFuseTest(host, a.w, fuse.reg, fuse.rm, ip, fuse.p, code))
       && (forall rest: R, v: u64 :: a.put(rest, v) == rest)
       && ip in prog && Decodes(fuse.p.value, prog[ip].insn)
  }

  ghost predicate Sound<R(!new)>(prog: map<int, Op<R>>, plan: Plan) {
    WellFormed(prog) && forall pc :: pc in plan.fused ==> CanBeFused(prog, plan.host, pc, plan.fused[pc])
  }

  /** One step of the compiled program; a fused pair is one step. */
  ghost function JitStep<R(!new)>(prog: map<int, Op<R>>, plan: Plan, t: State<R>): State<R>
    requires Sound(prog, plan)
  {
    if t.pc !in prog then t
    else
      var op, ip := prog[t.pc], t.pc + prog[t.pc].insn.length;
      if t.pc in plan.fused then
        var fuse := plan.fused[t.pc];
        assert CanBeFused(prog, plan.host, t.pc, fuse);
        var j := ReadJcc(fuse.p.value).value;
        State(Target(ip, j, FusedTakes(plan.host, fuse, j.cc, op.does, t.rest)), t.flags, t.rest)
      else if op.does.Arith? then
        var a := op.does;
        Landed(ip, t.rest, a.put,
               Form(CodeOf(prog), ip, t.pc in plan.zeroed, a.op, a.w, Showing(t.flags), a.x(t.rest), a.y(t.rest)))
      else Execute(op, t)
  }

  ghost function JitRun<R(!new)>(prog: map<int, Op<R>>, plan: Plan, t: State<R>, n: nat): State<R>
    requires Sound(prog, plan)
    decreases n
  {
    if n == 0 then t else JitRun(prog, plan, JitStep(prog, plan, t), n - 1)
  }

  /** The plain program over the same stretch. */
  function PlainStep<R>(prog: map<int, Op<R>>, plan: Plan, s: State<R>): State<R> {
    if s.pc in plan.fused then StepOf(prog)(StepOf(prog)(s)) else StepOf(prog)(s)
  }

  /** How many guest instructions the first n compiled steps are. */
  function GuestSteps<R>(prog: map<int, Op<R>>, plan: Plan, s: State<R>, n: nat): nat
    decreases n
  {
    if n == 0 then 0
    else (if s.pc in plan.fused then 2 else 1) + GuestSteps(prog, plan, PlainStep(prog, plan, s), n - 1)
  }

  /** The jump of the pair is jo, jno, jb or jae. */
  predicate TestsCleared(fuse: Fuse) {
    fuse.p.Some? && |fuse.p.value| >= 6 && ReadJcc(fuse.p.value).Some? && ReadJcc(fuse.p.value).value.cc < 4
  }

  /** What the emitted code relies on at the instruction at s.pc: operands fit their width, a carry that is needed from
      the fast form is right, a cleared register was XORed with itself, a fused test is of a register with itself or its
      jump is on flags that TEST clears. */
  ghost predicate SafeAt<R>(prog: map<int, Op<R>>, plan: Plan, s: State<R>) {
    s.pc in prog && prog[s.pc].does.Arith? ==>
      var a, ip, code := prog[s.pc].does, s.pc + prog[s.pc].insn.length, CodeOf(prog);
      var x, y, m := a.x(s.rest), a.y(s.rest), a.w.Mod();
      if s.pc in plan.fused then plan.fused[s.pc].FuseTest? ==>
          x < m && y < m && (x == y || TestsCleared(plan.fused[s.pc]))
      else if s.pc in plan.zeroed then a.op == Xor && x == y
      else InTable(a.op) ==> x < m && CarrySafe(NeededFlags(code, ip, STATUS), a.op, a.w, Showing(s.flags), x, y)
  }

  ghost predicate SafeRun<R>(prog: map<int, Op<R>>, plan: Plan, s: State<R>, n: nat)
    decreases n
  {
    n == 0 || (SafeAt(prog, plan, s) && SafeRun(prog, plan, PlainStep(prog, plan, s), n - 1))
  }

  // ----- one step -----

  /** The compiled program may stand in for the plain one: only dead flags differ. */
  ghost predicate Simulates<R>(prog: map<int, Op<R>>, s: State<R>, t: State<R>) {
    Twins(s, t) && AllDead(CodeOf(prog), s.pc, Diff(s.flags, t.flags))
  }

  /** What a walk asks about for an operation. */
  function Asked(op: AluOp): set<Flag> {
    if op.Dec? then STATUS - {CF} else STATUS
  }

  lemma FormStandsIn(code: Code, ip: int, zero: bool, op: AluOp, w: Width, f: Flags, x: u64, y: u64)
    requires zero ==> op == Xor && x == y
    requires !zero && InTable(op) ==> x < w.Mod() && CarrySafe(NeededFlags(code, ip, STATUS), op, w, f, x, y)
    ensures StandsIn(NeededFlags(code, ip, Asked(op)), Asked(op), AluSpec(op, w, f, x, y),
            Form(code, ip, zero, op, w, f, x, y))
  {
    hide AluSpec, Emitted, View, Diff, CarrySafe, NeededFlags, EmittedDec, Trunc, Cut, Width.Mod;
    var needed, full := NeededFlags(code, ip, Asked(op)), AluSpec(op, w, f, x, y);
    var spec := Form(code, ip, zero, op, w, f, x, y);
    AllStatus(Diff(View(full.flags), View(spec.flags)));
    NoDiff(View(full.flags));
    if zero {
      ZeroIsXor(w, f, x);
    } else if op.Dec? {
      EmittedDecAgrees(needed, w, f, x);
      DecIgnoresY(w, f, x, y);
    } else if op.Neg? {
      NegValue(w, f, x);
      NegIgnoresY(w, f, x, y);
    } else if InTable(op) {
      EmittedStandsIn(needed, op, w, f, x, y);
    }
  }

  lemma DecIgnoresY(w: Width, f: Flags, x: u64, y: u64)
    ensures AluSpec(Dec, w, f, x, y) == AluSpec(Dec, w, f, x, 0)
  {
    hide DecSpec, Trunc;
  }

  lemma NegIgnoresY(w: Width, f: Flags, x: u64, y: u64)
    ensures AluSpec(Neg, w, f, x, y) == AluSpec(Neg, w, f, x, 0)
  {
    hide NegSpec, Trunc;
  }

  /** Whether the carry is right depends on the flags only through the carry that ADC reads. */
  lemma SameCarrySafe(needed: Option<set<Flag>>, op: AluOp, w: Width, f: Flags, g: Flags, x: u64, y: u64)
    requires CarrySafe(needed, op, w, f, x, y) && (ReadsCarry(op) ==> f.cf == g.cf)
    ensures CarrySafe(needed, op, w, g, x, y)
  {
    hide Trunc, Width.Mod;
  }

  lemma SameCarry(a: set<Flag>, b: set<Flag>)
    requires CF !in Diff(a, b)
    ensures Showing(a).cf == Showing(b).cf
  {
  }

  /** An ALU instruction in its emitted form. */
  lemma ArithStep<R(!new)>(prog: map<int, Op<R>>, plan: Plan, s: State<R>, t: State<R>)
    requires Sound(prog, plan) && s.pc in prog && prog[s.pc].does.Arith? && s.pc !in plan.fused
    requires Simulates(prog, s, t) && SafeAt(prog, plan, s)
    ensures Simulates(prog, PlainStep(prog, plan, s), JitStep(prog, plan, t))
  {
    hide AluSpec, View, Diff, CarrySafe, NeededFlags, Form, AllDead, WellEncoded, Showing, Clobbers, Reads, Succs,
        Boundary, Width.Mod, Encodes, CanBeFused, AluOn, Twins;
    var op, a, code := prog[s.pc], prog[s.pc].does, CodeOf(prog);
    var ip, zero, d := s.pc + op.insn.length, s.pc in plan.zeroed, Diff(s.flags, t.flags);
    PlainArith(op, s);
    PlainArith(op, t);
    TwinsAre(s, t);
    ArithEncoded(op);
    EncodedRow(op.insn, a.op);
    NormalSuccs(op.insn, s.pc);
    AllDeadStep(code, s.pc, d, ip);
    OpHonoursRow(op, s, t);
    var f, g, x, y := Showing(s.flags), Showing(t.flags), a.x(s.rest), a.y(s.rest);
    if ReadsCarry(a.op) { SameCarry(s.flags, t.flags); }
    if !zero && InTable(a.op) { SameCarrySafe(NeededFlags(code, ip, STATUS), a.op, a.w, f, g, x, y); }
    FormStandsIn(code, ip, zero, a.op, a.w, g, x, y);
    var full, spec := AluSpec(a.op, a.w, g, x, y), Form(code, ip, zero, a.op, a.w, g, x, y);
    StandInDead(code, ip, Asked(a.op), full, spec);
    var s', mid, t' := Execute(op, s), Execute(op, t), Landed(ip, t.rest, a.put, spec);
    Joined(code, ip, s', mid, t', d - Clobbers(op.insn));
  }

  lemma ArithEncoded<R>(op: Op<R>)
    requires WellEncoded(op) && op.does.Arith?
    ensures Encodes(op.insn, op.does.op)
  {
  }

  lemma PlainArith<R>(op: Op<R>, s: State<R>)
    requires op.does.Arith?
    ensures var a := op.does;
            Execute(op, s) == Landed(s.pc + op.insn.length, s.rest, a.put,
                                     AluSpec(a.op, a.w, Showing(s.flags), a.x(s.rest), a.y(s.rest)))
  {
    hide AluSpec, View, Showing;
  }

  lemma TwinsAre<R>(s: State<R>, t: State<R>)
    requires Twins(s, t)
    ensures s.pc == t.pc && s.rest == t.rest
  {
  }

  lemma NormalSuccs(i: Insn, pc: int)
    requires IsNormal(i) && !IsJump(i) && !IsConditionalJump(i)
    ensures Succs(i, pc) == {pc + i.length}
  {
  }

  /** What stands in differs in dead flags only. */
  lemma StandInDead(code: Code, ip: int, my: set<Flag>, full: Outcome, spec: Outcome)
    requires StandsIn(NeededFlags(code, ip, my), my, full, spec)
    ensures AllDead(code, ip, Diff(View(full.flags), View(spec.flags))) && spec.value == full.value
  {
    hide View, Diff, NeededFlags, AllDead;
    if NeededFlags(code, ip, my).Some? {
      AllDeadFound(code, ip, my, Diff(View(full.flags), View(spec.flags)));
    } else {
      NoDiff(View(full.flags));
      AllDeadNone(code, ip);
    }
  }

  lemma AllDeadNone(code: Code, ip: int)
    ensures AllDead(code, ip, {})
  {
  }

  lemma Joined<R>(code: Code, ip: int, s: State<R>, mid: State<R>, t: State<R>, d: set<Flag>)
    requires Twins(s, mid) && mid.pc == t.pc == ip && mid.rest == t.rest
    requires AllDead(code, ip, d) && Diff(s.flags, mid.flags) <= d && AllDead(code, ip, Diff(mid.flags, t.flags))
    ensures Twins(s, t) && AllDead(code, ip, Diff(s.flags, t.flags)) && s.pc == ip
  {
    hide Diff, AllDead;
    Triangle(s.flags, mid.flags, t.flags);
    AllDeadUnion(code, ip, d, Diff(mid.flags, t.flags), Diff(s.flags, t.flags));
  }

  /** Any instruction the JIT leaves as it is. */
  lemma OtherStep<R(!new)>(prog: map<int, Op<R>>, plan: Plan, s: State<R>, t: State<R>)
    requires Sound(prog, plan) && s.pc in prog && !prog[s.pc].does.Arith? && Simulates(prog, s, t)
    ensures Simulates(prog, PlainStep(prog, plan, s), JitStep(prog, plan, t))
  {
    hide Diff, AllDead, WellEncoded, Clobbers, Reads, Succs, Boundary, Execute, Twins;
    var op, code, d := prog[s.pc], CodeOf(prog), Diff(s.flags, t.flags);
    TwinsAre(s, t);
    if s.pc in plan.fused { FusedInProgram(prog, plan, s.pc); }
    var next := Execute(op, s).pc;
    OpGoesTo(op, s);
    AllDeadStep(code, s.pc, d, next);
    OpHonoursRow(op, s, t);
    NotBoundary(op);
    AllDeadSub(code, next, d - Clobbers(op.insn), Diff(Execute(op, s).flags, Execute(op, t).flags));
  }

  lemma AllDeadSub(code: Code, pc: int, d: set<Flag>, e: set<Flag>)
    requires AllDead(code, pc, d) && e <= d
    ensures AllDead(code, pc, e)
  {
    hide Dead;
  }

  /** A fused pair. */
  lemma FusedStep<R(!new)>(prog: map<int, Op<R>>, plan: Plan, s: State<R>, t: State<R>)
    requires Sound(prog, plan) && s.pc in prog && s.pc in plan.fused && Simulates(prog, s, t) && SafeAt(prog, plan, s)
    ensures Simulates(prog, PlainStep(prog, plan, s), JitStep(prog, plan, t))
  {
    hide AluSpec, View, Diff, NeededFlags, AllDead, WellEncoded, Showing, StepOf, ReadJcc, Cond, Width.Mod, FusedTakes,
        Twins, Accepted, AcceptedTest;
    var fuse := plan.fused[s.pc];
    assert CanBeFused(prog, plan.host, s.pc, fuse);
    var a, ip, j, code := prog[s.pc].does, s.pc + prog[s.pc].insn.length, ReadJcc(fuse.p.value).value, CodeOf(prog);
    TwinsAre(s, t);
    assert Pair(prog, s, a.op, ip, fuse.p.value);
    PairSteps(prog, s, a.op, ip, fuse.p.value);
    var flags := View(AluSpec(a.op, a.w, Showing(s.flags), a.x(s.rest), a.y(s.rest)).flags);
    var s' := AfterBranch(ip, j, flags, s.rest);
    TakenRight(plan.host, fuse, j.cc, a, s.rest, Showing(s.flags));
    assert NeededFlags(code, s'.pc, STATUS) == Some({});
    AllStatus(Diff(flags, t.flags));
    AllDeadFound(code, s'.pc, STATUS, Diff(flags, t.flags));
    TwinsFrom(s', JitStep(prog, plan, t));
  }

  lemma TwinsFrom<R>(s: State<R>, t: State<R>)
    requires s.pc == t.pc && s.rest == t.rest
    ensures Twins(s, t)
  {
  }

  /** The native branch goes where the guest's flags would send it. */
  lemma TakenRight<R>(host: Host, fuse: Fuse, cc: nat, a: Meaning<R>, rest: R, f: Flags)
    requires a.Arith?
    requires if fuse.FuseCmp? then a.op == Cmp && Accepted(host, cc) else a.op == And && AcceptedTest(host, cc)
    requires fuse.FuseTest? ==> a.x(rest) < a.w.Mod() && a.y(rest) < a.w.Mod() && (a.x(rest) == a.y(rest) || cc < 4)
    ensures FusedTakes(host, fuse, cc, a, rest) == Cond(cc, View(AluSpec(a.op, a.w, f, a.x(rest), a.y(rest)).flags))
  {
    hide View, Cond, SubSpec, Logic, Trunc, NativeTakes, FusedTestTakes, Width.Mod, IsModulus, BitAnd;
    var m := a.w.Mod();
    if fuse.FuseCmp? {
      TruncBound(m, a.x(rest));
      TruncBound(m, a.y(rest));
      RemapPreserves(host, cc, m, Trunc(m, a.x(rest)), Trunc(m, a.y(rest)));
    } else {
      FusedTestExact(host, cc, m, a.x(rest) == a.y(rest));
      assert FusedTestTakes(host, cc, m, a.y(rest)) == GuestTestTakes(cc, m, a.x(rest), a.y(rest));
    }
  }

  /** One step of the compiled program is one or two of the plain one. */
  lemma StepSimulates<R(!new)>(prog: map<int, Op<R>>, plan: Plan, s: State<R>, t: State<R>)
    requires Sound(prog, plan) && Simulates(prog, s, t) && SafeAt(prog, plan, s)
    ensures Simulates(prog, PlainStep(prog, plan, s), JitStep(prog, plan, t))
  {
    hide SafeAt, AllDead, Form, Execute, CanBeFused, WellEncoded, Diff;
    if s.pc !in prog {
      AllDeadOutside(CodeOf(prog), s.pc, Diff(s.flags, t.flags));
      assert s.pc !in plan.fused by {
        if s.pc in plan.fused { FusedInProgram(prog, plan, s.pc); }
      }
    } else if s.pc in plan.fused {
      FusedStep(prog, plan, s, t);
    } else if prog[s.pc].does.Arith? {
      ArithStep(prog, plan, s, t);
    } else {
      OtherStep(prog, plan, s, t);
    }
  }

  lemma FusedInProgram<R(!new)>(prog: map<int, Op<R>>, plan: Plan, pc: int)
    requires Sound(prog, plan) && pc in plan.fused
    ensures pc in prog && prog[pc].does.Arith?
  {
    assert CanBeFused(prog, plan.host, pc, plan.fused[pc]);
  }

  // ----- whole runs -----

  /** For any number of steps the compiled program and the plain one agree on the program counter, registers, memory and
      every branch, and differ only in dead flags. */
  lemma {:induction false} JitRuns<R(!new)>(prog: map<int, Op<R>>, plan: Plan, s: State<R>, t: State<R>, n: nat)
    requires Sound(prog, plan) && Simulates(prog, s, t) && SafeRun(prog, plan, s, n)
    ensures Simulates(prog, Run(StepOf(prog), s, GuestSteps(prog, plan, s, n)), JitRun(prog, plan, t, n))
    decreases n
  {
    hide Sound, Simulates, SafeAt, PlainStep, JitStep, StepOf;
    if n > 0 {
      var s', t' := PlainStep(prog, plan, s), JitStep(prog, plan, t);
      StepSimulates(prog, plan, s, t);
      JitRuns(prog, plan, s', t', n - 1);
      PlainRun(prog, plan, s, GuestSteps(prog, plan, s', n - 1));
    }
  }

  lemma PlainRun<R>(prog: map<int, Op<R>>, plan: Plan, s: State<R>, m: nat)
    ensures Run(StepOf(prog), s, (if s.pc in plan.fused then 2 else 1) + m) ==
            Run(StepOf(prog), PlainStep(prog, plan, s), m)
  {
    hide StepOf;
    var step := StepOf(prog);
    RunFirst(step, s, m);
    if s.pc in plan.fused {
      RunFirst(step, s, m + 1);
      RunFirst(step, step(s), m);
    }
  }

  /** Started in the same state, the compiled program does what the plain one does. */
  lemma CompiledRuns<R(!new)>(prog: map<int, Op<R>>, plan: Plan, s: State<R>, n: nat)
    requires Sound(prog, plan) && SafeRun(prog, plan, s, n)
    ensures Twins(Run(StepOf(prog), s, GuestSteps(prog, plan, s, n)), JitRun(prog, plan, s, n))
  {
    hide Sound, SafeRun, AllDead, Run, JitRun, StepOf, GuestSteps;
    NoDiff(s.flags);
    AllDeadNone(CodeOf(prog), s.pc);
    JitRuns(prog, plan, s, s, n);
  }
}
