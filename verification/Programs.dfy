/** The rewrites put to work: in every program of ALU instructions, conditional jumps, moves and stores, and jumps, each
    of them can be applied to any instruction without changing what the program does. Nothing is assumed of the program
    but that its instructions are encoded as what they are. */
module Programs {
  import opened Bits
  import opened Flags
  import opened Alu
  import opened Deps
  import opened Liveness
  import opened Rows
  import opened Specialise
  import opened Fusion

  ghost predicate WellFormed<R>(prog: map<int, Op<R>>) {
    forall pc :: pc in prog ==> WellEncoded(prog[pc])
  }

  lemma NotBoundary<R>(op: Op<R>)
    requires WellEncoded(op)
    ensures !Boundary(op.insn)
  {
    match op.does
    case Arith(o, _, _, _, _) => EncodedRow(op.insn, o);
    case Branch(cc) => CondEncoded(op.insn, cc);
    case SetCond(cc, _) => CondEncoded(op.insn, cc);
    case Jump =>
  }

  lemma {:induction false} NeverBoundary<R>(prog: map<int, Op<R>>, s: State<R>, n: nat)
    requires WellFormed(prog)
    ensures NoBoundary(StepOf(prog), CodeOf(prog), s, n)
    decreases n
  {
    hide WellEncoded, Boundary, Execute;
    if n > 0 {
      if s.pc in prog { NotBoundary(prog[s.pc]); }
      NeverBoundary(prog, StepOf(prog)(s), n - 1);
    }
  }

  /** Dead flags never matter. */
  lemma ProgramsIgnoreDeadFlags<R(!new)>(prog: map<int, Op<R>>, s: State<R>, t: State<R>, my: set<Flag>, look: int,
                                  n: nat)
    requires WellFormed(prog) && Twins(s, t) && FoundDead(CodeOf(prog), s.pc, Diff(s.flags, t.flags), my, look)
    ensures Twins(Run(StepOf(prog), s, n), Run(StepOf(prog), t, n))
    ensures n >= look ==> Run(StepOf(prog), s, n) == Run(StepOf(prog), t, n)
  {
    hide WellEncoded, Contract, Crawl, StepOf, CodeOf, Run, NoBoundary, Diff;
    ProgramsMeetContract(prog);
    NeverBoundary(prog, s, if n < look then n else look);
    DeadFlags(StepOf(prog), CodeOf(prog), s, t, my, look, n);
  }

  lemma RunFirst<R>(step: State<R> -> State<R>, s: State<R>, n: nat)
    ensures Run(step, s, n + 1) == Run(step, step(s), n)
  {
  }

  /** The state after the ALU instruction at s.pc in the form the JIT emits for it. */
  function EmittedStep<R>(prog: map<int, Op<R>>, s: State<R>): State<R>
    requires s.pc in prog && prog[s.pc].does.Arith? && InTable(prog[s.pc].does.op)
    requires prog[s.pc].does.x(s.rest) < prog[s.pc].does.w.Mod()
  {
    var a, ip := prog[s.pc].does, s.pc + prog[s.pc].insn.length;
    var needed := NeededFlags(CodeOf(prog), ip, STATUS);
    Landed(ip, s.rest, a.put, Emitted(Choose(needed), a.op, a.w, Showing(s.flags), a.x(s.rest), a.y(s.rest)))
  }

  /** Emitting the specialised form of any ALU instruction of a program leaves its run as it was. */
  lemma SpecialisedPrograms<R(!new)>(prog: map<int, Op<R>>, s: State<R>, n: nat)
    requires WellFormed(prog) && s.pc in prog && prog[s.pc].does.Arith? && InTable(prog[s.pc].does.op)
    requires prog[s.pc].does.x(s.rest) < prog[s.pc].does.w.Mod()
    requires var a, ip := prog[s.pc].does, s.pc + prog[s.pc].insn.length;
             CarrySafe(NeededFlags(CodeOf(prog), ip, STATUS), a.op, a.w, Showing(s.flags), a.x(s.rest), a.y(s.rest))
    ensures Twins(Run(StepOf(prog), s, n + 1), Run(StepOf(prog), EmittedStep(prog, s), n))
    ensures n >= 32 ==> Run(StepOf(prog), s, n + 1) == Run(StepOf(prog), EmittedStep(prog, s), n)
  {
    hide WellEncoded, Contract, Run, NoBoundary, CodeOf, NeededFlags, CarrySafe, AluSpec, Emitted, View, Width.Mod,
        Showing;
    var a, ip, step, code := prog[s.pc].does, s.pc + prog[s.pc].insn.length, StepOf(prog), CodeOf(prog);
    var f, x, y := Showing(s.flags), a.x(s.rest), a.y(s.rest);
    assert step(s) == Landed(ip, s.rest, a.put, AluSpec(a.op, a.w, f, x, y));
    hide StepOf;
    RunFirst(step, s, n);
    ProgramsMeetContract(prog);
    NeverBoundary(prog, step(s), if n < 32 then n else 32);
    SpecialisedRuns(step, code, ip, s.rest, a.put, a.op, a.w, f, x, y, n);
  }

  /** A CMP or TEST at s.pc, which stores nothing, and behind it the instruction that the bytes p decode to. */
  ghost predicate Pair<R>(prog: map<int, Op<R>>, s: State<R>, op: AluOp, ip: int, p: seq<nat>) {
    && s.pc in prog && prog[s.pc].does.Arith? && prog[s.pc].does.op == op && s.pc + prog[s.pc].insn.length == ip
    && (forall v: u64 :: prog[s.pc].does.put(s.rest, v) == s.rest)
    && |p| >= 6 && ip in prog && Decodes(p, prog[ip].insn)
  }

  /** If the fusion code reads a jump from the bytes at ip, the program has that jump there. */
  lemma JumpThere<R>(prog: map<int, Op<R>>, ip: int, p: seq<nat>)
    requires WellFormed(prog) && ip in prog && |p| >= 6 && Decodes(p, prog[ip].insn) && ReadJcc(p).Some?
    ensures var j := ReadJcc(p).value;
            prog[ip].does == Branch(j.cc) && prog[ip].insn.length == j.length && prog[ip].insn.disp == j.disp
  {
    hide ReadJcc, JumpText;
    var op := prog[ip];
    ReadsOnlyJumps(p);
    ReadBack(p, op.insn);
    match op.does
    case Arith(o, _, _, _, _) => EncodedRow(op.insn, o);
    case Branch(cc) =>
    case SetCond(cc, _) => CondEncoded(op.insn, cc);
    case Jump =>
  }

  /** Two steps through such a pair. */
  lemma PairSteps<R>(prog: map<int, Op<R>>, s: State<R>, op: AluOp, ip: int, p: seq<nat>)
    requires WellFormed(prog) && Pair(prog, s, op, ip, p) && ReadJcc(p).Some?
    ensures var a, j := prog[s.pc].does, ReadJcc(p).value;
            var flags := View(AluSpec(op, a.w, Showing(s.flags), a.x(s.rest), a.y(s.rest)).flags);
            StepOf(prog)(StepOf(prog)(s)) == AfterBranch(ip, j, flags, s.rest)
  {
    hide AluSpec, View, Cond, Showing, ReadJcc, Decodes, WellEncoded;
    JumpThere(prog, ip, p);
  }

  /** Fusing any compare of a program with the jump behind it leaves its run as it was. */
  lemma FusedPrograms<R(!new)>(prog: map<int, Op<R>>, s: State<R>, host: Host, ip: int, p: Option<seq<nat>>, n: nat)
    requires WellFormed(prog) && s.pc in prog && prog[s.pc].does.Arith?
    requires CanFuse(host, prog[s.pc].does.w, ip, p, CodeOf(prog)) && Pair(prog, s, Cmp, ip, p.value)
    ensures var a, j, m := prog[s.pc].does, ReadJcc(p.value).value, prog[s.pc].does.w.Mod();
            var taken := NativeTakes(host, j.cc, m, Trunc(m, a.x(s.rest)), Trunc(m, a.y(s.rest)));
            var t := State(Target(ip, j, taken), s.flags, s.rest);
            && Twins(Run(StepOf(prog), s, n + 2), Run(StepOf(prog), t, n))
            && (n >= 32 ==> Run(StepOf(prog), s, n + 2) == Run(StepOf(prog), t, n))
  {
    hide WellEncoded, Contract, Run, NoBoundary, CodeOf, NeededFlags, View, Width.Mod, Showing, NativeTakes, Cond,
        SubSpec, Trunc;
    hide Pair, StepOf, IsModulus, ReadJcc;
    var a, j, m, step := prog[s.pc].does, ReadJcc(p.value).value, prog[s.pc].does.w.Mod(), StepOf(prog);
    var x, y := Trunc(m, a.x(s.rest)), Trunc(m, a.y(s.rest));
    TruncBound(m, a.x(s.rest));
    TruncBound(m, a.y(s.rest));
    PairSteps(prog, s, Cmp, ip, p.value);
    RunFirst(step, s, n + 1);
    RunFirst(step, step(s), n);
    ProgramsMeetContract(prog);
    NeverBoundary(prog, AfterJump(m, ip, j, x, y, s.rest), if n < 32 then n else 32);
    FusedRuns(step, CodeOf(prog), host, a.w, ip, p, x, y, s.flags, s.rest, n);
  }

  lemma TruncBound(m: int, x: int)
    requires IsModulus(m)
    ensures 0 <= Trunc(m, x) < m
  {
  }

  /** Fusing a test of a register with itself leaves the run as it was; a memory operand does when the jump is on CF or
      OF. */
  lemma FusedTestPrograms<R(!new)>(prog: map<int, Op<R>>, s: State<R>, host: Host, reg: nat, rm: nat, regForm: bool,
                                   ip: int, p: Option<seq<nat>>, n: nat)
    requires WellFormed(prog) && s.pc in prog && prog[s.pc].does.Arith?
    requires CanFuseTest(host, prog[s.pc].does.w, reg, rm, ip, p, CodeOf(prog)) &&
             Pair(prog, s, And, ip, p.value)
    requires var a, m := prog[s.pc].does, prog[s.pc].does.w.Mod();
             a.x(s.rest) < m && a.y(s.rest) < m && (regForm ==> a.x(s.rest) == a.y(s.rest))
    requires regForm || ReadJcc(p.value).value.cc < 4
    ensures var a, j, m := prog[s.pc].does, ReadJcc(p.value).value, prog[s.pc].does.w.Mod();
            var t := State(Target(ip, j, FusedTestTakes(host, j.cc, m, a.y(s.rest))), s.flags, s.rest);
            && Twins(Run(StepOf(prog), s, n + 2), Run(StepOf(prog), t, n))
            && (n >= 32 ==> Run(StepOf(prog), s, n + 2) == Run(StepOf(prog), t, n))
  {
    hide WellEncoded, Contract, Run, NoBoundary, CodeOf, NeededFlags, View, Width.Mod, Showing, FusedTestTakes, Cond,
        Logic, BitAnd;
    hide Pair, StepOf, IsModulus, ReadJcc, AcceptedTest;
    var a, j, m, step := prog[s.pc].does, ReadJcc(p.value).value, prog[s.pc].does.w.Mod(), StepOf(prog);
    var x, y := a.x(s.rest), a.y(s.rest);
    PairSteps(prog, s, And, ip, p.value);
    RunFirst(step, s, n + 1);
    RunFirst(step, step(s), n);
    ProgramsMeetContract(prog);
    NeverBoundary(prog, AfterTest(m, ip, j, x, y, s.rest), if n < 32 then n else 32);
    FusedTestRuns(step, CodeOf(prog), host, a.w, reg, rm, regForm, ip, p, y, x, s.flags, s.rest, n);
  }
}
