/** What the liveness answer licenses. Guest execution is an abstract step function over (pc, status flags,
    everything else). If two states differ only in flags that the walk did not find needed, they stay equal
    in everything else for ever, take the same branches, and are fully equal once the fuel's worth of
    instructions has run. */
module Liveness {
  import opened Flags
  import opened Deps

  datatype State<R> = State(pc: int, flags: set<Flag>, rest: R)

  function Diff(a: set<Flag>, b: set<Flag>): set<Flag> {
    (a - b) + (b - a)
  }

  lemma AllStatus(d: set<Flag>)
    ensures d <= STATUS
  {
    forall f | f in d ensures f in STATUS {
      match f
      case CF =>
      case PF =>
      case AF =>
      case ZF =>
      case SF =>
      case OF =>
    }
  }

  /** Equal but for the flags. */
  ghost predicate Twins<R>(s: State<R>, t: State<R>) {
    s.pc == t.pc && s.rest == t.rest
  }

  function Run<R>(step: State<R> -> State<R>, s: State<R>, n: nat): State<R>
    decreases n
  {
    if n == 0 then s else Run(step, step(s), n - 1)
  }

  /** The table row is honest about one execution: flags outside `Reads` influence nothing but themselves, and
      flags in `Clobbers` end up independent of their old values. Rows that return -1 promise only the first part. */
  ghost predicate RowHolds<R>(step: State<R> -> State<R>, i: Insn, s: State<R>, t: State<R>) {
    Twins(s, t) && Diff(s.flags, t.flags) !! Reads(i) ==>
      && Twins(step(s), step(t))
      && Diff(step(s).flags, step(t).flags) <= Diff(s.flags, t.flags) - (if Boundary(i) then {} else Clobbers(i))
  }

  /** A step goes where the encoding of the instruction says. */
  ghost predicate GoesTo<R>(step: State<R> -> State<R>, i: Insn, s: State<R>) {
    Succs(i, s.pc) != {} ==> step(s).pc in Succs(i, s.pc)
  }

  /** Every instruction of the program meets its table rows and goes where its encoding says. */
  ghost predicate Contract<R(!new)>(step: State<R> -> State<R>, code: Code) {
    && (forall s: State<R>, t: State<R> :: s.pc in code ==> RowHolds(step, code[s.pc], s, t))
    && (forall s: State<R> :: s.pc in code ==> GoesTo(step, code[s.pc], s))
  }

  /** The instruction at s.pc meets its rows in these two states, and goes where its encoding says. */
  ghost predicate HonestAt<R>(step: State<R> -> State<R>, code: Code, s: State<R>, t: State<R>) {
    s.pc in code ==> RowHolds(step, code[s.pc], s, t) && GoesTo(step, code[s.pc], s)
  }

  /** So do the first n instructions of these two runs. A shift does when its count is not zero. */
  ghost predicate HonestRun<R>(step: State<R> -> State<R>, code: Code, s: State<R>, t: State<R>, n: nat)
    decreases n
  {
    n == 0 || (HonestAt(step, code, s, t) && HonestRun(step, code, step(s), step(t), n - 1))
  }

  lemma {:induction false} ContractIsHonest<R(!new)>(step: State<R> -> State<R>, code: Code, s: State<R>, t: State<R>,
                                                     n: nat)
    requires Contract(step, code)
    ensures HonestRun(step, code, s, t, n)
    decreases n
  {
    hide RowHolds, GoesTo;
    if n > 0 { ContractIsHonest(step, code, step(s), step(t), n - 1); }
  }

  /** No call, return or system call among the first n instructions executed. */
  ghost predicate NoBoundary<R>(step: State<R> -> State<R>, code: Code, s: State<R>, n: nat)
    decreases n
  {
    n == 0 || (!(s.pc in code && Boundary(code[s.pc])) && NoBoundary(step, code, step(s), n - 1))
  }

  lemma SameState<R>(s: State<R>, t: State<R>)
    requires Twins(s, t) && Diff(s.flags, t.flags) == {}
    ensures s == t
  {
    assert s.flags - t.flags == {} && t.flags - s.flags == {};
    assert forall f :: f in s.flags <==> f in t.flags;
  }

  /** The walk from pc answered, and found none of the flags d needed. */
  ghost predicate FoundDead(code: Code, pc: int, d: set<Flag>, my: set<Flag>, look: int) {
    look >= 1 && Crawl(code, pc, my, look).Some? && d <= my - Crawl(code, pc, my, look).value
  }

  lemma NoDiff(a: set<Flag>)
    ensures Diff(a, a) == {}
  {
  }

  /** One instruction: the difference shrinks by what is clobbered, and the walk's answer carries over. */
  lemma Advance<R>(step: State<R> -> State<R>, code: Code, s: State<R>, t: State<R>, my: set<Flag>, look: int)
    requires HonestAt(step, code, s, t) && Twins(s, t)
    requires FoundDead(code, s.pc, Diff(s.flags, t.flags), my, look)
    requires s.pc in code && !Boundary(code[s.pc])
    ensures Twins(step(s), step(t)) && Diff(step(s).flags, step(t).flags) <= Diff(s.flags, t.flags)
    ensures var live := my - Clobbers(code[s.pc]);
            if live == {} then Diff(step(s).flags, step(t).flags) == {}
            else FoundDead(code, step(s).pc, Diff(step(s).flags, step(t).flags), live, look - 1)
  {
    hide Clobbers, Reads, Boundary, IsNormal, IsJump, IsConditionalJump, Diff;
    var i := code[s.pc];
    var d := Diff(s.flags, t.flags);
    assert d !! Reads(i) by {
      assert Reads(i) * my <= Crawl(code, s.pc, my, look).value;
      assert forall f :: f in d ==> f in my && f !in Reads(i) * my;
    }
    assert RowHolds(step, i, s, t);
    var live := my - Clobbers(i);
    if live != {} {
      assert Succs(i, s.pc) != {};
      assert GoesTo(step, i, s);
    }
  }

  /** Dead flags do not matter: over any number of steps the two runs agree on the program counter, registers, memory
      and every branch, differ at most in flags that already differed, and are equal after `look` steps, provided the
      rows are honest along them. */
  lemma {:induction false} DeadFlagsOnRuns<R>(step: State<R> -> State<R>, code: Code, s: State<R>, t: State<R>,
                                              my: set<Flag>, look: int, n: nat)
    requires Twins(s, t) && FoundDead(code, s.pc, Diff(s.flags, t.flags), my, look)
    requires HonestRun(step, code, s, t, if n < look then n else look)
    requires NoBoundary(step, code, s, if n < look then n else look)
    ensures Twins(Run(step, s, n), Run(step, t, n))
    ensures Diff(Run(step, s, n).flags, Run(step, t, n).flags) <= Diff(s.flags, t.flags)
    ensures n >= look ==> Run(step, s, n) == Run(step, t, n)
    decreases n
  {
    assert s.pc in code && look >= 1;
    hide Clobbers, Boundary, HonestAt, FoundDead, Diff;
    if Diff(s.flags, t.flags) == {} {
      SameState(s, t);
      NoDiff(Run(step, s, n).flags);
    } else if n > 0 {
      Advance(step, code, s, t, my, look);
      var live := my - Clobbers(code[s.pc]);
      if live == {} {
        SameState(step(s), step(t));
        NoDiff(Run(step, s, n).flags);
      } else {
        DeadFlagsOnRuns(step, code, step(s), step(t), live, look - 1, n - 1);
      }
    }
  }

  /** For every program that meets the contract. */
  lemma DeadFlags<R(!new)>(step: State<R> -> State<R>, code: Code, s: State<R>, t: State<R>, my: set<Flag>, look: int,
                           n: nat)
    requires Contract(step, code) && Twins(s, t)
    requires FoundDead(code, s.pc, Diff(s.flags, t.flags), my, look)
    requires NoBoundary(step, code, s, if n < look then n else look)
    ensures Twins(Run(step, s, n), Run(step, t, n))
    ensures Diff(Run(step, s, n).flags, Run(step, t, n).flags) <= Diff(s.flags, t.flags)
    ensures n >= look ==> Run(step, s, n) == Run(step, t, n)
  {
    hide Contract, HonestRun, Crawl, Diff, NoBoundary, Run;
    ContractIsHonest(step, code, s, t, if n < look then n else look);
    DeadFlagsOnRuns(step, code, s, t, my, look, n);
  }

  lemma {:induction false} RunSplit<R>(step: State<R> -> State<R>, s: State<R>, n: nat)
    ensures Run(step, s, n + 1) == step(Run(step, s, n))
    decreases n
  {
    if n > 0 { RunSplit(step, step(s), n - 1); }
  }

  /** Up to and including the first call, return or system call, nothing but dead flags differs. What the other
      side does with them is a matter of calling convention, which the emulator relies on. */
  lemma DeadFlagsAtBoundary<R(!new)>(step: State<R> -> State<R>, code: Code, s: State<R>, t: State<R>,
                                     my: set<Flag>, look: int, n: nat)
    requires Contract(step, code) && Twins(s, t)
    requires FoundDead(code, s.pc, Diff(s.flags, t.flags), my, look)
    requires NoBoundary(step, code, s, n)
    requires Run(step, s, n).pc in code && Boundary(code[Run(step, s, n).pc])
    ensures Twins(Run(step, s, n + 1), Run(step, t, n + 1))
    ensures Diff(Run(step, s, n + 1).flags, Run(step, t, n + 1).flags) <= Diff(s.flags, t.flags)
  {
    assert look >= 1;
    NoBoundaryPrefix(step, code, s, n, if n < look then n else look);
    DeadFlags(step, code, s, t, my, look, n);
    RunSplit(step, s, n);
    RunSplit(step, t, n);
    var a, b := Run(step, s, n), Run(step, t, n);
    BoundariesReadNothing(code[a.pc]);
    assert RowHolds(step, code[a.pc], a, b);
  }

  lemma {:induction false} NoBoundaryPrefix<R>(step: State<R> -> State<R>, code: Code, s: State<R>, n: nat, k: nat)
    requires k <= n && NoBoundary(step, code, s, n)
    ensures NoBoundary(step, code, s, k)
    decreases k
  {
    if k > 0 { NoBoundaryPrefix(step, code, step(s), n - 1, k - 1); }
  }

  lemma BoundariesReadNothing(i: Insn)
    requires Boundary(i)
    ensures Reads(i) == {}
  {
  }
}
