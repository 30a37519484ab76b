/** LOCK-prefixed read-modify-write (blink/alu2.c, blink/alui.c, blink/alu1.c): load the word, compute, and try to
    compare-exchange, retrying with the value found. Any number of threads, any interleaving, weak exchanges that may
    fail for no reason. One aligned word of width w; each action below is one atomic access or one private computation.
    */
module LockedRmw {
  import opened Bits
  import opened Flags
  import opened Alu
  import opened Rows

  /** What a thread is asked to do: the operation, its register or immediate operand, and its flags beforehand. */
  datatype Job = Job(op: AluOp, y: u64, flags: Flags)

  datatype Phase = Start | Loaded | Computed | Done

  /** A thread's locals: the expected value x, the replacement z, and its own flags register; `seen` is what the flags
      were when z was last computed. */
  datatype Thread = Thread(phase: Phase, x: u64, z: u64, flags: Flags, seen: Flags)

  /** `order` lists the finished threads in the order of their successful exchanges. */
  datatype Sys = Sys(mem: u64, threads: seq<Thread>, order: seq<nat>)

  datatype Action = Load(i: nat) | Compute(i: nat) | Exchange(i: nat) | Fail(i: nat)

  predicate Enabled(s: Sys, a: Action) {
    a.i < |s.threads| &&
    match a
    case Load(i) => s.threads[i].phase == Start
    case Compute(i) => s.threads[i].phase == Loaded
    case Exchange(i) => s.threads[i].phase == Computed && s.mem == s.threads[i].x
    case Fail(i) => s.threads[i].phase == Computed
  }

  function Step(w: Width, jobs: seq<Job>, s: Sys, a: Action): Sys
    requires |jobs| == |s.threads| && Enabled(s, a)
  {
    var t := s.threads[a.i];
    match a
    case Load(i) => s.(threads := s.threads[i := t.(phase := Loaded, x := s.mem)])
    case Compute(i) =>
      var r := AluSpec(jobs[i].op, w, t.flags, t.x, jobs[i].y);
      s.(threads := s.threads[i := t.(phase := Computed, z := r.value, flags := r.flags, seen := t.flags)])
    case Exchange(i) => Sys(t.z, s.threads[i := t.(phase := Done)], s.order + [i])
    case Fail(i) => s.(threads := s.threads[i := t.(phase := Loaded, x := s.mem)])
  }

  ghost predicate Initial(w: Width, jobs: seq<Job>, s: Sys) {
    && |s.threads| == |jobs| && s.order == [] && s.mem < w.Mod()
    && forall i :: 0 <= i < |jobs| ==> s.threads[i].phase == Start && s.threads[i].flags == jobs[i].flags
  }

  ghost predicate IsRun(w: Width, jobs: seq<Job>, run: seq<Sys>, acts: seq<Action>) {
    && |run| == |acts| + 1 && Initial(w, jobs, run[0])
    && (forall k :: 0 <= k < |run| ==> |run[k].threads| == |jobs|)
    && forall k :: 0 <= k < |acts| ==> Enabled(run[k], acts[k]) && run[k + 1] == Step(w, jobs, run[k], acts[k])
  }

  // ----- the specification: one operation at a time -----

  /** The word after the jobs in `order` ran one after the other, each with the flags it started with. */
  function Fold(w: Width, jobs: seq<Job>, mem: u64, order: seq<nat>): u64
    requires forall k :: 0 <= k < |order| ==> order[k] < |jobs|
  {
    if order == [] then mem
    else
      var j := jobs[order[|order| - 1]];
      AluSpec(j.op, w, j.flags, Fold(w, jobs, mem, order[..|order| - 1]), j.y).value
  }

  // ----- retries -----

  /** All that an operation other than ADC and SBB can see of the flags is as it was at the start. */
  predicate Intact(j: Job, f: Flags) {
    && (j.op.Not? ==> f == j.flags)
    && (j.op.Inc? || j.op.Dec? ==> f.cf == j.flags.cf)
  }

  /** The operation saw the carry it was meant to see, if it looks. */
  predicate SawCarry(j: Job, seen: Flags) {
    ReadsCarry(j.op) ==> seen.cf == j.flags.cf
  }

  /** An attempt computes what a first attempt would exactly when it saw the right carry or does not look, and an
      operation that does not look leaves the next attempt as good. */
  lemma IntactApply(w: Width, j: Job, f: Flags, x: u64)
    requires Intact(j, f)
    ensures AluSpec(j.op, w, f, x, j.y) == AluSpec(j.op, w, j.flags, x, j.y) <==> SawCarry(j, f)
    ensures Intact(j, AluSpec(j.op, w, f, x, j.y).flags)
  {
    AluUsesCarry(j.op, w, f, j.flags, x, j.y);
    if !SawCarry(j, f) { OtherCarry(w, j, f, x); }
    hide AluSpec;
  }

  lemma OtherCarry(w: Width, j: Job, f: Flags, x: u64)
    requires !SawCarry(j, f)
    ensures AluSpec(j.op, w, f, x, j.y) != AluSpec(j.op, w, j.flags, x, j.y)
  {
    SumFields(j.op, w, f, x, j.y);
    SumFields(j.op, w, j.flags, x, j.y);
    hide AluSpec, Trunc, Width.Mod;
    assert Carry(f) != Carry(j.flags);
  }

  /** The carry or borrow out of an attempt on x, from its operands. */
  predicate CarryOut(w: Width, j: Job, x: u64) {
    var m, c := w.Mod(), CarryIn(j.op, j.flags);
    if j.op.Adc? then Trunc(m, x) + Trunc(m, j.y) + c >= m else Trunc(m, x) - Trunc(m, j.y) - c < 0
  }

  /** A second attempt sees the flags of the first. It computes what a first attempt would exactly when the operation is
      neither ADC nor SBB, or the carry out of the failed attempt is the carry it went in with. */
  lemma RetryExact(w: Width, j: Job, x1: u64, x2: u64)
    ensures var f := AluSpec(j.op, w, j.flags, x1, j.y).flags;
            AluSpec(j.op, w, f, x2, j.y) == AluSpec(j.op, w, j.flags, x2, j.y) <==>
                !ReadsCarry(j.op) || CarryOut(w, j, x1) == j.flags.cf
  {
    hide AluSpec, Trunc, Width.Mod;
    var f := AluSpec(j.op, w, j.flags, x1, j.y).flags;
    IntactApply(w, j, j.flags, x1);
    IntactApply(w, j, f, x2);
    if ReadsCarry(j.op) { SumFields(j.op, w, j.flags, x1, j.y); }
  }

  // ----- every run, whatever the operations -----

  /** The word after the jobs in `order` ran one after the other, each with the flags its last attempt saw. */
  function SeenFold(w: Width, jobs: seq<Job>, threads: seq<Thread>, mem: u64, order: seq<nat>): u64
    requires |threads| == |jobs| && forall k :: 0 <= k < |order| ==> order[k] < |jobs|
  {
    if order == [] then mem
    else
      var n := |order| - 1;
      AluSpec(jobs[order[n]].op, w, threads[order[n]].seen, SeenFold(w, jobs, threads, mem, order[..n]),
          jobs[order[n]].y).value
  }

  ghost predicate ThreadOk(w: Width, j: Job, t: Thread) {
    match t.phase
    case Start => t.flags == j.flags
    case Loaded => Intact(j, t.flags)
    case Computed =>
      Intact(j, t.seen) && Intact(j, t.flags) && Outcome(t.z, t.flags) == AluSpec(j.op, w, t.seen, t.x, j.y)
    case Done => Intact(j, t.seen)
  }

  ghost predicate InOrder(jobs: seq<Job>, s: Sys) {
    && |s.threads| == |jobs| && (forall k :: 0 <= k < |s.order| ==> s.order[k] < |jobs|)
    && (forall i :: 0 <= i < |jobs| ==> (s.threads[i].phase == Done <==> i in s.order))
    && (forall j, k :: 0 <= j < k < |s.order| ==> s.order[j] != s.order[k])
  }

  /** The k-th thread to finish replaced the value left by the first k, and holds the outcome of its operation on it
      with the flags it saw. */
  ghost predicate SeenOk(w: Width, jobs: seq<Job>, mem0: u64, s: Sys, k: nat)
    requires InOrder(jobs, s) && k < |s.order|
  {
    var t := s.threads[s.order[k]];
    && t.x == SeenFold(w, jobs, s.threads, mem0, s.order[..k])
    && Outcome(t.z, t.flags) == AluSpec(jobs[s.order[k]].op, w, t.seen, t.x, jobs[s.order[k]].y)
  }

  ghost predicate Inv(w: Width, jobs: seq<Job>, mem0: u64, s: Sys) {
    && InOrder(jobs, s) && s.mem == SeenFold(w, jobs, s.threads, mem0, s.order)
    && (forall i :: 0 <= i < |jobs| ==> ThreadOk(w, jobs[i], s.threads[i]))
    && (forall k :: 0 <= k < |s.order| ==> SeenOk(w, jobs, mem0, s, k))
  }

  /** Only what the finished threads saw matters. */
  lemma {:induction false} SameFold(w: Width, jobs: seq<Job>, ts: seq<Thread>, ts': seq<Thread>, mem: u64,
                                    order: seq<nat>)
    requires |ts| == |ts'| == |jobs| && forall k :: 0 <= k < |order| ==> order[k] < |jobs|
    requires forall k :: 0 <= k < |order| ==> ts[order[k]].seen == ts'[order[k]].seen
    ensures SeenFold(w, jobs, ts, mem, order) == SeenFold(w, jobs, ts', mem, order)
    decreases |order|
  {
    hide AluSpec;
    if order != [] { SameFold(w, jobs, ts, ts', mem, order[..|order| - 1]); }
  }

  /** A step that leaves the finished threads alone leaves what is known of them. */
  lemma OthersKept(w: Width, jobs: seq<Job>, mem0: u64, s: Sys, s': Sys, k: nat)
    requires InOrder(jobs, s) && InOrder(jobs, s') && k < |s.order| <= |s'.order| && s'.order[..|s.order|] == s.order
    requires SeenOk(w, jobs, mem0, s, k)
    requires forall i :: 0 <= i < |jobs| && i in s.order ==> s'.threads[i] == s.threads[i]
    ensures SeenOk(w, jobs, mem0, s', k)
  {
    hide AluSpec, SeenFold;
    assert s'.order[k] == s.order[k] && s'.order[..k] == s.order[..k];
    SameFold(w, jobs, s.threads, s'.threads, mem0, s.order[..k]);
  }

  lemma PrivateStep(w: Width, jobs: seq<Job>, mem0: u64, s: Sys, a: Action)
    requires Inv(w, jobs, mem0, s) && Enabled(s, a) && !a.Exchange?
    ensures Inv(w, jobs, mem0, Step(w, jobs, s, a))
  {
    hide AluSpec, SeenFold, Intact, SeenOk;
    var s', t := Step(w, jobs, s, a), s.threads[a.i];
    assert a.i !in s.order && ThreadOk(w, jobs[a.i], t);
    StartIntact(jobs[a.i]);
    if t.phase.Loaded? { IntactApply(w, jobs[a.i], t.flags, t.x); }
    assert InOrder(jobs, s') && s'.order[..|s.order|] == s.order;
    SameFold(w, jobs, s.threads, s'.threads, mem0, s.order);
    forall k | 0 <= k < |s'.order| ensures SeenOk(w, jobs, mem0, s', k) { OthersKept(w, jobs, mem0, s, s', k); }
  }

  lemma StartIntact(j: Job)
    ensures Intact(j, j.flags)
  {
  }

  lemma ExchangeStep(w: Width, jobs: seq<Job>, mem0: u64, s: Sys, a: Action)
    requires Inv(w, jobs, mem0, s) && Enabled(s, a) && a.Exchange?
    ensures Inv(w, jobs, mem0, Step(w, jobs, s, a))
  {
    hide AluSpec, Intact, SeenOk, SeenFold;
    var s', n := Step(w, jobs, s, a), |s.order|;
    assert a.i !in s.order && ThreadOk(w, jobs[a.i], s.threads[a.i]);
    assert s'.order[..n] == s.order && InOrder(jobs, s');
    SameFold(w, jobs, s.threads, s'.threads, mem0, s.order);
    FoldAppend(w, jobs, s'.threads, mem0, s.order, a.i);
    forall k | 0 <= k < |s'.order| ensures SeenOk(w, jobs, mem0, s', k) {
      if k < n { OthersKept(w, jobs, mem0, s, s', k); } else { LastSeen(w, jobs, mem0, s', n); }
    }
  }

  lemma LastSeen(w: Width, jobs: seq<Job>, mem0: u64, s: Sys, n: nat)
    requires InOrder(jobs, s) && n < |s.order|
    requires var t := s.threads[s.order[n]];
             && t.x == SeenFold(w, jobs, s.threads, mem0, s.order[..n])
             && Outcome(t.z, t.flags) == AluSpec(jobs[s.order[n]].op, w, t.seen, t.x, jobs[s.order[n]].y)
    ensures SeenOk(w, jobs, mem0, s, n)
  {
  }

  lemma FoldAppend(w: Width, jobs: seq<Job>, threads: seq<Thread>, mem: u64, order: seq<nat>, i: nat)
    requires i < |jobs| == |threads| && forall k :: 0 <= k < |order| ==> order[k] < |jobs|
    ensures SeenFold(w, jobs, threads, mem, order + [i])
            == AluSpec(jobs[i].op, w, threads[i].seen, SeenFold(w, jobs, threads, mem, order), jobs[i].y).value
  {
    hide AluSpec;
    assert (order + [i])[..|order|] == order;
  }

  /** In every run of any operations, ADC and SBB included: memory is the fold of the finished operations in completion
      order, each with the flags its last attempt saw, and each finished thread holds that operation's outcome on the
      value it replaced. */
  lemma {:induction false} RunsFold(w: Width, jobs: seq<Job>, run: seq<Sys>, acts: seq<Action>, k: nat)
    requires IsRun(w, jobs, run, acts) && k < |run|
    ensures Inv(w, jobs, run[0].mem, run[k])
  {
    if k > 0 {
      RunsFold(w, jobs, run, acts, k - 1);
      if acts[k - 1].Exchange? {
        ExchangeStep(w, jobs, run[0].mem, run[k - 1], acts[k - 1]);
      } else {
        PrivateStep(w, jobs, run[0].mem, run[k - 1], acts[k - 1]);
      }
    }
  }

  // ----- when that is one operation at a time -----

  /** The k-th thread to finish replaced the value left by the first k done one at a time, and holds what its operation
      makes of it. */
  ghost predicate FinishedOk(w: Width, jobs: seq<Job>, mem0: u64, s: Sys, k: nat)
    requires InOrder(jobs, s) && k < |s.order|
  {
    var i := s.order[k];
    var before := Fold(w, jobs, mem0, s.order[..k]);
    && s.threads[i].x == before
    && Outcome(s.threads[i].z, s.threads[i].flags) == AluSpec(jobs[i].op, w, jobs[i].flags, before, jobs[i].y)
  }

  /** The law of locked operations: memory is the fold of the finished ones, and each finished thread has its
      outcome. */
  ghost predicate Atomic(w: Width, jobs: seq<Job>, mem0: u64, s: Sys) {
    && InOrder(jobs, s) && s.mem == Fold(w, jobs, mem0, s.order)
    && forall k :: 0 <= k < |s.order| ==> FinishedOk(w, jobs, mem0, s, k)
  }

  /** Every finished ADC and SBB saw its own carry in its last attempt. */
  ghost predicate AllSawCarry(jobs: seq<Job>, s: Sys)
    requires |s.threads| == |jobs|
  {
    forall i :: 0 <= i < |jobs| && i in s.order ==> SawCarry(jobs[i], s.threads[i].seen)
  }

  lemma {:induction false} SawFold(w: Width, jobs: seq<Job>, ts: seq<Thread>, mem: u64, order: seq<nat>)
    requires |ts| == |jobs| && forall k :: 0 <= k < |order| ==> order[k] < |jobs|
    requires forall k :: 0 <= k < |order| ==>
               Intact(jobs[order[k]], ts[order[k]].seen) && SawCarry(jobs[order[k]], ts[order[k]].seen)
    ensures SeenFold(w, jobs, ts, mem, order) == Fold(w, jobs, mem, order)
    decreases |order|
  {
    hide AluSpec, Intact, SawCarry;
    if order != [] {
      var n := |order| - 1;
      SawFold(w, jobs, ts, mem, order[..n]);
      IntactApply(w, jobs[order[n]], ts[order[n]].seen, Fold(w, jobs, mem, order[..n]));
    }
  }

  lemma DoneIntact(w: Width, jobs: seq<Job>, mem0: u64, s: Sys, k: nat)
    requires Inv(w, jobs, mem0, s) && k < |s.order|
    ensures s.order[k] < |jobs| && s.order[k] in s.order && Intact(jobs[s.order[k]], s.threads[s.order[k]].seen)
    ensures SeenOk(w, jobs, mem0, s, k)
  {
    hide AluSpec, SeenFold, SeenOk, Intact;
    assert ThreadOk(w, jobs[s.order[k]], s.threads[s.order[k]]) && s.order[k] in s.order;
  }

  lemma SawMeansAtomic(w: Width, jobs: seq<Job>, mem0: u64, s: Sys)
    requires Inv(w, jobs, mem0, s) && AllSawCarry(jobs, s)
    ensures Atomic(w, jobs, mem0, s)
  {
    hide AluSpec, SeenFold, Fold, Intact, SawCarry;
    forall k | 0 <= k < |s.order|
      ensures Intact(jobs[s.order[k]], s.threads[s.order[k]].seen) &&
              SawCarry(jobs[s.order[k]], s.threads[s.order[k]].seen)
    {
      DoneIntact(w, jobs, mem0, s, k);
    }
    SawFold(w, jobs, s.threads, mem0, s.order);
    forall k | 0 <= k < |s.order| ensures FinishedOk(w, jobs, mem0, s, k) {
      DoneIntact(w, jobs, mem0, s, k);
      SawFold(w, jobs, s.threads, mem0, s.order[..k]);
      IntactApply(w, jobs[s.order[k]], s.threads[s.order[k]].seen, s.threads[s.order[k]].x);
    }
  }

  lemma AtomicMeansSaw(w: Width, jobs: seq<Job>, mem0: u64, s: Sys)
    requires Inv(w, jobs, mem0, s) && Atomic(w, jobs, mem0, s)
    ensures AllSawCarry(jobs, s)
  {
    hide AluSpec, SeenFold, Fold, Intact, SawCarry;
    forall i | 0 <= i < |jobs| && i in s.order ensures SawCarry(jobs[i], s.threads[i].seen) {
      var k :| 0 <= k < |s.order| && s.order[k] == i;
      DoneIntact(w, jobs, mem0, s, k);
      assert FinishedOk(w, jobs, mem0, s, k);
      IntactApply(w, jobs[i], s.threads[i].seen, s.threads[i].x);
    }
  }

  /** In every state of every run, whatever the operations and the interleaving and however often exchanges fail, the
      law of locked operations holds if and only if the last attempt of every finished ADC and SBB saw the carry it
      started with. */
  lemma LinearizableExact(w: Width, jobs: seq<Job>, run: seq<Sys>, acts: seq<Action>, k: nat)
    requires IsRun(w, jobs, run, acts) && k < |run|
    ensures Atomic(w, jobs, run[0].mem, run[k]) <==> AllSawCarry(jobs, run[k])
  {
    hide Inv, Atomic, AllSawCarry;
    RunsFold(w, jobs, run, acts, k);
    if AllSawCarry(jobs, run[k]) { SawMeansAtomic(w, jobs, run[0].mem, run[k]); }
    if Atomic(w, jobs, run[0].mem, run[k]) { AtomicMeansSaw(w, jobs, run[0].mem, run[k]); }
  }

  ghost predicate NoCarryReaders(jobs: seq<Job>) {
    forall i :: 0 <= i < |jobs| ==> !ReadsCarry(jobs[i].op)
  }

  /** Without ADC and SBB it always holds. */
  lemma Linearizable(w: Width, jobs: seq<Job>, run: seq<Sys>, acts: seq<Action>, k: nat)
    requires NoCarryReaders(jobs) && IsRun(w, jobs, run, acts) && k < |run|
    ensures Atomic(w, jobs, run[0].mem, run[k])
  {
    LinearizableExact(w, jobs, run, acts, k);
  }

  /** When everyone is done and saw its carry, some order of all the jobs, one at a time, explains the word. */
  lemma AllDone(w: Width, jobs: seq<Job>, run: seq<Sys>, acts: seq<Action>)
    requires IsRun(w, jobs, run, acts) && AllSawCarry(jobs, run[|acts|])
    requires forall i :: 0 <= i < |jobs| ==> run[|acts|].threads[i].phase == Done
    ensures var s := run[|acts|];
            && (forall k :: 0 <= k < |s.order| ==> s.order[k] < |jobs|)
            && (forall i :: 0 <= i < |jobs| ==> i in s.order)
            && (forall j, k :: 0 <= j < k < |s.order| ==> s.order[j] != s.order[k])
            && s.mem == Fold(w, jobs, run[0].mem, s.order)
  {
    hide FinishedOk, Fold;
    LinearizableExact(w, jobs, run, acts, |acts|);
  }

  /** With ADC the law fails: a lone thread adding 0 with carry to 0 should leave 1, but one spurious failure makes
      the second attempt read the carry the first one cleared, and it leaves 0. */
  lemma AdcBreaks(f: Flags) returns (run: seq<Sys>, acts: seq<Action>)
    requires f.cf
    ensures var jobs := [Job(Adc, 0, f)];
            && IsRun(W8, jobs, run, acts) && run[|acts|].threads[0].phase == Done && run[|acts|].order == [0]
            && run[|acts|].mem == 0 && Fold(W8, jobs, run[0].mem, [0]) == 1
  {
    var jobs := [Job(Adc, 0, f)];
    var s0 := Sys(0, [Thread(Start, 0, 0, f, f)], []);
    var s1 := Step(W8, jobs, s0, Load(0));
    var s2 := Step(W8, jobs, s1, Compute(0));
    SumFields(Adc, W8, f, 0, 0);
    var s3 := Step(W8, jobs, s2, Fail(0));
    var s4 := Step(W8, jobs, s3, Compute(0));
    SumFields(Adc, W8, s3.threads[0].flags, 0, 0);
    var s5 := Step(W8, jobs, s4, Exchange(0));
    run := [s0, s1, s2, s3, s4, s5];
    acts := [Load(0), Compute(0), Fail(0), Compute(0), Exchange(0)];
    hide AluSpec;
    assert [0][..0] == [];
  }
}
