/** What locked operations leave in memory once they are done, whatever the interleaving: counters count, bit sets
    gather and masks clear. */
module LockedTotals {
  import opened Bits
  import opened Flags
  import opened Alu
  import opened AluLaws
  import opened LockedRmw

  // ----- sums over an order -----

  /** The sum of v at the positions in `order`. */
  function SumAt(v: seq<int>, order: seq<nat>): int
    requires forall k :: 0 <= k < |order| ==> order[k] < |v|
  {
    if order == [] then 0 else SumAt(v, order[..|order| - 1]) + v[order[|order| - 1]]
  }

  function SumAll(v: seq<int>): int {
    if v == [] then 0 else SumAll(v[..|v| - 1]) + v[|v| - 1]
  }

  /** Every position, once each. */
  ghost predicate Permutation(order: seq<nat>, n: nat) {
    && (forall k :: 0 <= k < |order| ==> order[k] < n)
    && (forall i: nat :: i < n ==> i in order)
    && forall j, k :: 0 <= j < k < |order| ==> order[j] != order[k]
  }

  lemma {:induction false} SumRemove(v: seq<int>, order: seq<nat>, k: nat)
    requires k < |order| && forall j :: 0 <= j < |order| ==> order[j] < |v|
    ensures SumAt(v, order) == SumAt(v, order[..k] + order[k + 1..]) + v[order[k]]
    decreases |order|
  {
    var n := |order| - 1;
    var rest := order[..k] + order[k + 1..];
    if k < n {
      SumRemove(v, order[..n], k);
      assert order[..n][..k] + order[..n][k + 1..] == rest[..n - 1] && rest[n - 1] == order[n];
    } else {
      assert rest == order[..n];
    }
  }

  lemma {:induction false} SumPrefix(v: seq<int>, order: seq<nat>, n: nat)
    requires n <= |v| && forall k :: 0 <= k < |order| ==> order[k] < n
    ensures SumAt(v, order) == SumAt(v[..n], order)
    decreases |order|
  {
    if order != [] { SumPrefix(v, order[..|order| - 1], n); }
  }

  lemma WithoutLast(order: seq<nat>, n: nat, k: nat)
    requires Permutation(order, n + 1) && k < |order| && order[k] == n
    ensures Permutation(order[..k] + order[k + 1..], n)
  {
    var rest := order[..k] + order[k + 1..];
    forall i: nat | i < n ensures i in rest {
      assert i in order;
      var j :| 0 <= j < |order| && order[j] == i;
      assert rest[if j < k then j else j - 1] == i;
    }
  }

  lemma EntryBelow(order: seq<nat>, n: nat, k: nat)
    requires Permutation(order, n) && k < |order|
    ensures order[k] < n
  {
  }

  lemma EmptyOrder(order: seq<nat>)
    requires Permutation(order, 0)
    ensures order == []
  {
    if order != [] { EntryBelow(order, 0, 0); }
  }

  /** The order of a sum does not matter. */
  lemma {:induction false} PermutedSum(v: seq<int>, order: seq<nat>)
    requires Permutation(order, |v|)
    ensures SumAt(v, order) == SumAll(v)
    decreases |v|
  {
    if v == [] {
      EmptyOrder(order);
    } else {
      var n := |v| - 1;
      assert n in order;
      var k :| 0 <= k < |order| && order[k] == n;
      var rest := order[..k] + order[k + 1..];
      WithoutLast(order, n, k);
      SumRemove(v, order, k);
      SumPrefix(v, rest, n);
      PermutedSum(v[..n], rest);
    }
  }

  // ----- counters -----

  predicate Counts(op: AluOp) {
    op.Add? || op.Sub? || op.Inc? || op.Dec?
  }

  /** What an operation adds to the word. */
  function Delta(j: Job): int {
    match j.op
    case Add => j.y
    case Sub => -(j.y as int)
    case Inc => 1
    case Dec => -1
    case _ => 0
  }

  function Deltas(jobs: seq<Job>): (r: seq<int>)
    ensures |r| == |jobs|
  {
    seq(|jobs|, i requires 0 <= i < |jobs| => Delta(jobs[i]))
  }

  lemma ModStep(m: int, a: int, d: int)
    requires m > 0
    ensures (a % m + d) % m == (a + d) % m
  {
    var q := a / m;
    assert a + d == (a % m + d) + q * m;
    ModShift(a % m + d, q, m);
  }

  lemma OneCount(w: Width, j: Job, a: int)
    requires Counts(j.op)
    ensures AluSpec(j.op, w, j.flags, a % w.Mod(), j.y).value == (a + Delta(j)) % w.Mod()
  {
    hide AluSpec, Width.Mod;
    var m := w.Mod();
    WordSize(w, a);
    ModStep(m, a, Delta(j));
    if j.op.Add? || j.op.Sub? {
      SumMeans(j.op, w, j.flags, a % m, j.y);
    } else {
      UnaryMeans(j.op, w, j.flags, a % m, j.y);
    }
  }

  lemma WordSize(w: Width, a: int)
    ensures 0 <= a % w.Mod() < 0x1_0000_0000_0000_0000
  {
  }

  lemma {:induction false} FoldCounts(w: Width, jobs: seq<Job>, mem: u64, order: seq<nat>)
    requires mem < w.Mod() && forall i :: 0 <= i < |jobs| ==> Counts(jobs[i].op)
    requires forall k :: 0 <= k < |order| ==> order[k] < |jobs|
    ensures Fold(w, jobs, mem, order) == (mem + SumAt(Deltas(jobs), order)) % w.Mod()
    decreases |order|
  {
    hide AluSpec, Width.Mod, Delta;
    if order == [] {
      ModSmall(mem, w.Mod());
    } else {
      var n := |order| - 1;
      FoldCounts(w, jobs, mem, order[..n]);
      OneCount(w, jobs[order[n]], mem + SumAt(Deltas(jobs), order[..n]));
    }
  }

  lemma ModSmall(x: int, m: int)
    requires 0 <= x < m
    ensures x % m == x
  {
  }

  ghost predicate AllDoneAt(jobs: seq<Job>, s: Sys)
    requires |s.threads| == |jobs|
  {
    forall k :: 0 <= k < |jobs| ==> s.threads[k].phase == Done
  }

  /** Locked ADD, SUB, INC and DEC on one word, any number of them, mixed and interleaved in any way: at every moment
      the word is what it was plus what the finished ones add, and in the end plus what all of them add. No update is
      lost. */
  lemma CountersCount(w: Width, jobs: seq<Job>, run: seq<Sys>, acts: seq<Action>, k: nat)
    requires IsRun(w, jobs, run, acts) && k < |run| && forall i :: 0 <= i < |jobs| ==> Counts(jobs[i].op)
    ensures forall j :: 0 <= j < |run[k].order| ==> run[k].order[j] < |jobs|
    ensures run[k].mem == (run[0].mem + SumAt(Deltas(jobs), run[k].order)) % w.Mod()
    ensures AllDoneAt(jobs, run[k]) ==> run[k].mem == (run[0].mem + SumAll(Deltas(jobs))) % w.Mod()
  {
    hide Fold, FinishedOk, Deltas, Step, Enabled, Permutation;
    Linearizable(w, jobs, run, acts, k);
    FoldCounts(w, jobs, run[0].mem, run[k].order);
    if AllDoneAt(jobs, run[k]) {
      AllInOrder(jobs, run[k]);
      DeltasSize(jobs);
      PermutedSum(Deltas(jobs), run[k].order);
    }
  }

  lemma DeltasSize(jobs: seq<Job>)
    ensures |Deltas(jobs)| == |jobs|
  {
  }

  lemma AllInOrder(jobs: seq<Job>, s: Sys)
    requires InOrder(jobs, s) && AllDoneAt(jobs, s)
    ensures Permutation(s.order, |jobs|)
  {
  }

  // ----- bits -----

  predicate Bitwise(op: AluOp) {
    op.And? || op.Or? || op.Xor?
  }

  /** One bit of the word after the operations in `order`, starting from b. */
  function BitAfter(jobs: seq<Job>, b: bool, order: seq<nat>, i: nat): bool
    requires forall k :: 0 <= k < |order| ==> order[k] < |jobs|
  {
    if order == [] then b
    else
      var j, before := jobs[order[|order| - 1]], BitAfter(jobs, b, order[..|order| - 1], i);
      if j.op.And? then before && Bit(j.y, i) else if j.op.Or? then before || Bit(j.y, i) else before != Bit(j.y, i)
  }

  lemma {:induction false} FoldBits(w: Width, jobs: seq<Job>, mem: u64, order: seq<nat>, i: nat)
    requires i < Bitsize(w) && forall k :: 0 <= k < |jobs| ==> Bitwise(jobs[k].op)
    requires forall k :: 0 <= k < |order| ==> order[k] < |jobs|
    ensures Bit(Fold(w, jobs, mem, order), i) == BitAfter(jobs, Bit(mem, i), order, i)
    decreases |order|
  {
    hide AluSpec, Bit, Bitsize;
    if order != [] {
      var n := |order| - 1;
      var j := jobs[order[n]];
      FoldBits(w, jobs, mem, order[..n], i);
      LogicMeans(j.op, w, j.flags, Fold(w, jobs, mem, order[..n]), j.y, i);
    }
  }

  ghost predicate AllAre(jobs: seq<Job>, op: AluOp) {
    forall k :: 0 <= k < |jobs| ==> jobs[k].op == op
  }

  /** 1 for each operation that names bit i. */
  function Names(jobs: seq<Job>, i: nat): (r: seq<int>)
    ensures |r| == |jobs|
  {
    seq(|jobs|, k requires 0 <= k < |jobs| => Int(Bit(jobs[k].y, i)))
  }

  /** Only ORs: a bit is set if it was, or some operation names it. */
  lemma {:induction false} OrBits(jobs: seq<Job>, b: bool, order: seq<nat>, i: nat)
    requires AllAre(jobs, Or) && forall k :: 0 <= k < |order| ==> order[k] < |jobs|
    ensures BitAfter(jobs, b, order, i) <==> b || exists k :: k in order && Bit(jobs[k].y, i)
    decreases |order|
  {
    hide Bit;
    if order != [] {
      var n := |order| - 1;
      OrBits(jobs, b, order[..n], i);
      assert order == order[..n] + [order[n]];
      assert forall k :: k in order <==> k in order[..n] || k == order[n];
    }
  }

  /** Only ANDs: a bit is set if it was, and every operation names it. */
  lemma {:induction false} AndBits(jobs: seq<Job>, b: bool, order: seq<nat>, i: nat)
    requires AllAre(jobs, And) && forall k :: 0 <= k < |order| ==> order[k] < |jobs|
    ensures BitAfter(jobs, b, order, i) <==> b && forall k :: k in order ==> Bit(jobs[k].y, i)
    decreases |order|
  {
    hide Bit;
    if order != [] {
      var n := |order| - 1;
      AndBits(jobs, b, order[..n], i);
      assert order == order[..n] + [order[n]];
      assert forall k :: k in order <==> k in order[..n] || k == order[n];
    }
  }

  /** Only XORs: the bit is turned over once for every operation that names it. */
  lemma {:induction false} XorBits(jobs: seq<Job>, b: bool, order: seq<nat>, i: nat)
    requires AllAre(jobs, Xor) && forall k :: 0 <= k < |order| ==> order[k] < |jobs|
    ensures BitAfter(jobs, b, order, i) <==> (Int(b) + SumAt(Names(jobs, i), order)) % 2 == 1
    decreases |order|
  {
    hide Bit;
    if order != [] {
      var n := |order| - 1;
      XorBits(jobs, b, order[..n], i);
      Odd(Int(b) + SumAt(Names(jobs, i), order[..n]), Bit(jobs[order[n]].y, i));
    }
  }

  lemma Odd(a: int, c: bool)
    ensures (a + Int(c)) % 2 == 1 <==> (a % 2 == 1) != c
  {
  }

  lemma BitAtEnd(w: Width, jobs: seq<Job>, run: seq<Sys>, acts: seq<Action>, i: nat)
    requires IsRun(w, jobs, run, acts) && i < Bitsize(w) && AllDoneAt(jobs, run[|acts|])
    requires forall k :: 0 <= k < |jobs| ==> Bitwise(jobs[k].op)
    ensures Permutation(run[|acts|].order, |jobs|)
    ensures Bit(run[|acts|].mem, i) == BitAfter(jobs, Bit(run[0].mem, i), run[|acts|].order, i)
  {
    hide Fold, FinishedOk, Step, Enabled, Bit, Bitsize, BitAfter;
    Linearizable(w, jobs, run, acts, |acts|);
    AllInOrder(jobs, run[|acts|]);
    FoldBits(w, jobs, run[0].mem, run[|acts|].order, i);
  }

  /** Locked ORs, all done: every bit is set that was set or that some operation sets. */
  lemma OrsGather(w: Width, jobs: seq<Job>, run: seq<Sys>, acts: seq<Action>, i: nat)
    requires IsRun(w, jobs, run, acts) && i < Bitsize(w) && AllDoneAt(jobs, run[|acts|]) && AllAre(jobs, Or)
    ensures Bit(run[|acts|].mem, i) <==> Bit(run[0].mem, i) || exists k :: 0 <= k < |jobs| && Bit(jobs[k].y, i)
  {
    hide Step, Enabled, Bit, Bitsize, BitAfter;
    BitAtEnd(w, jobs, run, acts, i);
    OrBits(jobs, Bit(run[0].mem, i), run[|acts|].order, i);
    EveryoneIn(run[|acts|].order, |jobs|);
  }

  /** Locked ANDs, all done: every bit is clear that was clear or that some operation clears. */
  lemma AndsClear(w: Width, jobs: seq<Job>, run: seq<Sys>, acts: seq<Action>, i: nat)
    requires IsRun(w, jobs, run, acts) && i < Bitsize(w) && AllDoneAt(jobs, run[|acts|]) && AllAre(jobs, And)
    ensures Bit(run[|acts|].mem, i) <==> Bit(run[0].mem, i) && forall k :: 0 <= k < |jobs| ==> Bit(jobs[k].y, i)
  {
    hide Step, Enabled, Bit, Bitsize, BitAfter;
    BitAtEnd(w, jobs, run, acts, i);
    AndBits(jobs, Bit(run[0].mem, i), run[|acts|].order, i);
    EveryoneIn(run[|acts|].order, |jobs|);
  }

  /** Locked XORs, all done: every bit has been turned over as often as operations say. */
  lemma XorsToggle(w: Width, jobs: seq<Job>, run: seq<Sys>, acts: seq<Action>, i: nat)
    requires IsRun(w, jobs, run, acts) && i < Bitsize(w) && AllDoneAt(jobs, run[|acts|]) && AllAre(jobs, Xor)
    ensures Bit(run[|acts|].mem, i) <==> (Int(Bit(run[0].mem, i)) + SumAll(Names(jobs, i))) % 2 == 1
  {
    hide Step, Enabled, Bit, Bitsize, BitAfter, Names;
    BitAtEnd(w, jobs, run, acts, i);
    XorBits(jobs, Bit(run[0].mem, i), run[|acts|].order, i);
    NamesSize(jobs, i);
    PermutedSum(Names(jobs, i), run[|acts|].order);
  }

  lemma NamesSize(jobs: seq<Job>, i: nat)
    ensures |Names(jobs, i)| == |jobs|
  {
  }

  lemma EveryoneIn(order: seq<nat>, n: nat)
    requires Permutation(order, n)
    ensures forall k: nat :: k in order <==> k < n
  {
  }
}
