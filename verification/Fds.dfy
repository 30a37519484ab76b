/** The file descriptor table (blink/fds.c) and the calls that close descriptors (blink/close.c). Each call is atomic
    under the table's lock; what the host answers to a close is a parameter. */
module Fds {
  import opened Dlls

  const O_CLOEXEC: bv32 := 0x8_0000
  const CLOSE_RANGE_CLOEXEC: bv32 := 4

  datatype Errno = EINVAL | EBADF | EINTR | EIO
  /** 0, or -1 with errno set. */
  datatype Rc = Done | Failed(errno: Errno)

  // ----- lookup -----

  /** Position of the first entry for a descriptor, |s| if there is none. */
  function Find(s: seq<Elem>, fildes: int): (k: nat)
    ensures k <= |s| && (k < |s| ==> s[k].fildes == fildes)
    ensures forall j :: 0 <= j < k ==> s[j].fildes != fildes
  {
    if s == [] then 0 else if s[0].fildes == fildes then 0 else 1 + Find(s[1..], fildes)
  }

  function Lookup(s: seq<Elem>, fildes: int): Elem? {
    if Find(s, fildes) < |s| then s[Find(s, fildes)] else null
  }

  lemma FindIs(s: seq<Elem>, fildes: int, k: nat)
    requires k <= |s| && (k < |s| ==> s[k].fildes == fildes) && forall j :: 0 <= j < k ==> s[j].fildes != fildes
    ensures Find(s, fildes) == k
  {
  }

  function ToFront(s: seq<Elem>, k: nat): seq<Elem>
    requires k < |s|
  {
    [s[k]] + Without(s, k)
  }

  lemma ToFrontAt(s: seq<Elem>, k: nat, i: nat)
    requires k < |s| && i < |s|
    ensures ToFront(s, k)[i] == if i == 0 then s[k] else if i <= k then s[i - 1] else s[i]
  {
  }

  /** Moving the first entry for a descriptor to the front changes no lookup of any descriptor, duplicates or not. */
  lemma MoveToFront(s: seq<Elem>, k: nat, other: int)
    requires k < |s| && k == Find(s, s[k].fildes)
    ensures Lookup(ToFront(s, k), other) == Lookup(s, other)
  {
    hide ToFront, Find;
    var r, j := ToFront(s, k), Find(s, other);
    ToFrontSize(s, k);
    FindSpec(s, other);
    if other == s[k].fildes {
      ToFrontAt(s, k, 0);
      FindIs(r, other, 0);
    } else {
      var j' := if j < k then j + 1 else j;
      assert j != k;
      forall i: nat | i < j' ensures r[i].fildes != other {
        ToFrontAt(s, k, i);
      }
      if j < |s| { ToFrontAt(s, k, j'); }
      FindIs(r, other, j');
    }
  }

  lemma FindSpec(s: seq<Elem>, fildes: int)
    ensures var k := Find(s, fildes); 0 <= k <= |s| && (k < |s| ==> s[k].fildes == fildes) && forall j :: 0 <= j < k ==>
            s[j].fildes != fildes
  {
  }

  lemma ToFrontSize(s: seq<Elem>, k: nat)
    requires k < |s|
    ensures |ToFront(s, k)| == |s|
  {
  }

  lemma LookupIs(s: seq<Elem>, fildes: int)
    ensures var k := Find(s, fildes); 0 <= k <= |s| && Lookup(s, fildes) == if k < |s| then s[k] else null
  {
  }

  /** Taking away the front entry after moving it there is taking it away from where it was. */
  lemma FrontOff(s: seq<Elem>, k: nat)
    requires k < |s| && Distinct(s)
    ensures |ToFront(s, k)| > 0 && ToFront(s, k)[0] == s[k] && Without(ToFront(s, k), 0) == Without(s, k)
    ensures s[k] !in Without(s, k) && forall e :: e in Without(s, k) ==> e in ToFront(s, k)
    ensures forall j :: 0 <= j < |ToFront(s, k)| ==> ToFront(s, k)[j] in s
  {
  }

  lemma FrontOn(s: seq<Elem>, k: nat)
    requires k < |s| && Distinct(s)
    ensures Apart(Without(s, k), [s[k]]) && ToFront(s, k) == [s[k]] + Without(s, k)
    ensures forall j :: 0 <= j < |Without(s, k)| ==> Without(s, k)[j] in s
    ensures forall e :: e in ToFront(s, k) ==> e in s
  {
  }

  // ----- splitting the table -----

  /** The entries whose mark is `want`, in order. */
  function Pick(s: seq<Elem>, marks: seq<bool>, want: bool): seq<Elem>
    requires |marks| == |s|
  {
    if s == [] then []
    else
      var n := |s| - 1;
      Pick(s[..n], marks[..n], want) + if marks[n] == want then [s[n]] else []
  }

  /** Which position of s each picked entry came from. */
  ghost function Origins(marks: seq<bool>, want: bool): (r: seq<nat>)
    ensures forall a :: 0 <= a < |r| ==> r[a] < |marks| && marks[r[a]] == want
    ensures forall a, b :: 0 <= a < b < |r| ==> r[a] < r[b]
    ensures forall i :: 0 <= i < |marks| && marks[i] == want ==> i in r
  {
    if marks == [] then []
    else
      var n := |marks| - 1;
      var r := Origins(marks[..n], want);
      assert forall i :: 0 <= i < n ==> marks[..n][i] == marks[i];
      if marks[n] == want then
        assert forall i :: i in r ==> i in r + [n];
        assert (r + [n])[|r|] == n;
        r + [n]
      else r
  }

  /** Picking keeps exactly the entries with the mark, in their old order. */
  lemma {:induction false} PickOrigins(s: seq<Elem>, marks: seq<bool>, want: bool)
    requires |marks| == |s|
    ensures |Pick(s, marks, want)| == |Origins(marks, want)|
    ensures forall a :: 0 <= a < |Origins(marks, want)| ==> Pick(s, marks, want)[a] == s[Origins(marks, want)[a]]
  {
    if s != [] {
      var n := |s| - 1;
      PickOrigins(s[..n], marks[..n], want);
    }
  }

  lemma PickIn(s: seq<Elem>, marks: seq<bool>, want: bool, e: Elem)
    requires |marks| == |s| && Distinct(s)
    ensures e in Pick(s, marks, want) <==> exists i :: 0 <= i < |s| && s[i] == e && marks[i] == want
    ensures Distinct(Pick(s, marks, want))
  {
    hide Pick, Origins;
    PickOrigins(s, marks, want);
    OriginsSpec(marks, want);
    var o, p := Origins(marks, want), Pick(s, marks, want);
    if i :| 0 <= i < |s| && s[i] == e && marks[i] == want {
      assert i in o;
      var a :| 0 <= a < |o| && o[a] == i;
      assert p[a] == e;
    }
    if e in p {
      var a :| 0 <= a < |p| && p[a] == e;
      assert s[o[a]] == e && marks[o[a]] == want;
    }
  }

  lemma OriginsSpec(marks: seq<bool>, want: bool)
    ensures var r := Origins(marks, want);
            && (forall a :: 0 <= a < |r| ==> r[a] < |marks| && marks[r[a]] == want)
            && (forall a, b :: 0 <= a < b < |r| ==> r[a] < r[b])
            && (forall i :: 0 <= i < |marks| && marks[i] == want ==> i in r)
  {
  }

  /** The state of a loop that has looked at the first i entries: those chosen have gone to another list. */
  ghost predicate Sorted(s: seq<Elem>, marks: seq<bool>, i: nat, kept: seq<Elem>, gone: seq<Elem>) {
    && i <= |s| == |marks|
    && kept == Pick(s[..i], marks[..i], false) + s[i..] && gone == Pick(s[..i], marks[..i], true)
  }

  /** Where the loop stands in the list. */
  ghost function At(marks: seq<bool>, i: nat): nat
    requires i <= |marks|
  {
    |Origins(marks[..i], false)|
  }

  lemma SortedAt(s: seq<Elem>, marks: seq<bool>, i: nat, kept: seq<Elem>, gone: seq<Elem>)
    requires Sorted(s, marks, i, kept, gone)
    ensures At(marks, i) <= |kept| && kept[At(marks, i)..] == s[i..]
    ensures kept[..At(marks, i)] == Pick(s[..i], marks[..i], false)
  {
    PickOrigins(s[..i], marks[..i], false);
  }

  lemma SortedApart(s: seq<Elem>, marks: seq<bool>, i: nat, kept: seq<Elem>, gone: seq<Elem>)
    requires Sorted(s, marks, i, kept, gone) && Distinct(s)
    ensures i <= |marks|
    ensures Apart(kept, gone) && (i < |s| ==> Apart(gone, [s[i]]))
    ensures forall j :: 0 <= j < |kept| ==> kept[j] in s
    ensures forall j :: 0 <= j < |gone| ==> gone[j] in s
  {
    forall e | e in gone ensures e in s && e !in kept && (i < |s| ==> e != s[i]) {
      PickIn(s[..i], marks[..i], true, e);
      PickIn(s[..i], marks[..i], false, e);
    }
    forall e | e in kept ensures e in s {
      PickIn(s[..i], marks[..i], false, e);
      if e in s[i..] {}
    }
    assert forall j :: 0 <= j < |gone| ==> gone[j] in gone;
    assert forall j :: 0 <= j < |kept| ==> kept[j] in kept;
  }

  lemma SortedStep(s: seq<Elem>, marks: seq<bool>, i: nat, kept: seq<Elem>, gone: seq<Elem>)
    requires Sorted(s, marks, i, kept, gone) && i < |s|
    ensures At(marks, i) < |kept| && kept[At(marks, i)] == s[i]
    ensures marks[i] ==> Sorted(s, marks, i + 1, Without(kept, At(marks, i)), gone + [s[i]])
    ensures !marks[i] ==> Sorted(s, marks, i + 1, kept, gone)
  {
    SortedAt(s, marks, i, kept, gone);
    assert s[..i + 1][..i] == s[..i] && marks[..i + 1][..i] == marks[..i];
    assert kept[At(marks, i)] == kept[At(marks, i)..][0];
  }

  lemma SortedEnd(s: seq<Elem>, marks: seq<bool>, kept: seq<Elem>, gone: seq<Elem>)
    requires Sorted(s, marks, |s|, kept, gone)
    ensures kept == Pick(s, marks, false) && gone == Pick(s, marks, true)
  {
    assert s[..|s|] == s && marks[..|s|] == marks;
  }

  ghost function CloexecMarks(s: seq<Elem>): (r: seq<bool>)
    reads s
    ensures |r| == |s| && forall i :: 0 <= i < |s| ==> (r[i] <==> s[i].oflags & O_CLOEXEC != 0)
  {
    seq(|s|, i requires 0 <= i < |s| reads s => s[i].oflags & O_CLOEXEC != 0)
  }

  /** Entries in the range that are not close-on-exec yet. */
  ghost function NewMarks(s: seq<Elem>, first: nat, last: nat): (r: seq<bool>)
    reads s
    ensures |r| == |s| && forall i :: 0 <= i < |s| ==>
            (r[i] <==> first <= s[i].fildes <= last && !s[i].oflags & O_CLOEXEC != 0)
  {
    seq(|s|, i requires 0 <= i < |s| reads s => first <= s[i].fildes <= last && !s[i].oflags & O_CLOEXEC != 0)
  }

  ghost function RangeMarks(s: seq<Elem>, first: nat, last: nat): (r: seq<bool>)
    ensures |r| == |s| && forall i :: 0 <= i < |s| ==> (r[i] <==> first <= s[i].fildes <= last)
  {
    seq(|s|, i requires 0 <= i < |s| => first <= s[i].fildes <= last)
  }

  // ----- the system calls -----

  /** The host's answers number from .. upto - 1 were all successes. */
  ghost predicate AllDone(answers: nat -> Rc, from: nat, upto: nat) {
    forall n: nat :: from <= n < upto ==> answers(n).Done?
  }

  /** What a series of closes leaves behind: a failure if there was any, with the last one's errno. */
  function Combined(answers: nat -> Rc, from: nat, upto: nat): Rc
    requires from <= upto
  {
    if from == upto then Done
    else if answers(upto - 1).Done? then Combined(answers, from, upto - 1)
    else answers(upto - 1)
  }

  lemma {:induction false} CombinedDone(answers: nat -> Rc, from: nat, upto: nat)
    requires from <= upto
    ensures Combined(answers, from, upto).Done? <==> AllDone(answers, from, upto)
    decreases upto
  {
    if from != upto {
      CombinedDone(answers, from, upto - 1);
      assert AllDone(answers, from, upto) <==> AllDone(answers, from, upto - 1) && answers(upto - 1).Done?;
    }
  }

  lemma NotYet(freed: seq<Elem>, s: seq<Elem>, i: nat)
    requires i < |s| && Distinct(s) && forall j :: 0 <= j < |s| ==> s[j] !in freed
    ensures s[i] !in freed + s[..i] && s[..i + 1] == s[..i] + [s[i]] && s[i..][1..] == s[i + 1..]
  {
  }

  lemma NoneFreed(items: seq<Elem>, freed: seq<Elem>, s: seq<Elem>)
    requires Apart(items, s) && forall e :: e in items ==> e !in freed
    ensures forall e :: e in items ==> e !in freed + s
    ensures s[..|s|] == s
  {
  }

  class System {
    const fds: Dll
    /** Entries whose descriptor the host was asked to close, in order. */
    var closed: seq<Elem>
    /** Entries whose descriptor the host was told to close on exec, in order. */
    var told: seq<Elem>
    /** Entries whose memory has been given back. */
    ghost var freed: seq<Elem>

    /** Nothing in the table has been freed. */
    ghost predicate Valid()
      reads this, fds, fds.items`next, fds.items`prev
    {
      fds.Valid() && forall e :: e in fds.items ==> e !in freed
    }

    /** InitFds */
    constructor ()
      ensures Valid() && fresh(fds) && fds.items == [] && closed == [] && told == [] && freed == []
    {
      fds := new Dll();
      closed, told, freed := [], [], [];
    }

    /** AddFd: a new entry in front, unless the number is negative or memory is short. */
    method AddFd(fildes: int, oflags: bv32, memory: bool) returns (fd: Elem?)
      requires Valid()
      modifies fds, fds.items`next, fds.items`prev
      ensures Valid() && (fd == null <==> fildes < 0 || !memory)
      ensures fd == null ==> fds.items == old(fds.items)
      ensures fd != null ==>
                && fresh(fd) && fd.fildes == fildes && fd.oflags == oflags
                && fds.items == [fd] + old(fds.items)
    {
      if fildes < 0 || !memory { return null; }
      fd := new Elem(fildes, oflags);
      fds.MakeFirst(fd, [fd]);
    }

    /** A member of the table moves to the front. */
    method MoveUp(e: Elem, ghost k: nat)
      requires Valid() && k < |fds.items| && fds.items[k] == e
      modifies fds, fds.items`next, fds.items`prev
      ensures Valid() && fds.items == ToFront(old(fds.items), k)
    {
      hide Ring, Distinct, Without, ToFront, Apart;
      RingDistinct(fds.items);
      FrontOff(fds.items, k);
      FrontOn(fds.items, k);
      fds.Remove(e, k);
      fds.MakeFirst(e, [e]);
    }

    /** GetFd: the first entry for the number, which moves to the front. No later lookup of any number sees the move. */
    method GetFd(fildes: int) returns (fd: Elem?)
      requires Valid()
      modifies fds, fds.items`next, fds.items`prev
      ensures Valid() && fd == Lookup(old(fds.items), fildes)
      ensures fd == null ==> fds.items == old(fds.items)
      ensures fd != null ==> fds.items == ToFront(old(fds.items), Find(old(fds.items), fildes))
      ensures forall other :: Lookup(fds.items, other) == Lookup(old(fds.items), other)
    {
      hide Ring, ToFront;
      ghost var s := fds.items;
      if fildes >= 0 {
        var lru := false;
        var e := fds.First();
        ghost var k := 0;
        while e != null
          invariant unchanged(fds) && unchanged(s) && Valid()
          invariant 0 <= k <= |s| && e == (if k < |s| then s[k] else null) && lru == (k > 0)
          invariant forall j :: 0 <= j < k ==> s[j].fildes != fildes
          decreases |s| - k
        {
          if e.fildes == fildes {
            FindIs(s, fildes, k);
            if lru { MoveUp(e, k); } else { AlreadyFirst(s); }
            forall other ensures Lookup(fds.items, other) == Lookup(s, other) { MoveToFront(s, k, other); }
            return e;
          }
          lru := true;
          e := fds.Next(e, k);
          k := k + 1;
        }
        FindIs(s, fildes, k);
      } else {
        FindIs(s, fildes, |s|);
      }
      fd := null;
    }

    method CountFds() returns (n: nat)
      requires Valid()
      ensures n == |fds.items|
    {
      n := 0;
      var e := fds.First();
      while e != null
        invariant n <= |fds.items| && e == if n < |fds.items| then fds.items[n] else null
        decreases |fds.items| - n
      {
        e := fds.Next(e, n);
        n := n + 1;
      }
    }

    /** CloseFd: the host closes the descriptor and the entry is freed, whatever the answer. */
    method CloseFd(fd: Elem, answer: Rc) returns (rc: Rc)
      requires fd !in freed
      modifies this`closed, this`freed
      ensures closed == old(closed) + [fd] && freed == old(freed) + [fd] && rc == answer
    {
      closed := closed + [fd];
      freed := freed + [fd];
      rc := answer;
    }

    /** The loop of CloseFds has dealt with the first i entries of s and stands on e. */
    ghost predicate Closing(doomed: Dll, s: seq<Elem>, i: nat, e: Elem?)
      reads this, fds, fds.items`next, fds.items`prev, doomed, doomed.items`next, doomed.items`prev
    {
      && fds.Valid() && doomed.Valid() && doomed != fds && Apart(fds.items, s) && Distinct(s)
      && i <= |s| && doomed.items == s[i..] && e == if i < |s| then s[i] else null
    }

    /** The first entry of a detached list is unlinked, closed and freed. */
    method CloseFirst(doomed: Dll, e: Elem, answer: Rc, ghost s: seq<Elem>, ghost i: nat) returns (rc: Rc, e2: Elem?)
      requires Closing(doomed, s, i, e) && e !in freed
      modifies this`closed, this`freed, doomed, s`next, s`prev
      ensures Closing(doomed, s, i + 1, e2)
      ensures closed == old(closed) + [e] && freed == old(freed) + [e] && rc == answer
    {
      hide Ring, Without, Distinct;
      TailOf(s, i);
      e2 := doomed.Next(e, 0);
      doomed.Remove(e, 0);
      rc := CloseFd(e, answer);
    }

    /** CloseFds: every entry of a detached list is closed once, in order; the result is a failure if any close failed.
        answers(n) is what the host says to its n-th close. */
    method CloseFds(doomed: Dll, answers: nat -> Rc) returns (rc: Rc)
      requires Valid() && doomed != fds && doomed.Valid() && Apart(fds.items, doomed.items)
      requires forall j :: 0 <= j < |doomed.items| ==> doomed.items[j] !in freed
      modifies this`closed, this`freed, doomed, doomed.items`next, doomed.items`prev
      ensures Valid() && doomed.Valid() && doomed.items == []
      ensures closed == old(closed) + old(doomed.items) && freed == old(freed) + old(doomed.items)
      ensures rc == Combined(answers, |old(closed)|, |closed|)
    {
      hide Ring, Apart, Distinct, Closing;
      rc := Done;
      ghost var s, i, f := doomed.items, 0, freed;
      var e := doomed.First();
      CloseStart(this, doomed, e);
      while e != null
        invariant 0 <= i <= |s| && Closing(doomed, s, i, e)
        invariant closed == old(closed) + s[..i] && freed == f + s[..i]
        invariant rc == Combined(answers, |old(closed)|, |closed|)
        decreases |s| - i
      {
        CloseAt(this, doomed, s, i, e);
        NotYet(f, s, i);
        var answer, e2 := CloseFirst(doomed, e, answers(|closed|), s, i);
        if !answer.Done? { rc := answer; }
        e := e2;
        i := i + 1;
      }
      CloseEnd(this, doomed, s, i);
      NoneFreed(fds.items, f, s);
    }

    /** The loop of DestroyFds has freed the first i entries of s and stands on e. */
    ghost predicate Emptying(s: seq<Elem>, i: nat, e: Elem?)
      reads this, fds, fds.items`next, fds.items`prev
    {
      Valid() && i <= |s| && fds.items == s[i..] && e == if i < |s| then s[i] else null
    }

    /** The first entry of the table is unlinked and freed. */
    method FreeFirst(e: Elem, ghost s: seq<Elem>, ghost i: nat) returns (e2: Elem?)
      requires Emptying(s, i, e)
      modifies this`freed, fds, s`next, s`prev
      ensures Emptying(s, i + 1, e2) && freed == old(freed) + [e] && e !in old(freed)
    {
      hide Ring, Without;
      TailOf(s, i);
      RingDistinct(fds.items);
      e2 := fds.Next(e, 0);
      fds.Remove(e, 0);
      freed := freed + [e];
    }

    /** DestroyFds: every entry is freed once and the table is empty. */
    method DestroyFds()
      requires Valid()
      modifies this`freed, fds, fds.items`next, fds.items`prev
      ensures Valid() && fds.items == [] && fds.last == null && freed == old(freed) + old(fds.items)
    {
      hide Ring, Distinct, Emptying;
      ghost var s, i := fds.items, 0;
      var e := fds.First();
      EmptyingStart(this, e);
      while e != null
        invariant 0 <= i <= |s| && Emptying(s, i, e) && freed == old(freed) + s[..i]
        decreases |s| - i
      {
        EmptyingAt(this, s, i, e);
        TailOf(s, i);
        e := FreeFirst(e, s, i);
        i := i + 1;
      }
      EmptyingAt(this, s, i, e);
    }

    /** SysClose: the first entry for the number leaves the table and is closed; the others keep their order. A close
        that was interrupted counts as done unless a signal is to be delivered. */
    method SysClose(fildes: int, answer: Rc, pending: bool) returns (rc: Rc)
      requires Valid()
      modifies this`closed, this`freed, fds, fds.items`next, fds.items`prev
      ensures Valid()
      ensures var s, k := old(fds.items), Find(old(fds.items), fildes);
              if k == |s| then rc == Failed(EBADF) && closed == old(closed) && freed == old(freed) && fds.items == s
              else rc == (if answer == Failed(EINTR) && !pending then Done else answer)
                   && closed == old(closed) + [s[k]] && freed == old(freed) + [s[k]] && fds.items == Without(s, k)
    {
      hide Ring, Distinct, Find, ToFront, Without, Lookup;
      ghost var s, k := fds.items, Find(fds.items, fildes);
      RingDistinct(s);
      LookupIs(s, fildes);
      var fd := GetFd(fildes);
      if fd == null { return Failed(EBADF); }
      FrontOff(s, k);
      fds.Remove(fd, 0);
      rc := CloseFd(fd, answer);
      if rc == Failed(EINTR) && !pending { rc := Done; }
    }

    /** A loop that detaches entries has looked at the first i entries of s and stands on e. */
    ghost predicate Midway(doomed: Dll, s: seq<Elem>, marks: seq<bool>, i: nat, e: Elem?)
      reads this, fds, fds.items`next, fds.items`prev, doomed, doomed.items`next, doomed.items`prev
    {
      && fds.Valid() && doomed.Valid() && doomed != fds && Distinct(s)
      && Sorted(s, marks, i, fds.items, doomed.items) && e == if i < |s| then s[i] else null
    }

    /** One entry that matches goes from the table to the end of the other list. */
    method MoveOver(doomed: Dll, e: Elem, ghost s: seq<Elem>, ghost marks: seq<bool>, ghost i: nat)
      requires fds.Valid() && doomed.Valid() && doomed != fds && Distinct(s)
      requires Sorted(s, marks, i, fds.items, doomed.items) && i < |s| && s[i] == e && marks[i]
      modifies fds, doomed, s`next, s`prev
      ensures fds.Valid() && doomed.Valid() && Sorted(s, marks, i + 1, fds.items, doomed.items)
    {
      hide Ring, Sorted;
      SortedApart(s, marks, i, fds.items, doomed.items);
      ghost var k := At(marks, i);
      SortedStep(s, marks, i, fds.items, doomed.items);
      fds.Remove(e, k);
      SortedApart(s, marks, i + 1, fds.items, doomed.items + [e]);
      doomed.MakeLast(e, [e]);
    }

    /** The body of those loops; the successor is read before the entry is unlinked. */
    method Detach(doomed: Dll, e: Elem, hit: bool, ghost s: seq<Elem>, ghost marks: seq<bool>,
                  ghost i: nat) returns (e2: Elem?)
      requires Midway(doomed, s, marks, i, e) && i < |s| && i < |marks| && hit == marks[i]
      modifies fds, doomed, s`next, s`prev
      ensures Midway(doomed, s, marks, i + 1, e2)
    {
      hide Ring, Sorted, Distinct, At;
      SortedNext(s, marks, i, fds.items, doomed.items);
      e2 := fds.Next(e, At(marks, i));
      SortedStep(s, marks, i, fds.items, doomed.items);
      if hit { MoveOver(doomed, e, s, marks, i); }
    }

    /** The loop of SysCloseExec. */
    method DetachExec() returns (doomed: Dll)
      requires Valid()
      modifies fds, fds.items`next, fds.items`prev
      ensures fresh(doomed) && Midway(doomed, old(fds.items), old(CloexecMarks(fds.items)), |old(fds.items)|, null)
    {
      hide Ring, Distinct, CloexecMarks, Midway;
      ghost var s, marks, i := fds.items, CloexecMarks(fds.items), 0;
      CloexecAt(s);
      doomed := new Dll();
      var e := fds.First();
      MidwayStart(this, doomed, marks, e);
      while e != null
        invariant 0 <= i <= |s| && Midway(doomed, s, marks, i, e)
        decreases |s| - i
      {
        MidwayAt(this, doomed, s, marks, i, e);
        e := Detach(doomed, e, e.oflags & O_CLOEXEC != 0, s, marks, i);
        i := i + 1;
      }
      MidwayAt(this, doomed, s, marks, i, e);
    }

    /** SysCloseExec: exactly the close-on-exec entries are closed, once each; the rest stay in order. */
    method SysCloseExec(answers: nat -> Rc)
      requires Valid()
      modifies this`closed, this`freed, fds, fds.items`next, fds.items`prev
      ensures Valid()
      ensures var s, marks := old(fds.items), old(CloexecMarks(fds.items));
              fds.items == Pick(s, marks, false) && closed == old(closed) + Pick(s, marks, true) &&
                  freed == old(freed) + Pick(s, marks, true)
      ensures forall e :: e in fds.items <==> e in old(fds.items) && old(e.oflags) & 0x8_0000 == 0
      ensures |closed| >= |old(closed)|
      ensures forall e :: e in closed[|old(closed)|..] <==> e in old(fds.items) && old(e.oflags) & 0x8_0000 != 0
    {
      hide Ring, Sorted, Pick, Distinct, CloexecMarks, Apart, Combined;
      ghost var s, marks := fds.items, CloexecMarks(fds.items);
      RingDistinct(s);
      CloexecAt(s);
      CloexecPicked(s);
      var doomed := DetachExec();
      SortedApart(s, marks, |s|, fds.items, doomed.items);
      SortedEnd(s, marks, fds.items, doomed.items);
      var _ := CloseFds(doomed, answers);
      SuffixIs(old(closed), Pick(s, marks, true));
    }

    /** SysCloseRangeCloexec: the entries in the range, and only they, become close-on-exec, and the host is told of
        exactly those that were not so before, once each. */
    method CloseRangeCloexec(first: nat, last: nat)
      requires Valid()
      modifies this`told, fds.items`oflags
      ensures Valid() && RangeFlagged(fds.items, first, last)
      ensures told == old(told) + Pick(fds.items, old(NewMarks(fds.items, first, last)), true)
    {
      hide Ring, Pick, NewMarks, Passed, Distinct, FlagsOf;
      PassedNone(fds.items, first, last);
      MarkRange(first, last);
      PassedAll(fds.items, old(FlagsOf(fds.items)), old(NewMarks(fds.items, first, last)), first, last);
    }

    /** The loop of SysCloseRangeCloexec. */
    method MarkRange(first: nat, last: nat)
      requires Valid()
      modifies this`told, fds.items`oflags
      ensures Valid() && unchanged(fds)
      ensures Passed(fds.items, old(FlagsOf(fds.items)), old(NewMarks(fds.items, first, last)), first, last,
              |fds.items|)
      ensures |old(NewMarks(fds.items, first, last))| == |fds.items|
      ensures told == old(told) + Pick(fds.items, old(NewMarks(fds.items, first, last)), true)
    {
      hide Ring, Pick, NewMarks, Passed, Distinct, FlagsOf;
      ghost var s, marks, was, i := fds.items, NewMarks(fds.items, first, last), FlagsOf(fds.items), 0;
      RingDistinct(s);
      PassedNone(s, first, last);
      PickNone(s, marks);
      var e := fds.First();
      while e != null
        invariant 0 <= i <= |s| && e == (if i < |s| then s[i] else null) && fds.Valid() && unchanged(fds)
        invariant |marks| == |s| && told == old(told) + Pick(s[..i], marks[..i], true)
        invariant Passed(s, was, marks, first, last, i)
        decreases |s| - i
      {
        PickNext(s, marks, i);
        MarkCloexec(e, first, last, s, was, marks, i);
        e := fds.Next(e, i);
        i := i + 1;
      }
      assert s[..i] == s && marks[..i] == marks;
    }

    /** The body of that loop. */
    method MarkCloexec(e: Elem, first: nat, last: nat, ghost s: seq<Elem>, ghost was: seq<bv32>, ghost marks: seq<bool>,
                       ghost i: nat)
      requires i < |s| == |marks| && Distinct(s) && e == s[i] && Passed(s, was, marks, first, last, i)
      modifies this`told, e`oflags
      ensures Passed(s, was, marks, first, last, i + 1)
      ensures told == old(told) + if marks[i] then [e] else []
    {
      if first <= e.fildes <= last {
        AlreadySet(e.oflags);
        if !e.oflags & O_CLOEXEC != 0 {
          e.oflags := e.oflags | O_CLOEXEC;
          told := told + [e];
        }
      }
    }

    /** What close_range with CLOSE_RANGE_CLOEXEC does to the flags. */
    twostate predicate RangeFlagged(s: seq<Elem>, first: nat, last: nat)
      reads s`oflags
    {
      forall e :: e in s ==> e.oflags == if first <= e.fildes <= last then old(e.oflags) | 0x8_0000 else old(e.oflags)
    }

    /** SysCloseRange: refuses unknown flags and empty ranges; otherwise closes and frees exactly the entries in the
        range, once each, or marks them close-on-exec. It aborts if the last close to fail was interrupted, which
        blocking all signals is to prevent. */
    method SysCloseRange(first: nat, last: nat, flags: bv32, answers: nat -> Rc) returns (rc: Rc, abort: bool)
      requires Valid()
      modifies this`closed, this`told, this`freed, fds, fds.items
      ensures Valid()
      ensures flags & !4 != 0 || first > last ==> rc == Failed(EINVAL) && told == old(told)
      ensures flags != 0 || first > last ==>
                fds.items == old(fds.items) && closed == old(closed) && freed == old(freed) && !abort
      ensures flags == 4 && first <= last ==>
                rc == Done && RangeFlagged(fds.items, first, last)
                && told == old(told) + Pick(fds.items, old(NewMarks(fds.items, first, last)), true)
      ensures flags == 0 && first <= last ==>
                var s, marks := old(fds.items), RangeMarks(old(fds.items), first, last);
                && fds.items == Pick(s, marks, false)
                && closed == old(closed) + Pick(s, marks, true) && freed == old(freed) + Pick(s, marks, true)
                && rc == Combined(answers, |old(closed)|, |closed|) && (abort <==> rc == Failed(EINTR))
      ensures flags == 0 && first <= last ==>
                && (forall e :: e in fds.items <==> e in old(fds.items) && !(first <= e.fildes <= last))
                && |closed| >= |old(closed)|
                && forall e :: e in closed[|old(closed)|..] <==> e in old(fds.items) && first <= e.fildes <= last
      ensures flags != CLOSE_RANGE_CLOEXEC ==> forall e :: e in old(fds.items) ==> e.oflags == old(e.oflags)
    {
      hide Ring, Pick, Combined, NewMarks, RangeMarks;
      FlagCases(flags);
      if flags & !CLOSE_RANGE_CLOEXEC != 0 || first > last { return Failed(EINVAL), false; }
      if flags & CLOSE_RANGE_CLOEXEC != 0 {
        CloseRangeCloexec(first, last);
        return Done, false;
      }
      RingDistinct(fds.items);
      rc := CloseRange(first, last, answers);
      InRangePicked(old(fds.items), first, last);
      SuffixIs(old(closed), Pick(old(fds.items), RangeMarks(old(fds.items), first, last), true));
      abort := rc == Failed(EINTR);
    }

    /** The loop of SysCloseRange. */
    method DetachRange(first: nat, last: nat) returns (doomed: Dll)
      requires Valid()
      modifies fds, fds.items`next, fds.items`prev
      ensures fresh(doomed) &&
              Midway(doomed, old(fds.items), RangeMarks(old(fds.items), first, last), |old(fds.items)|, null)
    {
      hide Ring, Distinct, RangeMarks, Midway;
      ghost var s, marks, i := fds.items, RangeMarks(fds.items, first, last), 0;
      RangeAt(s, first, last);
      doomed := new Dll();
      var e := fds.First();
      MidwayStart(this, doomed, marks, e);
      while e != null
        invariant 0 <= i <= |s| && Midway(doomed, s, marks, i, e)
        decreases |s| - i
      {
        MidwayAt(this, doomed, s, marks, i, e);
        e := Detach(doomed, e, first <= e.fildes <= last, s, marks, i);
        i := i + 1;
      }
      MidwayAt(this, doomed, s, marks, i, e);
    }

    method CloseRange(first: nat, last: nat, answers: nat -> Rc) returns (rc: Rc)
      requires Valid()
      modifies this`closed, this`freed, fds, fds.items`next, fds.items`prev
      ensures Valid()
      ensures var s, marks := old(fds.items), RangeMarks(old(fds.items), first, last);
              && fds.items == Pick(s, marks, false) && closed == old(closed) + Pick(s, marks, true) &&
                  freed == old(freed) + Pick(s, marks, true)
              && rc == Combined(answers, |old(closed)|, |closed|)
    {
      hide Ring, Sorted, Pick, Distinct, RangeMarks, Apart, Combined;
      ghost var s, marks := fds.items, RangeMarks(fds.items, first, last);
      RingDistinct(s);
      RangeAt(s, first, last);
      var doomed := DetachRange(first, last);
      SortedApart(s, marks, |s|, fds.items, doomed.items);
      SortedEnd(s, marks, fds.items, doomed.items);
      rc := CloseFds(doomed, answers);
    }
  }

  lemma SuffixIs(a: seq<Elem>, b: seq<Elem>)
    ensures (a + b)[|a|..] == b
  {
  }

  /** The entries close_range picks, and the ones it leaves, by their numbers. */
  lemma InRangePicked(s: seq<Elem>, first: nat, last: nat)
    requires Distinct(s)
    ensures var marks := RangeMarks(s, first, last);
            && (forall e :: e in Pick(s, marks, true) <==> e in s && first <= e.fildes <= last)
            && (forall e :: e in Pick(s, marks, false) <==> e in s && !(first <= e.fildes <= last))
  {
    hide Pick, RangeMarks;
    RangeAt(s, first, last);
    var marks := RangeMarks(s, first, last);
    forall e
      ensures e in Pick(s, marks, true) <==> e in s && first <= e.fildes <= last
      ensures e in Pick(s, marks, false) <==> e in s && !(first <= e.fildes <= last)
    {
      PickIn(s, marks, true, e);
      PickIn(s, marks, false, e);
    }
  }

  /** The entries an exec closes, and the ones it leaves, by their flags. */
  lemma CloexecPicked(s: seq<Elem>)
    requires Distinct(s)
    ensures var marks := CloexecMarks(s);
            && (forall e :: e in Pick(s, marks, true) <==> e in s && e.oflags & 0x8_0000 != 0)
            && (forall e :: e in Pick(s, marks, false) <==> e in s && e.oflags & 0x8_0000 == 0)
  {
    hide Pick, CloexecMarks;
    CloexecAt(s);
    var marks := CloexecMarks(s);
    forall e
      ensures e in Pick(s, marks, true) <==> e in s && e.oflags & 0x8_0000 != 0
      ensures e in Pick(s, marks, false) <==> e in s && e.oflags & 0x8_0000 == 0
    {
      PickIn(s, marks, true, e);
      PickIn(s, marks, false, e);
    }
  }

  lemma CloexecAt(s: seq<Elem>)
    ensures |CloexecMarks(s)| == |s| && forall i :: 0 <= i < |s| ==>
            (CloexecMarks(s)[i] <==> s[i].oflags & O_CLOEXEC != 0)
  {
  }

  ghost function FlagsOf(s: seq<Elem>): (r: seq<bv32>)
    reads s
    ensures |r| == |s| && forall i :: 0 <= i < |s| ==> r[i] == s[i].oflags
  {
    seq(|s|, i requires 0 <= i < |s| reads s => s[i].oflags)
  }

  /** The loop of SysCloseRangeCloexec has been through the first i entries, whose flags were `was`. */
  ghost predicate Passed(s: seq<Elem>, was: seq<bv32>, marks: seq<bool>, first: nat, last: nat, i: nat)
    reads s`oflags
  {
    && |was| == |marks| == |s|
    && (forall j :: 0 <= j < |s| ==> (marks[j] <==> first <= s[j].fildes <= last && !was[j] & O_CLOEXEC != 0))
    && forall j :: 0 <= j < |s| ==> s[j].oflags == Flagged(was[j], j < i && first <= s[j].fildes <= last)
  }

  lemma PassedNone(s: seq<Elem>, first: nat, last: nat)
    ensures Passed(s, FlagsOf(s), NewMarks(s, first, last), first, last, 0) && |NewMarks(s, first, last)| == |s|
    ensures |FlagsOf(s)| == |s| && forall i :: 0 <= i < |s| ==> FlagsOf(s)[i] == s[i].oflags
  {
  }

  lemma PassedAll(s: seq<Elem>, was: seq<bv32>, marks: seq<bool>, first: nat, last: nat)
    requires Passed(s, was, marks, first, last, |s|)
    ensures |was| == |s| && forall j :: 0 <= j < |s| ==>
            s[j].oflags == if first <= s[j].fildes <= last then was[j] | 0x8_0000 else was[j]
  {
  }

  lemma PickNone(s: seq<Elem>, marks: seq<bool>)
    requires |marks| == |s|
    ensures Pick(s[..0], marks[..0], true) == []
  {
  }

  lemma PickNext(s: seq<Elem>, marks: seq<bool>, i: nat)
    requires i < |s| == |marks|
    ensures Pick(s[..i + 1], marks[..i + 1], true) == Pick(s[..i], marks[..i], true) + if marks[i] then [s[i]] else []
  {
    assert s[..i + 1][..i] == s[..i] && marks[..i + 1][..i] == marks[..i];
  }

  lemma RangeAt(s: seq<Elem>, first: nat, last: nat)
    ensures |RangeMarks(s, first, last)| == |s| && forall i :: 0 <= i < |s| ==>
            (RangeMarks(s, first, last)[i] <==> first <= s[i].fildes <= last)
  {
  }

  lemma MidwayStart(sys: System, doomed: Dll, marks: seq<bool>, e: Elem?)
    requires sys.fds.Valid() && doomed.Valid() && doomed != sys.fds && doomed.items == [] && |marks| == |sys.fds.items|
    requires e == if sys.fds.items == [] then null else sys.fds.items[0]
    ensures sys.Midway(doomed, sys.fds.items, marks, 0, e)
  {
    SortedStart(sys.fds.items, marks);
  }

  lemma MidwayAt(sys: System, doomed: Dll, s: seq<Elem>, marks: seq<bool>, i: nat, e: Elem?)
    requires sys.Midway(doomed, s, marks, i, e)
    ensures if e == null then i == |s| else i < |s| == |marks| && e == s[i]
  {
  }

  lemma CloseStart(sys: System, doomed: Dll, e: Elem?)
    requires sys.fds.Valid() && doomed.Valid() && doomed != sys.fds && Apart(sys.fds.items, doomed.items)
    requires e == if doomed.items == [] then null else doomed.items[0]
    ensures sys.Closing(doomed, doomed.items, 0, e)
  {
  }

  lemma CloseAt(sys: System, doomed: Dll, s: seq<Elem>, i: nat, e: Elem?)
    requires sys.Closing(doomed, s, i, e) && e != null
    ensures i < |s| && e == s[i] && Distinct(s)
  {
  }

  lemma CloseEnd(sys: System, doomed: Dll, s: seq<Elem>, i: nat)
    requires sys.Closing(doomed, s, i, null)
    ensures i == |s| && doomed.items == [] && doomed.Valid() && sys.fds.Valid() && Apart(sys.fds.items, s)
  {
  }

  lemma EmptyingStart(sys: System, e: Elem?)
    requires sys.Valid() && e == if sys.fds.items == [] then null else sys.fds.items[0]
    ensures sys.Emptying(sys.fds.items, 0, e)
  {
  }

  lemma EmptyingAt(sys: System, s: seq<Elem>, i: nat, e: Elem?)
    requires sys.Emptying(s, i, e)
    ensures sys.Valid() && if e == null then i == |s| && sys.fds.items == [] && s[..i] == s else i < |s| && e == s[i]
  {
  }

  lemma TailOf(s: seq<Elem>, i: nat)
    requires i < |s|
    ensures s[i..][1..] == s[i + 1..] == Without(s[i..], 0) && s[i..][0] == s[i] && s[..i + 1] == s[..i] + [s[i]]
    ensures forall j :: 0 <= j < |s[i..]| ==> s[i..][j] in s
    ensures s[..|s|] == s
  {
  }

  lemma AlreadyFirst(s: seq<Elem>)
    requires s != []
    ensures ToFront(s, 0) == s
  {
  }

  lemma RingDistinct(s: seq<Elem>)
    requires Ring(s)
    ensures Distinct(s)
  {
  }

  lemma SortedStart(s: seq<Elem>, marks: seq<bool>)
    requires |marks| == |s|
    ensures Sorted(s, marks, 0, s, [])
  {
  }

  /** The entry after the one the loop stands on. */
  lemma SortedNext(s: seq<Elem>, marks: seq<bool>, i: nat, kept: seq<Elem>, gone: seq<Elem>)
    requires Sorted(s, marks, i, kept, gone) && i < |s|
    ensures At(marks, i) < |kept| && kept[At(marks, i)] == s[i] && i < |marks|
    ensures At(marks, i) + 1 < |kept| <==> i + 1 < |s|
    ensures i + 1 < |s| ==> kept[At(marks, i) + 1] == s[i + 1]
  {
    SortedAt(s, marks, i, kept, gone);
    var a := At(marks, i);
    assert |kept[a..]| == |s[i..]| && kept[a..][0] == s[i];
    if i + 1 < |s| { assert kept[a..][1] == s[i..][1]; }
  }

  /** The flags of an entry that has been through the loop; `hit` says whether it was in the range. */
  function Flagged(flags: bv32, hit: bool): bv32 {
    if hit then flags | O_CLOEXEC else flags
  }

  /** Setting the flag only where it is clear sets it everywhere. */
  lemma AlreadySet(flags: bv32)
    ensures Flagged(flags, true) == if !flags & O_CLOEXEC != 0 then flags | O_CLOEXEC else flags
  {
  }

  lemma FlagCases(flags: bv32)
    ensures flags & !CLOSE_RANGE_CLOEXEC == 0 ==> flags == 0 || flags == CLOSE_RANGE_CLOEXEC
    ensures flags == 0 ==> flags & !CLOSE_RANGE_CLOEXEC == 0 && flags & CLOSE_RANGE_CLOEXEC == 0
    ensures flags == CLOSE_RANGE_CLOEXEC ==> flags & !CLOSE_RANGE_CLOEXEC == 0 && flags & CLOSE_RANGE_CLOEXEC != 0
  {
  }
}
