/** Intrusive circular doubly-linked lists (blink/dll.c, blink/dll.h). A list is a pointer to its last element, or null
    when empty; the last element links on to the first. The elements here are the entries of the file descriptor table,
    which is what the links are embedded in. */
module Dlls {
  /** struct Fd with its embedded struct Dll. */
  class Elem {
    var next: Elem
    var prev: Elem
    const fildes: nat
    var oflags: bv32

    /** dll_init: an element starts out as a ring of its own. */
    constructor (fildes: nat, oflags: bv32)
      ensures this.fildes == fildes && this.oflags == oflags && Ring([this])
    {
      this.fildes, this.oflags := fildes, oflags;
      next, prev := this, this;
    }
  }

  predicate Distinct(s: seq<Elem>) {
    forall i, j :: 0 <= i < j < |s| ==> s[i] != s[j]
  }

  function Succ(i: nat, n: nat): nat {
    if i + 1 == n then 0 else i + 1
  }

  function Pred(i: nat, n: nat): nat
    requires i < n
  {
    if i == 0 then n - 1 else i - 1
  }

  ghost predicate LinkedAt(s: seq<Elem>, i: nat)
    requires i < |s|
    reads s`next, s`prev
  {
    s[i].next == s[Succ(i, |s|)] && s[i].prev == s[Pred(i, |s|)]
  }

  /** Following next from s[0] visits s in order and comes back; prev undoes next. */
  ghost predicate Ring(s: seq<Elem>)
    reads s`next, s`prev
  {
    Distinct(s) && forall i :: 0 <= i < |s| ==> LinkedAt(s, i)
  }

  /** Two runs with nothing in common. */
  predicate Apart(s: seq<Elem>, t: seq<Elem>) {
    forall i, j :: 0 <= i < |s| && 0 <= j < |t| ==> s[i] != t[j]
  }

  /** A ring has no beginning. */
  lemma Rotate(s: seq<Elem>, k: nat)
    requires Ring(s) && k <= |s|
    ensures Ring(s[k..] + s[..k])
  {
    var r := s[k..] + s[..k];
    forall i | 0 <= i < |r| ensures LinkedAt(r, i) {
      assert LinkedAt(s, if i < |s| - k then i + k else i - (|s| - k));
    }
  }

  lemma RingEnds(s: seq<Elem>)
    requires Ring(s) && s != []
    ensures s[0].prev == s[|s| - 1] && s[|s| - 1].next == s[0]
  {
    assert LinkedAt(s, 0) && LinkedAt(s, |s| - 1);
  }

  /** dll_splice_after: elem ends one ring and succ starts another; the rings become one. */
  method SpliceAfter(elem: Elem, succ: Elem, ghost s: seq<Elem>, ghost t: seq<Elem>)
    requires Ring(s) && Ring(t) && Apart(s, t) && s != [] && t != []
    requires elem == s[|s| - 1] && succ == t[0]
    modifies s`next, s`prev, t`next, t`prev
    ensures Ring(s + t)
  {
    assert LinkedAt(s, |s| - 1) && LinkedAt(t, 0);
    var tmp1 := elem.next;
    var tmp2 := succ.prev;
    elem.next := succ;
    succ.prev := elem;
    tmp2.next := tmp1;
    tmp1.prev := tmp2;
    forall i | 0 <= i < |s + t| ensures LinkedAt(s + t, i) {
      assert old(if i < |s| then LinkedAt(s, i) else LinkedAt(t, i - |s|));
    }
  }

  /** The list without position k. */
  function Without(s: seq<Elem>, k: nat): seq<Elem>
    requires k < |s|
  {
    s[..k] + s[k + 1..]
  }

  lemma Ends(n: nat, k: nat)
    requires k < n
    ensures Pred(k, n) < n && Succ(k, n) < n && (Pred(k, n) == k <==> n == 1) && (Succ(k, n) == k <==> n == 1)
    ensures k == n - 1 > 0 ==> Pred(k, n) == k - 1
    ensures n > 1 ==> forall j: nat :: j < n ==>
            (Succ(j, n) == k <==> j == Pred(k, n)) && (Pred(j, n) == k <==> j == Succ(k, n))
  {
  }

  lemma WithoutDistinct(s: seq<Elem>, k: nat)
    requires k < |s| && Distinct(s)
    ensures Distinct(Without(s, k)) && |Without(s, k)| == |s| - 1
    ensures |s| > 1 ==> Without(s, k)[|s| - 2] == if k == |s| - 1 then s[|s| - 2] else s[|s| - 1]
  {
  }

  /** Neighbours in the list without position k: as before, but skipping position k. */
  lemma WithoutNeighbours(s: seq<Elem>, k: nat, i: nat)
    requires k < |s| && i < |s| - 1
    ensures var n, j, r := |s|, if i < k then i else i + 1, Without(s, k);
            && |r| == n - 1 && r[i] == s[j] && Succ(i, n - 1) < n - 1 && Pred(i, n - 1) < n - 1
            && r[Succ(i, n - 1)] == (if j == Pred(k, n) then s[Succ(k, n)] else s[Succ(j, n)])
            && r[Pred(i, n - 1)] == (if j == Succ(k, n) then s[Pred(k, n)] else s[Pred(j, n)])
  {
  }

  class Dll {
    /** *list */
    var last: Elem?
    ghost var items: seq<Elem>

    ghost predicate Valid()
      reads this, items`next, items`prev
    {
      Ring(items) && last == if items == [] then null else items[|items| - 1]
    }

    constructor ()
      ensures Valid() && items == []
    {
      last, items := null, [];
    }

    /** dll_first */
    function First(): (e: Elem?)
      reads this, items`next, items`prev
      requires Valid()
      ensures e == if items == [] then null else items[0]
    {
      assert items != [] ==> LinkedAt(items, |items| - 1);
      if last == null then null else last.next
    }

    /** dll_next */
    function Next(e: Elem, ghost k: nat): (r: Elem?)
      reads this, items`next, items`prev
      requires Valid() && k < |items| && items[k] == e
      ensures r == if k + 1 < |items| then items[k + 1] else null
    {
      assert LinkedAt(items, k);
      if e == last then null else e.next
    }

    /** dll_prev */
    function Prev(e: Elem, ghost k: nat): (r: Elem?)
      reads this, items`next, items`prev
      requires Valid() && k < |items| && items[k] == e
      ensures r == if k == 0 then null else items[k - 1]
    {
      assert LinkedAt(items, k) && LinkedAt(items, |items| - 1);
      if e == last.next then null else e.prev
    }

    /** dll_remove: the list loses position k, which becomes a ring of its own. */
    method Remove(elem: Elem, ghost k: nat)
      requires Valid() && k < |items| && items[k] == elem
      modifies this, items`next, items`prev
      ensures Valid() && items == Without(old(items), k) && Ring([elem])
    {
      ghost var s := items;
      assert LinkedAt(s, k);
      Ends(|s|, k);
      if last == elem {
        if last.prev == last {
          last := null;
        } else {
          last := last.prev;
        }
      }
      elem.next.prev := elem.prev;
      elem.prev.next := elem.next;
      elem.next := elem;
      elem.prev := elem;
      hide Without, Succ, Pred;
      items := Without(s, k);
      WithoutDistinct(s, k);
      forall i: nat | i < |items| ensures LinkedAt(items, i) {
        WithoutNeighbours(s, k, i);
        assert old(LinkedAt(s, if i < k then i else i + 1));
      }
    }

    /** dll_make_first: the ring t that starts at elem comes before what was there. */
    method MakeFirst(elem: Elem?, ghost t: seq<Elem>)
      requires Valid() && Ring(t) && Apart(items, t) && elem == if t == [] then null else t[0]
      modifies this, items`next, items`prev, t`next, t`prev
      ensures Valid() && items == t + old(items)
    {
      if elem != null {
        hide Ring, Distinct;
        ghost var s := items;
        if last == null {
          RingEnds(t);
          last := elem.prev;
          assert t + s == t;
        } else {
          SpliceAfter(last, elem, s, t);
          Rotate(s + t, |s|);
          assert (s + t)[|s|..] + (s + t)[..|s|] == t + s;
        }
        items := t + s;
      }
    }

    /** dll_make_last: the ring t that ends with elem comes after what was there. */
    method MakeLast(elem: Elem?, ghost t: seq<Elem>)
      requires Valid() && Ring(t) && Apart(items, t) && elem == if t == [] then null else t[|t| - 1]
      modifies this, items`next, items`prev, t`next, t`prev
      ensures Valid() && items == old(items) + t
    {
      if elem != null {
        ghost var s := items;
        hide Ring, Distinct;
        RingEnds(t);
        MakeFirst(elem.next, t);
        last := elem;
        Rotate(t + s, |t|);
        assert (t + s)[|t|..] + (t + s)[..|t|] == s + t;
        items := s + t;
      }
    }
  }
}
