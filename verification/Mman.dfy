/** mmap and munmap for wasm32 (blink-wasm-mman-impl.c). Each call is atomic under the allocator's mutex. memory.grow is
    the only thing the allocator does not decide: `granted` says whether the engine agrees to grow. */
module Mman {
  import opened Bits
  import opened MmanSpec
  import opened MmanSteps

  // ----- 16-bit masks -----

  /** (1 << n) - 1 << start */
  function RunMask(start: nat, n: nat): nat {
    (Pow2(n) - 1) * Pow2(start)
  }

  lemma Pow2Sixteen()
    ensures Pow2(16) == FULL + 1
  {
    Pow2Words();
  }

  lemma RunMaskBound(start: nat, n: nat)
    requires start + n <= 16
    ensures RunMask(start, n) <= FULL
  {
    Pow2Sixteen();
    Pow2Add(n, start);
    Pow2Mono(start + n, 16);
    hide Pow2;
    assert (Pow2(n) - 1) * Pow2(start) == Pow2(n) * Pow2(start) - Pow2(start);
  }

  lemma RunMaskBit(start: nat, n: nat, j: nat)
    ensures Bit(RunMask(start, n), j) <==> start <= j < start + n
  {
    hide Bit, Pow2;
    ShlBit(Pow2(n) - 1, start, j);
    if j >= start { MaskBit(n, j - start); }
  }

  lemma OrMask(u: nat, start: nat, n: nat)
    requires u <= FULL && start + n <= 16
    ensures Added(u, BitOr(u, RunMask(start, n)), start, n)
  {
    hide Bit, BitOr, Pow2, RunMask;
    RunMaskBound(start, n);
    Pow2Sixteen();
    OrBound(u, RunMask(start, n), 16);
    forall j: nat | j < 16 ensures Bit(BitOr(u, RunMask(start, n)), j) <==> Bit(u, j) || start <= j < start + n {
      OrBit(u, RunMask(start, n), j);
      RunMaskBit(start, n, j);
    }
  }

  lemma AndMask(u: nat, start: nat, n: nat)
    requires u <= FULL && start + n <= 16
    ensures BitAnd(u, RunMask(start, n)) == 0 <==> FreeRun(u, start, n)
  {
    hide Bit, BitAnd, Pow2, RunMask;
    var m := RunMask(start, n);
    forall j: nat ensures Bit(BitAnd(u, m), j) <==> Bit(u, j) && start <= j < start + n {
      AndBit(u, m, j);
      RunMaskBit(start, n, j);
    }
    if BitAnd(u, m) == 0 {
      forall j: nat ensures !Bit(0, j) { ZeroBits(j); }
      assert forall j: nat :: start <= j < start + n ==> !Bit(BitAnd(u, m), j);
    } else if FreeRun(u, start, n) {
      Pow2Sixteen();
      AndBound(u, m, 16);
      forall j: nat | j < 16 ensures Bit(BitAnd(u, m), j) <==> Bit(0, j) { ZeroBits(j); }
      SameBits(BitAnd(u, m), 0, 16);
    }
  }

  lemma ClearMask(u: nat, start: nat, n: nat)
    requires u <= FULL && start + n <= 16
    ensures RunMask(start, n) <= FULL && Removed(u, BitAnd(u, FULL - RunMask(start, n)), start, n)
  {
    hide Bit, BitAnd, Pow2, RunMask;
    RunMaskBound(start, n);
    Pow2Sixteen();
    AndBound(u, FULL - RunMask(start, n), 16);
    forall j: nat | j < 16
      ensures Bit(BitAnd(u, FULL - RunMask(start, n)), j) <==> Bit(u, j) && !(start <= j < start + n)
    {
      AndBit(u, FULL - RunMask(start, n), j);
      NotBit(RunMask(start, n), 16, j);
      RunMaskBit(start, n, j);
    }
  }

  /** A full mask has no free slot; any other has one, and __builtin_ctz of its complement finds the lowest. */
  lemma LowestFree(u: nat)
    requires u <= FULL
    ensures u == FULL ==> forall j: nat :: j < 16 ==> Bit(u, j)
    ensures u < FULL ==> Ctz(FULL - u) < 16 && FreeRun(u, Ctz(FULL - u), 1)
    ensures u < FULL ==> forall j: nat :: j < Ctz(FULL - u) ==> !FreeRun(u, j, 1)
  {
    Pow2Sixteen();
    if u == FULL {
      forall j: nat | j < 16 ensures Bit(u, j) { MaskBit(16, j); }
    } else {
      var c := Ctz(FULL - u);
      if c >= 16 { HighBits(FULL - u, 16, c); }
      NotBit(u, 16, c);
      forall j: nat | j < c ensures !FreeRun(u, j, 1) {
        NotBit(u, 16, j);
        assert Bit(u, j);
      }
    }
  }

  // ----- the partial list -----

  /** Entries agree on everything but the links. */
  ghost predicate SameSlabs(ms: seq<SlabMeta>, ms': seq<SlabMeta>) {
    && |ms| == |ms'|
    && forall i :: 0 <= i < |ms| ==>
        ms[i].base == ms'[i].base && ms[i].used == ms'[i].used && ms[i].nslots == ms'[i].nslots
  }

  lemma LinksKeep(ms: seq<SlabMeta>, ms': seq<SlabMeta>, count: nat, home: map<nat, nat>, pages: map<nat, Kind>,
                  own: map<nat, nat>)
    requires SameSlabs(ms, ms') && SlabsOk(ms, count, home, pages) && MasksOk(ms, home, own)
    ensures SlabsOk(ms', count, home, pages) && MasksOk(ms', home, own)
  {
    hide MaskOk;
    forall i | i in home ensures i < |ms'| && MaskOk(ms'[i].used, home[i], own) {
      assert MaskOk(ms[i].used, home[i], own);
    }
  }

  lemma PushAfter(plist: seq<nat>, i: nat, k: nat)
    requires k <= |plist|
    ensures AfterIdx([i] + plist, k) == AfterIdx(plist, k - 1)
  {
  }

  lemma PushPartial(ms: seq<SlabMeta>, head: int, plist: seq<nat>, i: nat)
    requires PartialOk(ms, head, plist) && i < |ms| && i !in plist
    ensures PartialOk(ms[i := ms[i].(next := head, inPartial := true)], i, [i] + plist)
  {
    hide AfterIdx;
    var ms', p' := ms[i := ms[i].(next := head, inPartial := true)], [i] + plist;
    assert InTable(ms', p');
    forall k | 0 <= k < |p'| ensures ms'[p'[k]].next == AfterIdx(p', k) {
      PushAfter(plist, i, k);
      if k > 0 { assert p'[k] == plist[k - 1]; }
    }
    FirstIdx(p');
  }

  lemma FirstIdx(p: seq<nat>)
    ensures AfterIdx(p, -1) == if p == [] then -1 else p[0]
  {
  }

  /** Unlinking position k: the link before it, or the head, is redirected, and the entry is reset. */
  function Unlinked(ms: seq<SlabMeta>, plist: seq<nat>, k: nat): (r: seq<SlabMeta>)
    requires k < |plist| && InTable(ms, plist)
    ensures SameSlabs(ms, r)
    ensures forall i :: 0 <= i < |ms| ==> (r[i].inPartial <==> ms[i].inPartial && i != plist[k])
    ensures forall i :: 0 <= i < |ms| && i != plist[k] ==>
              r[i].next == if k > 0 && i == plist[k - 1] then AfterIdx(plist, k) else ms[i].next
  {
    var ms1 := if k == 0 then ms else ms[plist[k - 1] := ms[plist[k - 1]].(next := AfterIdx(plist, k))];
    ms1[plist[k] := ms1[plist[k]].(inPartial := false, next := -1)]
  }

  lemma PopAfterIdx(plist: seq<nat>, k: nat, t: int)
    requires k < |plist| && -1 <= t < |plist| - 1
    ensures AfterIdx(plist[..k] + plist[k + 1..], t) ==
            if t < k - 1 then AfterIdx(plist, t) else if t == k - 1 then AfterIdx(plist, k) else AfterIdx(plist, t + 1)
  {
  }

  lemma PopMembers(plist: seq<nat>, k: nat)
    requires Distinct(plist) && k < |plist|
    ensures Distinct(plist[..k] + plist[k + 1..])
    ensures forall i :: i in plist[..k] + plist[k + 1..] <==> i in plist && i != plist[k]
  {
    forall i ensures i in plist[..k] + plist[k + 1..] <==> i in plist && i != plist[k] {
      if i in plist && i != plist[k] { StillListed(plist, k, i); }
    }
  }

  lemma PopNext(ms: seq<SlabMeta>, plist: seq<nat>, k: nat, t: nat)
    requires InTable(ms, plist) && Linked(ms, plist) && Distinct(plist) && k < |plist| && t < |plist| - 1
    ensures var t0 := if t < k then t else t + 1;
            Unlinked(ms, plist, k)[plist[t0]].next == AfterIdx(plist[..k] + plist[k + 1..], t)
  {
    hide AfterIdx, Unlinked;
    var t0 := if t < k then t else t + 1;
    PopAfterIdx(plist, k, t);
    assert ms[plist[t0]].next == AfterIdx(plist, t0) && plist[t0] != plist[k];
    if k > 0 && t0 != k - 1 { assert plist[t0] != plist[k - 1]; }
  }

  lemma PopLinked(ms: seq<SlabMeta>, plist: seq<nat>, k: nat)
    requires InTable(ms, plist) && Linked(ms, plist) && Distinct(plist) && k < |plist|
    ensures var p', ms' := plist[..k] + plist[k + 1..], Unlinked(ms, plist, k); InTable(ms', p') && Linked(ms', p')
  {
    hide Unlinked, AfterIdx;
    var p', ms' := plist[..k] + plist[k + 1..], Unlinked(ms, plist, k);
    assert InTable(ms', p');
    forall t | 0 <= t < |p'| ensures ms'[p'[t]].next == AfterIdx(p', t) {
      assert p'[t] == plist[if t < k then t else t + 1];
      PopNext(ms, plist, k, t);
    }
  }

  lemma PopPartial(ms: seq<SlabMeta>, head: int, plist: seq<nat>, k: nat)
    requires PartialOk(ms, head, plist) && k < |plist|
    ensures var p' := plist[..k] + plist[k + 1..];
            && PartialOk(Unlinked(ms, plist, k), if k == 0 then AfterIdx(plist, 0) else head, p')
            && forall i :: i in p' <==> i in plist && i != plist[k]
  {
    hide Unlinked, AfterIdx, Linked, Distinct, InTable;
    PopMembers(plist, k);
    PopAfterIdx(plist, k, -1);
    PopLinked(ms, plist, k);
  }

  /** Only the mask of entry i changed. */
  lemma UsedKeepsPartial(ms: seq<SlabMeta>, head: int, plist: seq<nat>, i: nat, u: nat)
    requires PartialOk(ms, head, plist) && i < |ms|
    ensures PartialOk(ms[i := ms[i].(used := u)], head, plist)
  {
  }

  lemma MembersExact(ms: seq<SlabMeta>, ms': seq<SlabMeta>, plist: seq<nat>, plist': seq<nat>, i: nat)
    requires PartialExact(ms, plist) && i < |ms| == |ms'|
    requires forall t :: 0 <= t < |ms| && t != i ==>
             ms[t].base == ms'[t].base && ms[t].used == ms'[t].used && (t in plist <==> t in plist')
    requires i in plist' <==> ms'[i].base != 0 && ms'[i].used != FULL
    ensures PartialExact(ms', plist')
  {
  }

  lemma OneSlot(length: nat)
    requires length >= 1
    ensures Slots(length) >= 1
  {
  }

  /** The ghost state once slots of slab i from start on hold a mapping. */
  function SlotsTaken(g: Ghost, i: nat, start: nat, length: nat): Ghost
    requires i in g.home
  {
    var s := 16 * g.home[i] + start;
    g.(live := g.live[s := Region(length, g.home[i])], own := Claim(g.own, s, Slots(length)))
  }

  lemma TakeOk(ms: seq<SlabMeta>, count: nat, partial: int, g: Ghost, i: nat, start: nat, length: nat)
    requires SlabsOk(ms, count, g.home, g.pages) && MasksOk(ms, g.home, g.own)
    requires OwnOk(g.live, g.own) && PagesOk(g.live, g.pages) && PartialOk(ms, partial, g.plist)
    requires i in g.home && i < |ms| && length >= 1 && Small(length) && FreeRun(ms[i].used, start, Slots(length))
    ensures var g', s := SlotsTaken(g, i, start, length), 16 * g.home[i] + start;
            var ms' := ms[i := ms[i].(used := BitOr(ms[i].used, RunMask(start, Slots(length))))];
            && SlabsOk(ms', count, g'.home, g'.pages) && MasksOk(ms', g'.home, g'.own)
            && OwnOk(g'.live, g'.own) && PagesOk(g'.live, g'.pages) && PartialOk(ms', partial, g'.plist)
            && g' == g.(live := g.live[s := Region(length, g.home[i])], own := g'.own) && s !in g.live
    ensures ms[i].base == g.home[i] * 0x1_0000 != 0 && ms[i].used != FULL
  {
    hide SlabsOk, MasksOk, OwnOk, PagesOk, PartialOk, MaskOk, Slots, FreeRun, Added, Claim, BitOr, RunMask;
    var n := Slots(length);
    SlabFacts(ms, count, g.home, g.pages, g.own, i);
    OneSlot(length);
    FreeRunFits(ms[i].used, start, n);
    OrMask(ms[i].used, start, n);
    TakeSlots(ms, count, g, i, start, length, BitOr(ms[i].used, RunMask(start, n)));
    UsedKeepsPartial(ms, partial, g.plist, i, BitOr(ms[i].used, RunMask(start, n)));
    RunLeavesRoom(ms[i].used, start, n);
  }

  lemma ListedExactly(ms: seq<SlabMeta>, plist: seq<nat>, i: nat)
    requires PartialExact(ms, plist) && i < |ms|
    ensures i in plist <==> ms[i].base != 0 && ms[i].used != FULL
  {
  }

  /** The list stays exact when one mask changes and the slab is listed or unlisted accordingly. */
  lemma UsedExact(ms: seq<SlabMeta>, ms1: seq<SlabMeta>, ms2: seq<SlabMeta>, plist: seq<nat>, plist': seq<nat>, i: nat)
    requires PartialExact(ms, plist) && i < |ms| == |ms1| && ms1 == ms[i := ms1[i]] && SameSlabs(ms1, ms2)
    requires forall t :: t != i ==> (t in plist <==> t in plist')
    requires i in plist' <==> ms1[i].base != 0 && ms1[i].used != FULL
    ensures PartialExact(ms2, plist')
  {
    forall t | 0 <= t < |ms2| ensures t in plist' <==> ms2[t].base != 0 && ms2[t].used != FULL {
      assert ms2[t].base == ms1[t].base && ms2[t].used == ms1[t].used;
      if t != i { assert ms1[t] == ms[t]; }
    }
  }

  /** No active slab has n consecutive free slots. */
  ghost predicate NoRun(ms: seq<SlabMeta>, n: nat) {
    forall i, start: nat {:trigger FreeRun(ms[i].used, start, n)} :: 0 <= i < |ms| && ms[i].base != 0 ==>
        !FreeRun(ms[i].used, start, n)
  }

  /** What a request for no slots at all, the remains of a wrapped size, gets: the base of the first listed slab, which
      others are using, or of a new one. */
  ghost predicate Wrapped(ms: seq<SlabMeta>, count: nat, partial: int, memPages: nat, granted: bool, addr: nat) {
    && (addr == 0 <==> partial == -1 && NoSlab(ms, count, memPages, granted))
    && (0 <= partial < |ms| ==> addr == ms[partial].base)
    && (partial == -1 && addr != 0 ==> addr == memPages * 0x1_0000)
    && addr % 4096 == 0
  }

  lemma EmptyRun(u: nat)
    ensures FreeRun(u, 0, 0)
  {
  }

  lemma AtIs(ms: seq<SlabMeta>, plist: seq<nat>, k: nat, idx: int)
    requires At(ms, plist, k, idx) && k <= |plist|
    ensures if k < |plist| then idx == plist[k] && 0 <= idx < |ms| else idx == -1
  {
  }

  lemma SlabBase(ms: seq<SlabMeta>, count: nat, g: Ghost, i: nat)
    requires SlabsOk(ms, count, g.home, g.pages) && i in g.home
    ensures i < |ms| && ms[i].base % 4096 == 0 != ms[i].base
  {
    assert ms[i].base != 0 && ms[i].base == g.home[i] * 0x1_0000;
    hide *;
    PageAligned(g.home[i]);
  }

  lemma PageAligned(p: nat)
    ensures p * 0x1_0000 % 4096 == 0
  {
    assert p * 0x1_0000 == 4096 * (16 * p);
  }

  /** No page can be turned into a new slab: memory does not grow, or every entry of g_meta is in use. */
  ghost predicate NoSlab(ms: seq<SlabMeta>, count: nat, memPages: nat, granted: bool) {
    !granted || memPages + 1 > 0x1_0000 || (count == MAX_SLABS && forall i :: 0 <= i < |ms| ==> ms[i].base != 0)
  }

  /** Slot s is where the first run of n free slots starts, in the first slab of the list that has one. */
  ghost predicate FirstFit(ms: seq<SlabMeta>, g: Ghost, n: nat, k: nat, start: nat, s: nat) {
    && k < |g.plist| && g.plist[k] < |ms| && g.plist[k] in g.home && s == 16 * g.home[g.plist[k]] + start
    && (forall t :: 0 <= t < k ==> Visited(ms, g.plist, t, n))
    && FreeRun(ms[g.plist[k]].used, start, n) && forall t: nat :: t < start ==> !FreeRun(ms[g.plist[k]].used, t, n)
  }

  /** The same, by slab and position in it. */
  ghost predicate Fit(ms: seq<SlabMeta>, g: Ghost, n: nat, k: nat, idx: int, start: nat) {
    && k < |g.plist| && g.plist[k] == idx && g.plist[k] < |ms| && g.plist[k] in g.home
    && (forall t :: 0 <= t < k ==> Visited(ms, g.plist, t, n))
    && FreeRun(ms[g.plist[k]].used, start, n) && forall t: nat :: t < start ==> !FreeRun(ms[g.plist[k]].used, t, n)
  }

  lemma FitIs(ms: seq<SlabMeta>, g: Ghost, n: nat, k: nat, start: nat)
    requires k < |g.plist| && g.plist[k] < |ms| && g.plist[k] in g.home
    requires forall t :: 0 <= t < k ==> Visited(ms, g.plist, t, n)
    requires FreeRun(ms[g.plist[k]].used, start, n)
    requires forall t: nat :: t < start ==> !FreeRun(ms[g.plist[k]].used, t, n)
    ensures Fit(ms, g, n, k, g.plist[k], start)
  {
    hide Visited, FreeRun;
  }

  lemma FirstFitIs(ms: seq<SlabMeta>, g: Ghost, n: nat, k: nat, idx: int, start: nat, s: nat)
    requires Fit(ms, g, n, k, idx, start) && idx in g.home && s == 16 * g.home[idx] + start
    ensures FirstFit(ms, g, n, k, start, s)
  {
    hide Visited, FreeRun;
  }

  /** The head of the list is a slab or -1. */
  lemma PartialIs(ms: seq<SlabMeta>, count: nat, partial: int, bigFree: nat, heap: map<nat, BigFree>, memPages: nat,
                  g: Ghost)
    requires Inv(ms, count, partial, bigFree, heap, memPages, g)
    ensures -1 <= partial < |ms| && memPages >= 1
  {
    hide SlabsOk, MasksOk, OwnOk, PagesOk, FreeOk, Linked, Distinct;
  }

  lemma HasRun(ms: seq<SlabMeta>, i: nat, start: nat, n: nat)
    requires i < |ms| && ms[i].base != 0 && FreeRun(ms[i].used, start, n)
    ensures !NoRun(ms, n)
  {
  }

  lemma EmptyTables(ms: seq<SlabMeta>)
    requires forall i :: 0 <= i < |ms| ==> ms[i] == SlabMeta(0, 0, 0, false, 0)
    ensures SlabsOk(ms, 0, map[], map[]) && MasksOk(ms, map[], map[])
  {
  }

  lemma EmptyList(ms: seq<SlabMeta>)
    requires forall i :: 0 <= i < |ms| ==> ms[i] == SlabMeta(0, 0, 0, false, 0)
    ensures PartialOk(ms, -1, []) && PartialExact(ms, [])
  {
  }

  lemma EmptyMaps(memPages: nat, bytes: nat -> nat)
    requires 1 <= memPages <= 0x1_0000
    ensures OwnOk(map[], map[]) && PagesOk(map[], map[]) && FreeOk([], 0, map[], map[]) && MemoryOk(map[], memPages)
    ensures HeadersOk(bytes, [], map[])
  {
  }

  /** The state before anything has been mapped. */
  lemma EmptyInv(ms: seq<SlabMeta>, memPages: nat, bytes: nat -> nat)
    requires 1 <= memPages <= 0x1_0000 && forall i :: 0 <= i < |ms| ==> ms[i] == SlabMeta(0, 0, 0, false, 0)
    ensures Inv(ms, 0, -1, 0, map[], memPages, Ghost(map[], map[], map[], map[], [], [])) && HeadersOk(bytes, [], map[])
  {
    hide SlabsOk, MasksOk, OwnOk, PagesOk, PartialOk, PartialExact, FreeOk, MemoryOk, HeadersOk;
    EmptyTables(ms);
    EmptyList(ms);
    EmptyMaps(memPages, bytes);
  }

  class Allocator {
    const meta: array<SlabMeta>
    var count: nat
    /** g_partial: head of the list of slabs with room, -1 if empty. */
    var partial: int
    /** g_big_free: first page of the first freed block, 0 if none. */
    var bigFree: nat
    /** The headers of freed blocks, by page; `bytes` is where they are kept. */
    ghost var heap: map<nat, BigFree>
    /** Size of linear memory in pages. */
    var memPages: nat
    /** Every byte of memory. */
    var bytes: nat -> nat
    ghost var g: Ghost
    /** Pages of linear memory that the allocator did not grow. */
    ghost var foreign: nat

    ghost predicate Valid()
      reads this, meta
    {
      && meta.Length == MAX_SLABS && count <= MAX_SLABS && |g.pages.Keys| + foreign == memPages
      && Inv(meta[..], count, partial, bigFree, heap, memPages, g) && HeadersOk(bytes, g.flist, heap)
    }

    /** Static initialisation, with some pages of linear memory already in use by the program. */
    constructor (initialPages: nat, initial: nat -> nat)
      requires 1 <= initialPages <= 0x1_0000
      ensures Valid() && fresh(meta) && memPages == initialPages && bytes == initial && count == 0 && partial == -1
      ensures g == Ghost(map[], map[], map[], map[], [], [])
    {
      meta := new SlabMeta[MAX_SLABS](_ => SlabMeta(0, 0, 0, false, 0));
      count, partial, bigFree, heap, memPages, bytes := 0, -1, 0, map[], initialPages, initial;
      g := Ghost(map[], map[], map[], map[], [], []);
      foreign := initialPages;
      new;
      hide Inv, HeadersOk;
      EmptyInv(meta[..], memPages, bytes);
    }

    /** Somebody else, such as sbrk, grows linear memory. */
    method ForeignGrow(n: nat)
      requires Valid() && memPages + n <= 0x1_0000
      modifies this`memPages, this`foreign
      ensures Valid() && memPages == old(memPages) + n
    {
      memPages := memPages + n;
      foreign := foreign + n;
    }

    /** The owner of a mapping writes n bytes at offset off. No other mapping changes, and the headers of freed blocks
        survive. */
    method UserWrite(s: nat, off: nat, n: nat, data: nat -> nat)
      requires Valid() && s in g.live && off + n <= g.live[s].length
      modifies this`bytes
      ensures Valid() && bytes == Poked(old(bytes), 4096 * s + off, n, data)
      ensures Untouched(g.live - {s}, old(bytes), bytes)
    {
      hide Inv, Poked, Untouched, Overlap, HeadersOk;
      WriteOk(meta[..], count, partial, bigFree, heap, memPages, g, bytes, s, off, n, data);
      PokeUntouched(g.live - {s}, bytes, 4096 * s + off, n, data);
      bytes := Poked(bytes, 4096 * s + off, n, data);
    }

    // ----- metadata -----

    method MetaFindByBase(base: nat) returns (r: int)
      requires count <= meta.Length
      ensures -1 <= r < count
      ensures r >= 0 ==> meta[r].base == base
      ensures r == -1 ==> forall i :: 0 <= i < count ==> meta[i].base != base
    {
      var i := 0;
      while i < count
        invariant 0 <= i <= count
        invariant forall t :: 0 <= t < i ==> meta[t].base != base
      {
        if meta[i].base == base { return i; }
        i := i + 1;
      }
      r := -1;
    }

    method MetaAlloc() returns (r: int)
      requires count <= meta.Length == MAX_SLABS
      modifies this`count
      ensures old(count) <= count <= MAX_SLABS && -1 <= r < count
      ensures r == -1 ==> count == old(count) == MAX_SLABS && forall i :: 0 <= i < count ==> meta[i].base != 0
      ensures r >= 0 ==> meta[r].base == 0 || r == old(count)
    {
      var i := 0;
      while i < count
        invariant 0 <= i <= count
        invariant forall t :: 0 <= t < i ==> meta[t].base != 0
      {
        if meta[i].base == 0 { return i; }
        i := i + 1;
      }
      if count >= MAX_SLABS { return -1; }
      r := count;
      count := count + 1;
    }

    method PartialAdd(idx: nat)
      requires PartialOk(meta[..], partial, g.plist) && idx < meta.Length
      modifies this`partial, this`g, meta
      ensures PartialOk(meta[..], partial, g.plist) && SameSlabs(old(meta[..]), meta[..])
      ensures g == old(g).(plist := g.plist)
      ensures forall i :: i in g.plist <==> i in old(g.plist) || i == idx
    {
      if meta[idx].inPartial { return; }
      PushPartial(meta[..], partial, g.plist, idx);
      ghost var ms := meta[..];
      meta[idx] := meta[idx].(next := partial);
      partial := idx;
      meta[idx] := meta[idx].(inPartial := true);
      g := g.(plist := [idx] + g.plist);
      assert meta[..] == ms[idx := ms[idx].(next := old(partial), inPartial := true)];
    }

    /** The walk of partial_remove, with a trailing pointer; it ends because the list is acyclic. */
    method FindLink(idx: nat) returns (prev: int, ghost k: nat)
      requires PartialOk(meta[..], partial, g.plist) && idx in g.plist
      ensures k < |g.plist| && g.plist[k] == idx && prev == if k == 0 then -1 else g.plist[k - 1]
    {
      ghost var ms, pl := meta[..], g.plist;
      hide AfterIdx, Linked, Distinct, PartialOk;
      PartialParts(ms, partial, pl);
      FirstIdx(pl);
      prev := -1;
      var cur := partial;
      k := 0;
      while cur != idx
        invariant 0 <= k < |pl| && cur == pl[k] && idx in pl[k..]
        invariant prev == (if k == 0 then -1 else pl[k - 1])
        decreases |pl| - k
      {
        NextIdx(ms, pl, k);
        prev, cur := cur, meta[cur].next;
        k := k + 1;
      }
    }

    method PartialRemove(idx: nat)
      requires PartialOk(meta[..], partial, g.plist) && idx < meta.Length
      modifies this`partial, this`g, meta
      ensures PartialOk(meta[..], partial, g.plist) && SameSlabs(old(meta[..]), meta[..])
      ensures g == old(g).(plist := g.plist)
      ensures forall i :: i in g.plist <==> i in old(g.plist) && i != idx
    {
      hide AfterIdx, Linked, Distinct, Unlinked, PartialOk, SameSlabs;
      ghost var ms, pl := meta[..], g.plist;
      PartialParts(ms, partial, pl);
      if !meta[idx].inPartial {
        SameItself(ms);
        return;
      }
      var prev, k := FindLink(idx);
      PopPartial(ms, partial, pl, k);
      NextIdx(ms, pl, k);
      FarIdx(pl, k);
      UnlinkedIs(ms, pl, k);
      if prev == -1 {
        partial := meta[idx].next;
      } else {
        meta[prev] := meta[prev].(next := meta[idx].next);
      }
      meta[idx] := meta[idx].(inPartial := false);
      meta[idx] := meta[idx].(next := -1);
      g := g.(plist := pl[..k] + pl[k + 1..]);
      assert meta[..] == Unlinked(ms, pl, k);
    }

    // ----- slots -----

    /** bw_grow: the first of n new pages, or 0. The address of a page past 4 GiB wraps to NULL; that can only happen
        when no page is asked for. */
    method Grow(n: nat, granted: bool) returns (page: nat)
      modifies this`memPages
      ensures n == 0 ==> memPages == old(memPages) && page == if granted && memPages < 0x1_0000 then memPages else 0
      ensures page == 0 && n >= 1 ==>
              old(memPages) == 0 || (memPages == old(memPages) && (!granted || memPages + n > 0x1_0000))
      ensures page != 0 ==> granted && page == old(memPages) && memPages == page + n <= 0x1_0000
    {
      if !granted || memPages + n > 0x1_0000 { return 0; }
      page := if memPages == 0x1_0000 then 0 else memPages;
      memPages := memPages + n;
    }

    /** Marks n slots of slab idx used and unlinks the slab if that filled it. */
    method Take(idx: nat, start: nat, n: nat, ghost length: nat) returns (addr: nat, ghost s: nat)
      requires Valid() && idx in g.home && length >= 1 && Slots(length) == n <= 16
      requires FreeRun(meta[idx].used, start, n)
      modifies this`partial, this`g, meta
      ensures Valid() && s !in old(g.live) && addr == 4096 * s != 0 && s == 16 * old(g.home)[idx] + start
      ensures g == old(g).(live := g.live, own := g.own, plist := g.plist)
      ensures g.live == old(g.live)[s := Region(length, old(g.home)[idx])]
    {
      hide SlabsOk, MasksOk, OwnOk, PagesOk, PartialOk, FreeOk, MemoryOk, MaskOk, Slots, FreeRun, HeadersOk,
          PartialExact, SameSlabs, BitOr, RunMask, SlotsTaken;
      ghost var ms := meta[..];
      SlabFacts(ms, count, g.home, g.pages, g.own, idx);
      ghost var u := BitOr(ms[idx].used, RunMask(start, n));
      s := 16 * g.home[idx] + start;
      TakeOk(ms, count, partial, g, idx, start, length);
      ListedExactly(ms, g.plist, idx);
      meta[idx] := meta[idx].(used := BitOr(meta[idx].used, RunMask(start, n)));
      ghost var ms1 := meta[..];
      assert ms1 == ms[idx := ms[idx].(used := u)];
      addr := meta[idx].base + start * 4096;
      g := SlotsTaken(g, idx, start, length);
      SameItself(ms1);
      if meta[idx].used == FULL { PartialRemove(idx); }
      LinksKeep(ms1, meta[..], count, g.home, g.pages, g.own);
      UsedExact(ms, ms1, meta[..], old(g.plist), g.plist, idx);
    }

    /** A fresh slab with its first n slots in use: the common end of alloc_4k and alloc_nslots_in_slab. When no entry
        of g_meta is left the page has been grown for nothing. */
    method GrowSlab(n: nat, granted: bool, ghost length: nat) returns (addr: nat, ghost s: nat)
      requires Valid() && n <= 16 && (n >= 1 ==> length >= 1 && Slots(length) == n)
      modifies this, meta
      ensures Valid() && foreign == old(foreign)
      ensures addr == 0 || n == 0 ==> g.live == old(g.live)
      ensures addr != 0 && n >= 1 ==> s !in old(g.live) && addr == 4096 * s && s in g.live
      ensures addr != 0 && n >= 1 ==> g.live == old(g.live)[s := Region(length, g.live[s].page)]
      ensures addr == 0 <==> NoSlab(old(meta[..]), old(count), old(memPages), granted)
      ensures addr != 0 ==> addr == old(memPages) * 0x1_0000 && memPages == old(memPages) + 1
      ensures addr == 0 ==> g == old(g) || (g == WithRetired(old(g), old(memPages)) && memPages == old(memPages) + 1)
      ensures bytes == old(bytes) && old(count) <= count
    {
      hide SlabsOk, MasksOk, OwnOk, PagesOk, PartialOk, PartialExact, FreeOk, MemoryOk, Slots, WithSlab, WithRetired,
          RunMask, HeadersOk;
      ghost var ms, g0 := meta[..], g;
      s := 0;
      GrowMemory(g.pages, memPages, 1);
      var page := Grow(1, granted);
      if page == 0 { return 0, 0; }
      var mi := MetaAlloc();
      if mi < 0 {
        RetireFresh(ms, count, g, bigFree, heap, page);
        g := WithRetired(g, page);
        return 0, 0;
      }
      UnusedEntry(ms, old(count), count, g.home, g.pages, mi);
      assert ms[mi].base == 0;
      NotListed(ms, g.plist, mi);
      NewSlabOk(ms, count, g, partial, bigFree, heap, mi, page, n, length);
      meta[mi] := SlabMeta(page * 0x1_0000, RunMask(0, n), 1, false, -1);
      g := WithSlab(g, mi, page, n, length);
      ghost var ms2 := meta[..];
      assert ms2 == ms[mi := SlabMeta(page * 0x1_0000, RunMask(0, n), 1, false, -1)];
      if n >= 1 { s := 16 * page; }
      if meta[mi].used != FULL { PartialAdd(mi); }
      LinksKeep(ms2, meta[..], count, g.home, g.pages, g.own);
      MembersExact(ms, meta[..], g0.plist, g.plist, mi);
      addr := page * 0x1_0000;
    }

    /** The walk of alloc_4k along the partial list: the first slab with room and its lowest free slot, or -1. */
    method FindRoom() returns (idx: int, slot: nat, ghost k: nat)
      requires Valid()
      ensures idx == -1 ==> NoRun(meta[..], 1)
      ensures idx != -1 ==> 0 <= idx < meta.Length && idx in g.home && !NoRun(meta[..], 1)
      ensures idx != -1 ==> FreeRun(meta[idx].used, slot, 1) && Fit(meta[..], g, 1, k, idx, slot)
    {
      hide SlabsOk, MasksOk, OwnOk, PagesOk, PartialOk, PartialExact, FreeOk, MemoryOk, NoRun, FreeRun, Visited, At,
          HeadersOk, Fit;
      idx, slot, k := partial, 0, 0;
      ghost var ms, pl := meta[..], g.plist;
      ListStart(ms, partial, pl);
      while idx != -1
        invariant 0 <= k <= |pl| && At(ms, pl, k, idx)
        invariant forall t :: 0 <= t < k ==> Visited(ms, pl, t, 1)
        decreases |pl| - k
      {
        AtIs(ms, pl, k, idx);
        ListMember(ms, count, partial, g, k);
        if meta[idx].nslots == 1 && meta[idx].used != FULL {
          LowestFree(meta[idx].used);
          slot := Ctz(FULL - meta[idx].used);
          HasRun(ms, idx, slot, 1);
          FitIs(ms, g, 1, k, slot);
          return;
        }
        FullVisited(ms, count, g, k);
        idx := meta[idx].next;
        k := k + 1;
      }
      AtIs(ms, pl, k, idx);
      Searched(ms, count, g, 1);
    }

    /** alloc_4k: the lowest free slot of the first slab with room, else a new slab. */
    method Alloc4k(granted: bool, ghost length: nat) returns (addr: nat, ghost s: nat)
      requires Valid() && length >= 1 && Slots(length) == 1
      modifies this, meta
      ensures Valid() && foreign == old(foreign) && bytes == old(bytes)
      ensures addr == 0 ==> g.live == old(g.live)
      ensures addr != 0 ==> s !in old(g.live) && addr == 4096 * s && s in g.live
      ensures addr != 0 ==> g.live == old(g.live)[s := Region(length, g.live[s].page)]
      ensures addr == 0 <==> NoRun(old(meta[..]), 1) && NoSlab(old(meta[..]), old(count), old(memPages), granted)
      ensures memPages != old(memPages) ==> NoRun(old(meta[..]), 1)
      ensures addr != 0 && memPages == old(memPages) ==>
                exists k: nat, start: nat :: FirstFit(old(meta[..]), old(g), 1, k, start, s)
    {
      hide Inv, HeadersOk, Slots, NoRun, NoSlab, FreeRun, FirstFit, Fit;
      var idx, slot, k := FindRoom();
      if idx != -1 {
        addr, s := Take(idx, slot, 1, length);
        FirstFitIs(old(meta[..]), old(g), 1, k, idx, slot, s);
      } else {
        addr, s := GrowSlab(1, granted, length);
      }
    }

    /** Tries each alignment in turn: the first run of n free slots in a mask, or -1. */
    method FindRun(used: nat, n: nat) returns (start: int)
      requires used <= FULL && n <= 16
      ensures -1 <= start <= 16 - n && (n == 0 ==> start == 0)
      ensures start == -1 ==> forall t: nat :: !FreeRun(used, t, n)
      ensures start >= 0 ==> FreeRun(used, start, n) && forall t: nat :: t < start ==> !FreeRun(used, t, n)
    {
      hide FreeRun, RunMask;
      start := 0;
      EmptyRun(used);
      while start + n <= 16
        invariant 0 <= start <= 17 - n && (n == 0 ==> start == 0)
        invariant forall t: nat :: t < start ==> !FreeRun(used, t, n)
      {
        AndMask(used, start, n);
        if BitAnd(used, RunMask(start, n)) == 0 { return; }
        start := start + 1;
      }
      forall t: nat ensures !FreeRun(used, t, n) {
        if FreeRun(used, t, n) { FreeRunFits(used, t, n); }
      }
      start := -1;
    }

    /** The walk of alloc_nslots_in_slab along the partial list: the first slab with a run of n free slots and the first
        such run, or -1. */
    method FindSlab(n: nat) returns (idx: int, start: int, ghost k: nat)
      requires Valid() && n <= 16
      ensures idx == -1 ==> if n == 0 then partial == -1 else NoRun(meta[..], n)
      ensures idx != -1 ==>
                && 0 <= idx < meta.Length && idx in g.home && start >= 0 && meta[idx].base % 4096 == 0 != meta[idx].base
                && FreeRun(meta[idx].used, start, n) && Fit(meta[..], g, n, k, idx, start) && !NoRun(meta[..], n)
      ensures idx != -1 && n == 0 ==> idx == partial && start == 0
    {
      hide SlabsOk, MasksOk, OwnOk, PagesOk, PartialOk, PartialExact, FreeOk, MemoryOk, NoRun, FreeRun, Visited, At,
          HeadersOk, Fit;
      idx, start, k := partial, -1, 0;
      ghost var ms, pl := meta[..], g.plist;
      ListStart(ms, partial, pl);
      while idx != -1
        invariant 0 <= k <= |pl| && At(ms, pl, k, idx) && (k == 0 ==> idx == partial) && (n == 0 ==> k == 0)
        invariant forall t :: 0 <= t < k ==> Visited(ms, pl, t, n)
        decreases |pl| - k
      {
        AtIs(ms, pl, k, idx);
        ListMember(ms, count, partial, g, k);
        if meta[idx].nslots == 1 {
          start := FindRun(meta[idx].used, n);
          if start >= 0 {
            SlabBase(ms, count, g, idx);
            HasRun(ms, idx, start, n);
            FitIs(ms, g, n, k, start);
            return;
          }
          NoRunVisited(ms, pl, k, n);
        }
        idx := meta[idx].next;
        k := k + 1;
      }
      AtIs(ms, pl, k, idx);
      if n >= 1 { Searched(ms, count, g, n); }
    }

    /** alloc_nslots_in_slab: the first run of n free slots in the first slab that has one, else a new slab. A wrapped
        size asks for n = 0 slots, which every slab has: then nothing is reserved and a base address is returned. */
    method AllocSlots(n: nat, granted: bool, ghost length: nat) returns (addr: nat, ghost s: nat)
      requires Valid() && n <= 16 && (n >= 1 ==> length >= 1 && Slots(length) == n)
      modifies this, meta
      ensures Valid() && foreign == old(foreign) && bytes == old(bytes)
      ensures addr == 0 || n == 0 ==> g.live == old(g.live)
      ensures addr != 0 && n >= 1 ==> s !in old(g.live) && addr == 4096 * s && s in g.live
      ensures addr != 0 && n >= 1 ==> g.live == old(g.live)[s := Region(length, g.live[s].page)]
      ensures n >= 1 ==> (addr == 0 <==>
              NoRun(old(meta[..]), n) && NoSlab(old(meta[..]), old(count), old(memPages), granted))
      ensures n >= 1 && memPages != old(memPages) ==> NoRun(old(meta[..]), n)
      ensures n >= 1 && addr != 0 && memPages == old(memPages) ==>
                exists k: nat, start: nat :: FirstFit(old(meta[..]), old(g), n, k, start, s)
      ensures n == 0 ==> Wrapped(old(meta[..]), old(count), old(partial), old(memPages), granted, addr)
    {
      hide Inv, HeadersOk, Slots, NoRun, NoSlab, FreeRun, FirstFit, Fit;
      PartialIs(meta[..], count, partial, bigFree, heap, memPages, g);
      var idx, start, k := FindSlab(n);
      if idx != -1 {
        if n == 0 { return meta[idx].base + start * 4096, 0; }
        addr, s := Take(idx, start, n, length);
        FirstFitIs(old(meta[..]), old(g), n, k, idx, start, s);
      } else {
        addr, s := GrowSlab(n, granted, length);
      }
    }

    // ----- big blocks -----

    /** Takes the k-th freed block off the list. */
    method Reuse(prev: nat, cur: nat, ghost k: nat, ghost length: nat) returns (addr: nat, ghost s: nat)
      requires Valid() && length >= 1 && !Small(length)
      requires k < |g.flist| && cur == g.flist[k] && prev == if k == 0 then 0 else g.flist[k - 1]
      requires cur in heap && heap[cur].npages == Pages(Slots(length))
      modifies this`bigFree, this`heap, this`bytes, this`g
      ensures Valid() && s !in old(g.live) && addr == 4096 * s != 0 && s in g.live && s == 16 * cur
      ensures g.live == old(g.live)[s := Region(length, g.live[s].page)]
      ensures Untouched(old(g.live), old(bytes), bytes)
    {
      hide Inv, HeadersOk, Slots, Pages, BigTaken, Poked, Untouched, LoadHeader, WordBytes, HeadWithout, HeapWithout,
          BytesWithout;
      ghost var fl := g.flist;
      ReuseAll(meta[..], count, partial, g, bigFree, heap, memPages, bytes, k, length);
      WithoutIs(fl, bigFree, heap, bytes, k);
      var h := LoadHeader(bytes, cur);
      if prev == 0 {
        bigFree := h.next;
      } else {
        heap := heap[prev := heap[prev].(next := h.next)];
        bytes := Poked(bytes, prev * 0x1_0000 + 8, 4, WordBytes(h.next * 0x1_0000));
      }
      s := 16 * cur;
      addr := h.base * 0x1_0000;
      g := BigTaken(g, fl[..k] + fl[k + 1..], cur, length);
    }

    /** np new pages for a mapping, or, for np = 0, just the address of the end of memory. */
    method GrowBig(np: nat, granted: bool, ghost length: nat) returns (addr: nat, ghost s: nat)
      requires Valid() && length >= 1 && !Small(length) && (np == 0 || np == Pages(Slots(length)))
      modifies this`memPages, this`g
      ensures Valid()
      ensures addr == 0 || np == 0 ==> g.live == old(g.live)
      ensures np == 0 ==> memPages == old(memPages)
      ensures np == 0 ==> addr == if granted && memPages < 0x1_0000 then memPages * 0x1_0000 else 0
      ensures addr != 0 && np > 0 ==>
              s !in old(g.live) && addr == 4096 * s && s in g.live && memPages == old(memPages) + np
      ensures addr != 0 && np > 0 ==> g.live == old(g.live)[s := Region(length, g.live[s].page)]
      ensures np > 0 ==> (addr == 0 <==> !granted || old(memPages) + np > 0x1_0000)
    {
      hide SlabsOk, MasksOk, OwnOk, PagesOk, PartialOk, PartialExact, FreeOk, MemoryOk, Slots, Pages, BigTaken,
          HeadersOk;
      GrowMemory(g.pages, memPages, np);
      BigNotEmpty(length);
      var page := Grow(np, granted);
      s := 16 * page;
      addr := page * 0x1_0000;
      if page != 0 && np > 0 {
        FreshBigOk(meta[..], count, g, bigFree, heap, page, length);
        BigTakenList(g, g.flist, page, length);
        g := BigTaken(g, g.flist, page, length);
      }
    }

    /** alloc_big: the first freed block of exactly np pages, else new pages. A wrapped size asks for np = 0 pages; no
        freed block has none, and the end of memory is returned. */
    method AllocBig(np: nat, granted: bool, ghost length: nat) returns (addr: nat, ghost s: nat)
      requires Valid() && length >= 1 && !Small(length) && (np == 0 || np == Pages(Slots(length)))
      modifies this
      ensures Valid() && foreign == old(foreign) && Untouched(old(g.live), old(bytes), bytes)
      ensures addr == 0 || np == 0 ==> g.live == old(g.live)
      ensures np == 0 ==> memPages == old(memPages)
      ensures np == 0 ==> addr == if granted && memPages < 0x1_0000 then memPages * 0x1_0000 else 0
      ensures addr != 0 && np > 0 ==> s !in old(g.live) && addr == 4096 * s && s in g.live
      ensures addr != 0 && np > 0 ==> g.live == old(g.live)[s := Region(length, g.live[s].page)]
      ensures np > 0 ==> (addr == 0 <==>
              NoBlock(old(g.flist), old(heap), np) && (!granted || old(memPages) + np > 0x1_0000))
      ensures memPages != old(memPages) ==> NoBlock(old(g.flist), old(heap), np)
      ensures addr != 0 && np > 0 && memPages == old(memPages) ==>
                exists k: nat :: FirstBlock(old(g.flist), old(heap), np, k, s)
    {
      hide SlabsOk, MasksOk, OwnOk, PagesOk, PartialOk, PartialExact, FreeOk, MemoryOk, Slots, Pages, Untouched,
          FirstBlock, HeadersOk, LoadHeader;
      ghost var fl, hp := g.flist, heap;
      var prev, cur := 0, bigFree;
      ghost var k := 0;
      BlockStart(fl, bigFree, heap, g.pages);
      Still(g.live, bytes);
      while cur != 0
        invariant unchanged(this) && Valid()
        invariant 0 <= k <= |fl| && BlockAt(fl, k, cur) && prev == (if k == 0 then 0 else fl[k - 1])
        invariant forall t :: 0 <= t < k ==> fl[t] in hp && hp[fl[t]].npages != np
        decreases |fl| - k
      {
        BlockMember(fl, bigFree, heap, g.pages, k);
        HeaderIs(bytes, fl, heap, k);
        if LoadHeader(bytes, cur).npages == np {
          FirstBlockIs(fl, heap, np, k);
          addr, s := Reuse(prev, cur, k, length);
          return;
        }
        prev, cur := cur, LoadHeader(bytes, cur).next;
        k := k + 1;
      }
      addr, s := GrowBig(np, granted, length);
    }

    // ----- mmap and munmap -----

    /** The three-way choice in mmap. */
    method Reserve(nslots: nat, np: nat, granted: bool, ghost length: nat) returns (addr: nat, ghost s: nat)
      requires Valid() && length >= 1 && nslots == (if length <= MAX_ROUNDED then Slots(length) else 0)
      requires nslots > 16 ==> np == if length <= MAX_LENGTH then Pages(nslots) else 0
      modifies this, meta
      ensures Valid() && foreign == old(foreign) && Untouched(old(g.live), old(bytes), bytes)
      ensures addr == 0 || length > MAX_LENGTH ==> g.live == old(g.live)
      ensures addr != 0 && length <= MAX_LENGTH ==> HandedOut(old(g.live), g.live, addr, s, length)
      ensures length <= MAX_LENGTH ==>
                (addr == 0 <==> Refused(old(meta[..]), old(count), old(memPages), old(g), old(heap), granted, length))
      ensures length <= MAX_LENGTH && memPages != old(memPages) && nslots <= 16 ==> NoRun(old(meta[..]), nslots)
      ensures MAX_LENGTH < length <= MAX_ROUNDED ==>
                memPages == old(memPages) && addr == if granted && memPages < 0x1_0000 then memPages * 0x1_0000 else 0
      ensures length > MAX_ROUNDED ==> Wrapped(old(meta[..]), old(count), old(partial), old(memPages), granted, addr)
    {
      hide Inv, NoRun, NoSlab, NoBlock, FirstFit, FirstBlock, Slots, Pages, Untouched, Wrapped, HeadersOk;
      Still(g.live, bytes);
      SlotsPositive(length);
      SmallIsShort(length);
      if nslots == 1 {
        addr, s := Alloc4k(granted, length);
      } else if nslots <= 16 {
        addr, s := AllocSlots(nslots, granted, length);
      } else {
        BigNotEmpty(length);
        addr, s := AllocBig(np, granted, length);
      }
    }

    /** mmap of an anonymous region: an address, or MAP_FAILED. A request of at most 0xFFFF0000 bytes that succeeds
        becomes a mapping of its own, clear of all others, zeroed, and it succeeds unless Refused. Slab memory grows
        only when no slab has room. No byte of any other mapping changes. Longer requests, which could never be met,
        reserve nothing: up to 0xFFFFF000 bytes the page count wraps to zero and zeroing runs off the end of memory
        (`trap`); above that the slot count wraps to zero too, and the address returned is that of a slab in use, or of
        a new one. */
    method Mmap(length0: nat, granted: bool) returns (addr: nat, trap: bool, ghost s: nat)
      requires Valid() && length0 < 0x1_0000_0000
      modifies this, meta
      ensures Valid() && foreign == old(foreign) && Untouched(old(g.live), old(bytes), bytes)
      ensures addr == 0xFFFF_FFFF || length0 > 0xFFFF_0000 ==> g.live == old(g.live)
      ensures var length := if length0 == 0 then 1 else length0;
              length0 <= MAX_LENGTH ==>
                (addr == 0xFFFF_FFFF <==>
                 Refused(old(meta[..]), old(count), old(memPages), old(g), old(heap), granted, length))
      ensures var length := if length0 == 0 then 1 else length0;
              addr != 0xFFFF_FFFF && length0 <= MAX_LENGTH ==>
                && HandedOut(old(g.live), g.live, addr, s, length) && s in g.live && g.live[s].length == length
                && AllZero(bytes, addr, length) && AllZero(bytes, addr, 4096 * Slots(length))
      ensures var length := if length0 == 0 then 1 else length0;
              memPages != old(memPages) && Small(length0) ==> NoRun(old(meta[..]), Slots(length))
      ensures trap <==> MAX_LENGTH < length0 <= MAX_ROUNDED && granted && old(memPages) < 0x1_0000
      ensures length0 > MAX_ROUNDED ==>
                var got := if addr == MAP_FAILED then 0 else addr;
                Wrapped(old(meta[..]), old(count), old(partial), old(memPages), granted, got)
    {
      hide Inv, NoRun, Slots, Pages, HandedOut, Refused, Untouched, Wrapped, Poked, AllZero, HeadersOk;
      trap := false;
      var length := if length0 == 0 then 1 else length0;
      Rounding(length);
      var rounded := (length + 4095) % 0x1_0000_0000 / 4096 * 4096;
      var nslots := rounded / 4096;
      var npages := (rounded + 0xFFFF) % 0x1_0000_0000 / 0x1_0000;
      NotEmpty(meta[..], count, partial, bigFree, heap, memPages, g);
      addr, s := Reserve(nslots, npages, granted, length);
      SmallIsShort(length0);
      if length > MAX_ROUNDED { WrappedAligned(old(meta[..]), old(count), old(partial), old(memPages), granted, addr); }
      if addr == 0 { return MAP_FAILED, false, 0; }
      if rounded > 0 {
        if length <= MAX_LENGTH {
          HandedIs(old(g.live), g.live, addr, s, length);
          Zeroed(meta[..], count, partial, bigFree, heap, memPages, g, bytes, s, rounded);
          ZeroedClear(old(g.live), g.live, g.own, meta[..], count, partial, bigFree, heap, memPages, g, bytes, s,
              rounded, length);
          UntouchedTwice(old(g.live), old(bytes), bytes, Poked(bytes, addr, rounded, Zeros()));
        }
        if addr + rounded > memPages * 0x1_0000 {
          trap := true;
          return;
        }
        bytes := Poked(bytes, addr, rounded, Zeros());
        ZeroedLength(bytes, addr, length);
      }
    }

    /** The slots of mapping s are given back to slab idx, which may now have room again. */
    method ClearSlots(idx: nat, slot0: nat, nslots: nat, ghost s: nat)
      requires Valid() && s in g.live && Small(g.live[s].length) && Slots(g.live[s].length) == nslots
      requires idx in g.home && g.home[idx] == g.live[s].page && s == 16 * g.home[idx] + slot0 && slot0 + nslots <= 16
      modifies this`partial, this`g, meta
      ensures Valid() && g == old(g).(live := old(g.live) - {s}, own := g.own, plist := g.plist)
    {
      hide SlabsOk, MasksOk, OwnOk, PagesOk, PartialOk, FreeOk, MemoryOk, MaskOk, Slots, Removed, Release, RunMask,
          HeadersOk, PartialExact, SameSlabs;
      ghost var ms := meta[..];
      SlabFacts(ms, count, g.home, g.pages, g.own, idx);
      ClearMask(ms[idx].used, slot0, nslots);
      ghost var u := BitAnd(ms[idx].used, FULL - RunMask(slot0, nslots));
      RemovedFits(ms[idx].used, u, slot0, nslots);
      SmallNotEmpty(g.live, g.own, s);
      DropSlots(ms, count, g, idx, s, u);
      UsedKeepsPartial(ms, partial, g.plist, idx, u);
      var wasFull := meta[idx].used == FULL;
      meta[idx] := meta[idx].(used := BitAnd(meta[idx].used, FULL - RunMask(slot0, nslots)));
      ghost var ms1 := meta[..];
      assert ms1 == ms[idx := ms[idx].(used := u)];
      g := g.(live := g.live - {s}, own := Release(g.own, s, nslots));
      ListedExactly(ms, g.plist, idx);
      SameItself(ms1);
      if wasFull && meta[idx].used != FULL { PartialAdd(idx); }
      LinksKeep(ms1, meta[..], count, g.home, g.pages, g.own);
      UsedExact(ms, ms1, meta[..], old(g.plist), g.plist, idx);
    }

    /** An emptied slab is forgotten; its page is never used again. */
    method DropSlab(idx: nat)
      requires Valid() && idx in g.home && idx < meta.Length && meta[idx].used == 0
      modifies this`partial, this`g, meta
      ensures Valid() && g ==
              old(g).(home := old(g.home) - {idx}, pages := old(g.pages)[old(g.home)[idx] := Retired], plist := g.plist)
    {
      hide SlabsOk, MasksOk, OwnOk, PagesOk, PartialOk, FreeOk, MemoryOk, MaskOk, Mark, SameSlabs, HeadersOk;
      ghost var ms, pl := meta[..], g.plist;
      PartialRemove(idx);
      ghost var ms1 := meta[..];
      SameAt(ms, ms1, idx);
      LinksKeep(ms, ms1, count, g.home, g.pages, g.own);
      ghost var m := ms1[idx].(base := 0);
      PartialParts(ms1, partial, g.plist);
      CloseSlab(ms1, count, g, idx, m);
      ResetKeepsPartial(ms1, partial, g.plist, idx, m);
      SlabFacts(ms1, count, g.home, g.pages, g.own, idx);
      RetireSlab(g, bigFree, heap, memPages, idx);
      meta[idx] := meta[idx].(base := 0);
      assert meta[..] == ms1[idx := m];
      g := g.(home := g.home - {idx}, pages := g.pages[g.home[idx] := Retired]);
      MembersDropped(ms, ms1, m, pl, g.plist, idx);
    }

    /** A big mapping's pages become a freed block, whose header is written into the block. */
    method FreeBig(page: nat, np: nat)
      requires Valid() && 16 * page in g.live && !Small(g.live[16 * page].length) &&
               np == Pages(Slots(g.live[16 * page].length))
      modifies this`bigFree, this`heap, this`bytes, this`g
      ensures Valid() && g == BigDropped(old(g), page, np) && Untouched(old(g.live) - {16 * page}, old(bytes), bytes)
    {
      hide Inv, BigDropped, Pages, Slots, Untouched, Poked, HeadersOk;
      ghost var h := BigFree(page, np, bigFree);
      FreedClear(meta[..], count, partial, bigFree, heap, memPages, g, 16 * page);
      PokeUntouched(g.live - {16 * page}, bytes, page * 0x1_0000, HEADER, HeaderBytes(h));
      DropBigOk(meta[..], count, partial, bigFree, heap, memPages, g, page);
      FreedFits(meta[..], count, partial, bigFree, heap, memPages, g, page);
      HeadersPush(bytes, g.flist, heap, page, h);
      heap := heap[page := h];
      bytes := Poked(bytes, page * 0x1_0000, HEADER, HeaderBytes(BigFree(page, np, bigFree)));
      bigFree := page;
      BigDroppedIs(g, page, np);
      g := BigDropped(g, page, np);
    }

    /** munmap of a whole mapping removes exactly that mapping and changes no byte of the others. NULL and MAP_FAILED
        are ignored. */
    method Munmap(addr: nat, length: nat)
      requires Valid()
      requires addr == 0 || addr == MAP_FAILED ||
               (addr % 4096 == 0 && addr / 4096 in g.live && g.live[addr / 4096].length == length)
      modifies this, meta
      ensures Valid() && foreign == old(foreign) && memPages == old(memPages)
      ensures addr == 0 || addr == MAP_FAILED ==> unchanged(this) && unchanged(meta)
      ensures addr != 0 && addr != MAP_FAILED ==> g.live == old(g.live) - {addr / 4096}
      ensures Untouched(g.live, old(bytes), bytes)
    {
      hide Inv, Slots, Pages, BigDropped, Untouched, HeadersOk;
      if addr == 0 || addr == MAP_FAILED {
        Still(g.live, bytes);
        return;
      }
      ghost var s := addr / 4096;
      LiveShort(meta[..], count, partial, bigFree, heap, memPages, g, s);
      Rounding(length);
      var page := addr / 0x1_0000;
      var slot0 := (addr - page * 0x1_0000) / 4096;
      SlotOfAddress(addr);
      var rounded := (length + 4095) % 0x1_0000_0000 / 4096 * 4096;
      var nslots := rounded / 4096;
      if nslots <= 16 {
        var idx := MetaFindByBase(page * 0x1_0000);
        SmallHome(meta[..], count, partial, bigFree, heap, memPages, g, s, page, slot0, idx);
        if idx >= 0 {
          ClearSlots(idx, slot0, nslots, s);
          if meta[idx].used == 0 { DropSlab(idx); }
          Still(g.live, bytes);
        }
      }
      if nslots > 16 {
        var npages := (rounded + 0xFFFF) % 0x1_0000_0000 / 0x1_0000;
        BigHome(meta[..], count, partial, bigFree, heap, memPages, g, s, page);
        BigDroppedIs(g, page, npages);
        FreeBig(page, npages);
      }
    }
  }

  lemma FreedClear(ms: seq<SlabMeta>, count: nat, partial: int, bigFree: nat, heap: map<nat, BigFree>, memPages: nat,
                   g: Ghost, s: nat)
    requires Inv(ms, count, partial, bigFree, heap, memPages, g) && s in g.live && !Small(g.live[s].length)
    ensures forall t :: t in g.live - {s} ==> !Overlap(4096 * t, g.live[t].length, 4096 * s, HEADER)
  {
    hide SlabsOk, MasksOk, OwnOk, PagesOk, PartialOk, PartialExact, FreeOk, MemoryOk;
    FirstBytesClear(g.live, g.own, s);
  }

  lemma RemovedFits(u: nat, u': nat, start: nat, n: nat)
    requires Removed(u, u', start, n)
    ensures u' <= FULL && (n >= 1 ==> u' != FULL)
  {
    LowestFree(u');
    hide Bit;
    if n >= 1 { assert !Bit(u', start); }
  }

  lemma SameAt(ms: seq<SlabMeta>, ms': seq<SlabMeta>, i: nat)
    requires SameSlabs(ms, ms') && i < |ms|
    ensures |ms| == |ms'| && ms'[i].used == ms[i].used && ms'[i].base == ms[i].base
  {
  }

  lemma MembersDropped(ms: seq<SlabMeta>, ms1: seq<SlabMeta>, m: SlabMeta, plist: seq<nat>, plist': seq<nat>, i: nat)
    requires PartialExact(ms, plist) && SameSlabs(ms, ms1) && i < |ms| && m.base == 0
    requires forall t :: t in plist' <==> t in plist && t != i
    ensures PartialExact(ms1[i := m], plist')
  {
  }

  lemma RetireSlab(g: Ghost, bigFree: nat, heap: map<nat, BigFree>, memPages: nat, i: nat)
    requires FreeOk(g.flist, bigFree, heap, g.pages) && MemoryOk(g.pages, memPages)
    requires i in g.home && g.home[i] in g.pages && g.pages[g.home[i]] == SlabPage(i)
    ensures var pages' := g.pages[g.home[i] := Retired];
            FreeOk(g.flist, bigFree, heap, pages') && MemoryOk(pages', memPages) && |pages'.Keys| == |g.pages.Keys|
  {
    hide FreeOk, MemoryOk;
    var p := g.home[i];
    MarkOne(g.pages, p, Retired);
    MarkKeepsFree(g.flist, bigFree, heap, g.pages, p, 1, Retired);
    MarkCount(g.pages, p, 1, Retired);
    SameKeysMemory(g.pages, Mark(g.pages, p, 1, Retired), memPages);
  }

  /** The ghost state once the big mapping at page p is a freed block of n pages. */
  function BigDropped(g: Ghost, p: nat, n: nat): Ghost {
    g.(live := g.live - {16 * p}, own := Release(g.own, 16 * p, 16 * n), pages := Mark(g.pages, p, n, FreePage(p)),
        flist := [p] + g.flist)
  }

  lemma BigDroppedIs(g: Ghost, p: nat, n: nat)
    ensures BigDropped(g, p, n).live == g.live - {16 * p} && BigDropped(g, p, n).flist == [p] + g.flist
  {
  }

  lemma MarkedPage(pages: map<nat, Kind>, memPages: nat, p: nat, n: nat, kind: Kind)
    requires MemoryOk(pages, memPages) && Marked(pages, p, n, kind) && n >= 1
    ensures p > 0
  {
    assert p in pages;
  }

  lemma DropBigOk(ms: seq<SlabMeta>, count: nat, partial: int, bigFree: nat, heap: map<nat, BigFree>, memPages: nat,
                  g: Ghost, p: nat)
    requires Inv(ms, count, partial, bigFree, heap, memPages, g) && 16 * p in g.live && !Small(g.live[16 * p].length)
    ensures var n := Pages(Slots(g.live[16 * p].length));
            && Inv(ms, count, partial, p, heap[p := BigFree(p, n, bigFree)], memPages, BigDropped(g, p, n))
            && |BigDropped(g, p, n).pages.Keys| == |g.pages.Keys|
  {
    hide SlabsOk, MasksOk, OwnOk, PagesOk, PartialOk, PartialExact, FreeOk, MemoryOk, Slots, Pages, Mark, Release;
    var n := Pages(Slots(g.live[16 * p].length));
    BigNotEmpty(g.live[16 * p].length);
    DropBig(g.live, g.own, g.pages, p);
    MarkedPage(g.pages, memPages, p, n, BigPage(p));
    assert forall q: nat :: p <= q < p + n ==> q in g.pages && g.pages[q].BigPage?;
    PushBlock(g.flist, bigFree, heap, g.pages, p, n);
    MarkKeepsSlabs(ms, count, g.home, g.pages, p, n, FreePage(p));
    BigKeepsMasks(ms, count, g, p, n);
    MarkCount(g.pages, p, n, FreePage(p));
    SameKeysMemory(g.pages, Mark(g.pages, p, n, FreePage(p)), memPages);
  }

  /** A mapping fits in memory, so the rounding of its length does not wrap. */
  lemma LiveShort(ms: seq<SlabMeta>, count: nat, partial: int, bigFree: nat, heap: map<nat, BigFree>, memPages: nat,
                  g: Ghost, s: nat)
    requires Inv(ms, count, partial, bigFree, heap, memPages, g) && s in g.live
    ensures 1 <= g.live[s].length <= MAX_LENGTH && 4096 * s < MAP_FAILED
  {
    hide SlabsOk, MasksOk, PagesOk, PartialOk, PartialExact, FreeOk, Reserved, Holds;
    LiveSafe(g.live, g.own, g.pages, memPages, g.flist, bigFree, heap, s);
    ReservedCovers(g.live[s].length);
  }

  lemma SlotOfAddress(addr: nat)
    requires addr % 4096 == 0
    ensures var page := addr / 0x1_0000;
            var slot := (addr - page * 0x1_0000) / 4096;
            addr / 4096 == 16 * page + slot && slot < 16
  {
  }

  lemma SmallPlace(live: map<nat, Region>, pages: map<nat, Kind>, s: nat)
    requires PagesOk(live, pages) && s in live && Small(live[s].length)
    ensures 16 * live[s].page <= s && s + Slots(live[s].length) <= 16 * live[s].page + 16
    ensures live[s].page in pages && pages[live[s].page].SlabPage?
  {
    assert Placed(s, live[s], pages);
  }

  lemma SlabAt(ms: seq<SlabMeta>, count: nat, home: map<nat, nat>, pages: map<nat, Kind>, p: nat)
    requires SlabsOk(ms, count, home, pages) && p in pages && pages[p].SlabPage?
    ensures var i := pages[p].i; i in home && home[i] == p && i < |ms| && i < count && ms[i].base == p * 0x1_0000 != 0
    ensures forall i :: 0 <= i < |ms| && ms[i].base == p * 0x1_0000 ==> i in home && home[i] == p
  {
  }

  /** The entry found for a small mapping's page is the slab that holds it. */
  lemma SmallHome(ms: seq<SlabMeta>, count: nat, partial: int, bigFree: nat, heap: map<nat, BigFree>, memPages: nat,
                  g: Ghost,
                  s: nat, page: nat, slot0: nat, idx: int)
    requires Inv(ms, count, partial, bigFree, heap, memPages, g) && s in g.live && Small(g.live[s].length)
    requires s == 16 * page + slot0 && slot0 < 16 && -1 <= idx < count && count <= |ms|
    requires idx >= 0 ==> ms[idx].base == page * 0x1_0000
    requires idx == -1 ==> forall i :: 0 <= i < count ==> ms[i].base != page * 0x1_0000
    ensures idx >= 0 && idx in g.home && g.home[idx] == g.live[s].page == page && slot0 + Slots(g.live[s].length) <= 16
  {
    hide SlabsOk, MasksOk, OwnOk, PagesOk, PartialOk, PartialExact, FreeOk, MemoryOk, Slots;
    SmallPlace(g.live, g.pages, s);
    assert Slots(g.live[s].length) >= 1 by { SmallNotEmpty(g.live, g.own, s); }
    SlabAt(ms, count, g.home, g.pages, g.live[s].page);
  }

  lemma BigHome(ms: seq<SlabMeta>, count: nat, partial: int, bigFree: nat, heap: map<nat, BigFree>, memPages: nat,
                g: Ghost, s: nat, page: nat)
    requires Inv(ms, count, partial, bigFree, heap, memPages, g) && s in g.live && !Small(g.live[s].length) &&
             page == s / 16
    ensures s == 16 * page
  {
    hide SlabsOk, MasksOk, OwnOk, PartialOk, PartialExact, FreeOk, MemoryOk, Slots, Pages;
    assert Placed(s, g.live[s], g.pages);
  }

  /** Slot s is where the first freed block of exactly np pages starts. */
  ghost predicate FirstBlock(flist: seq<nat>, heap: map<nat, BigFree>, np: nat, k: nat, s: nat) {
    && k < |flist| && s == 16 * flist[k] && flist[k] in heap && heap[flist[k]].npages == np
    && forall t :: 0 <= t < k ==> flist[t] in heap && heap[flist[t]].npages != np
  }

  lemma FirstBlockIs(flist: seq<nat>, heap: map<nat, BigFree>, np: nat, k: nat)
    requires k < |flist| && flist[k] in heap && heap[flist[k]].npages == np
    requires forall t :: 0 <= t < k ==> flist[t] in heap && heap[flist[t]].npages != np
    ensures FirstBlock(flist, heap, np, k, 16 * flist[k])
  {
  }

  lemma Still(live: map<nat, Region>, bytes: nat -> nat)
    ensures Untouched(live, bytes, bytes)
  {
  }

  lemma UntouchedTwice(live: map<nat, Region>, b0: nat -> nat, b1: nat -> nat, b2: nat -> nat)
    requires Untouched(live, b0, b1) && Untouched(live, b1, b2)
    ensures Untouched(live, b0, b2)
  {
  }

  /** No freed block has exactly np pages. */
  ghost predicate NoBlock(flist: seq<nat>, heap: map<nat, BigFree>, np: nat) {
    forall t :: 0 <= t < |flist| ==> flist[t] in heap && heap[flist[t]].npages != np
  }

  /** Why a request for at most 0xFFFFF000 bytes fails. */
  ghost predicate Refused(ms: seq<SlabMeta>, count: nat, memPages: nat, g: Ghost, heap: map<nat, BigFree>,
                          granted: bool, length: nat) {
    if Small(length) then NoRun(ms, Slots(length)) && NoSlab(ms, count, memPages, granted)
    else NoBlock(g.flist, heap, Pages(Slots(length))) && (!granted || memPages + Pages(Slots(length)) > 0x1_0000)
  }

  /** A write inside a mapping keeps the headers and lies clear of all other mappings. */
  lemma WriteOk(ms: seq<SlabMeta>, count: nat, partial: int, bigFree: nat, heap: map<nat, BigFree>, memPages: nat,
                g: Ghost, bytes: nat -> nat, s: nat, off: nat, n: nat, data: nat -> nat)
    requires Inv(ms, count, partial, bigFree, heap, memPages, g) && HeadersOk(bytes, g.flist, heap)
    requires s in g.live && off + n <= g.live[s].length
    ensures HeadersOk(Poked(bytes, 4096 * s + off, n, data), g.flist, heap)
    ensures forall t :: t in g.live - {s} ==> !Overlap(4096 * t, g.live[t].length, 4096 * s + off, n)
  {
    hide SlabsOk, MasksOk, OwnOk, PagesOk, PartialOk, PartialExact, FreeOk, MemoryOk, Overlap, Reserved, HeadersOk;
    ReservedCovers(g.live[s].length);
    WritesAreHarmless(g.live, g.own, g.pages, memPages, g.flist, bigFree, heap, bytes, s, 4096 * s + off, n, data);
    WriteClear(g.live, g.own, s, off, n);
  }

  function Zeros(): nat -> nat {
    (i: nat) => 0
  }

  ghost predicate AllZero(bytes: nat -> nat, a: nat, n: nat) {
    forall x: nat :: a <= x < a + n ==> bytes(x) == 0
  }

  lemma PokeZero(bytes: nat -> nat, a: nat, n: nat)
    ensures AllZero(Poked(bytes, a, n, Zeros()), a, n)
  {
  }

  lemma WrappedAligned(ms: seq<SlabMeta>, count: nat, partial: int, memPages: nat, granted: bool, addr: nat)
    requires Wrapped(ms, count, partial, memPages, granted, addr)
    ensures addr != MAP_FAILED
  {
  }

  /** Zeroing a new mapping changes no byte of the others. */
  lemma ZeroedClear(live: map<nat, Region>, live': map<nat, Region>, own: map<nat, nat>, ms: seq<SlabMeta>, count: nat,
                    partial: int,
                    bigFree: nat, heap: map<nat, BigFree>, memPages: nat, g: Ghost, bytes: nat -> nat, s: nat,
                        rounded: nat, length: nat)
    requires Inv(ms, count, partial, bigFree, heap, memPages, g) && live' == g.live && own == g.own
    requires HandedOut(live, live', 4096 * s, s, length) && rounded == 4096 * Slots(length)
    ensures Untouched(live, bytes, Poked(bytes, 4096 * s, rounded, Zeros())) &&
            AllZero(Poked(bytes, 4096 * s, rounded, Zeros()), 4096 * s, rounded)
  {
    hide SlabsOk, MasksOk, OwnOk, PagesOk, PartialOk, PartialExact, FreeOk, MemoryOk, Reserved, Slots, Untouched;
    SlotsReserved(length);
    ReservedClear(live', own, s, rounded);
    forall t | t in live ensures !Overlap(4096 * t, live[t].length, 4096 * s, rounded) {
      assert t in live' && live'[t] == live[t] && t != s;
    }
    PokeUntouched(live, bytes, 4096 * s, rounded, Zeros());
    PokeZero(bytes, 4096 * s, rounded);
    hide Poked, AllZero;
  }

  /** A successful request became one new mapping, at the address returned. */
  ghost predicate HandedOut(live: map<nat, Region>, live': map<nat, Region>, addr: nat, s: nat, length: nat) {
    s !in live && addr == 4096 * s && s in live' && live' == live[s := Region(length, live'[s].page)]
  }

  lemma HandedIs(live: map<nat, Region>, live': map<nat, Region>, addr: nat, s: nat, length: nat)
    requires HandedOut(live, live', addr, s, length)
    ensures s in live' && live'[s].length == length && addr == 4096 * s
  {
  }

  lemma ZeroedLength(bytes: nat -> nat, a: nat, n: nat)
    ensures AllZero(bytes, a, 4096 * Slots(n)) ==> AllZero(bytes, a, n)
  {
  }

  lemma NotEmpty(ms: seq<SlabMeta>, count: nat, partial: int, bigFree: nat, heap: map<nat, BigFree>, memPages: nat,
                 g: Ghost)
    requires Inv(ms, count, partial, bigFree, heap, memPages, g)
    ensures memPages >= 1
  {
  }

  lemma SlotsPositive(length: nat)
    requires length >= 1
    ensures Slots(length) >= 1
  {
  }

  lemma SmallIsShort(length: nat)
    ensures Small(length) ==> length <= MAX_LENGTH && Slots(length) <= 16
  {
  }

  const MAP_FAILED: nat := 0xFFFF_FFFF

  lemma Rounding(length: nat)
    requires 1 <= length < 0x1_0000_0000
    ensures var nslots := (length + 4095) % 0x1_0000_0000 / 4096;
            && (length <= MAX_ROUNDED ==> nslots == Slots(length) >= 1)
            && (length > MAX_ROUNDED ==> nslots == 0)
            && nslots * 4096 / 4096 == nslots
            && (length <= MAX_LENGTH ==> (nslots * 4096 + 0xFFFF) % 0x1_0000_0000 / 0x1_0000 == Pages(nslots))
            && (MAX_LENGTH < length <= MAX_ROUNDED ==>
                (nslots * 4096 + 0xFFFF) % 0x1_0000_0000 / 0x1_0000 == 0 && nslots > 16)
  {
  }

  lemma SlotsReserved(length: nat)
    ensures Slots(length) <= Reserved(length)
  {
  }

  /** Zeroing a mapping stays inside it. */
  lemma Zeroed(ms: seq<SlabMeta>, count: nat, partial: int, bigFree: nat, heap: map<nat, BigFree>, memPages: nat,
               g: Ghost, bytes: nat -> nat, s: nat, rounded: nat)
    requires Inv(ms, count, partial, bigFree, heap, memPages, g) && HeadersOk(bytes, g.flist, heap)
    requires s in g.live && rounded == 4096 * Slots(g.live[s].length)
    ensures HeadersOk(Poked(bytes, 4096 * s, rounded, Zeros()), g.flist, heap)
    ensures 4096 * s + rounded <= memPages * 0x1_0000 && s > 0
  {
    hide SlabsOk, MasksOk, OwnOk, PagesOk, PartialOk, PartialExact, FreeOk, MemoryOk, Reserved, Slots, HeadersOk;
    SlotsReserved(g.live[s].length);
    LiveSafe(g.live, g.own, g.pages, memPages, g.flist, bigFree, heap, s);
    WritesAreHarmless(g.live, g.own, g.pages, memPages, g.flist, bigFree, heap, bytes, s, 4096 * s, rounded, Zeros());
  }

  /** The ghost state once a big mapping occupies its pages from p on. */
  function BigTaken(g: Ghost, flist: seq<nat>, p: nat, length: nat): Ghost {
    g.(live := g.live[16 * p := Region(length, p)], own := Claim(g.own, 16 * p, 16 * Pages(Slots(length))),
       pages := Mark(g.pages, p, Pages(Slots(length)), BigPage(p)), flist := flist)
  }

  lemma BigTakenIs(g: Ghost, flist: seq<nat>, p: nat, length: nat)
    ensures var g', n := BigTaken(g, flist, p, length), Pages(Slots(length));
            && g'.live == g.live[16 * p := Region(length, p)] && g'.own == Claim(g.own, 16 * p, 16 * n)
            && g'.pages == Mark(g.pages, p, n, BigPage(p)) && g'.home == g.home && g'.plist == g.plist
            && g'.flist == flist
  {
    hide Claim, Mark, Slots, Pages;
  }

  lemma BigTakenList(g: Ghost, flist: seq<nat>, p: nat, length: nat)
    ensures BigTaken(g, flist, p, length).flist == flist
  {
  }

  /** What is loaded from a listed block is its header. */
  lemma HeaderIs(bytes: nat -> nat, flist: seq<nat>, heap: map<nat, BigFree>, k: nat)
    requires HeadersOk(bytes, flist, heap) && k < |flist|
    ensures flist[k] in heap && LoadHeader(bytes, flist[k]) == heap[flist[k]]
  {
    hide Stored, LoadHeader;
    assert flist[k] in flist;
    LoadBack(bytes, flist[k], heap[flist[k]]);
  }

  /** The first header may go. */
  lemma HeadersFirst(bytes: nat -> nat, flist: seq<nat>, heap: map<nat, BigFree>)
    requires HeadersOk(bytes, flist, heap) && flist != []
    ensures HeadersOk(bytes, flist[..0] + flist[1..], heap)
  {
    hide Stored;
  }

  lemma NextClear(live: map<nat, Region>, b: nat)
    requires forall t :: t in live ==> !Overlap(4096 * t, live[t].length, b * 0x1_0000, HEADER)
    ensures forall t :: t in live ==> !Overlap(4096 * t, live[t].length, b * 0x1_0000 + 8, 4)
  {
  }

  /** Redirecting the header before position k leaves every remaining header in memory. */
  lemma HeadersUnlink(bytes: nat -> nat, flist: seq<nat>, head: nat, heap: map<nat, BigFree>, pages: map<nat, Kind>,
                      k: nat)
    requires HeadersOk(bytes, flist, heap) && FreeOk(flist, head, heap, pages) && 0 < k < |flist|
    requires flist[k] in heap && flist[k - 1] in heap
    ensures var p, next := flist[k - 1], heap[flist[k]].next;
            HeadersOk(Poked(bytes, p * 0x1_0000 + 8, 4, WordBytes(next * 0x1_0000)), flist[..k] + flist[k + 1..],
                      heap[p := heap[p].(next := next)])
  {
    hide Stored, FreeOk, Poked, WordBytes;
    var p: nat, next, rest := flist[k - 1], heap[flist[k]].next, flist[..k] + flist[k + 1..];
    var bytes', heap' := Poked(bytes, p * 0x1_0000 + 8, 4, WordBytes(next * 0x1_0000)),
        heap[p := heap[p].(next := next)];
    assert flist[k] in flist && p in flist;
    forall b: nat | b in rest ensures b in heap' && Fits(heap'[b]) && Stored(bytes', b, heap'[b]) {
      assert b in flist;
      if b == p {
        PokeNext(bytes, p, heap[p], next);
      } else {
        PokeElsewhere(bytes, p, 8, 4, WordBytes(next * 0x1_0000), b, heap[b]);
      }
    }
  }

  /** Pushing a block stores its header and leaves the others in memory. */
  lemma HeadersPush(bytes: nat -> nat, flist: seq<nat>, heap: map<nat, BigFree>, p: nat, h: BigFree)
    requires HeadersOk(bytes, flist, heap) && Fits(h)
    ensures HeadersOk(Poked(bytes, p * 0x1_0000, HEADER, HeaderBytes(h)), [p] + flist, heap[p := h])
  {
    hide Stored, Poked, HeaderBytes;
    var bytes', heap' := Poked(bytes, p * 0x1_0000, HEADER, HeaderBytes(h)), heap[p := h];
    forall b: nat | b in [p] + flist ensures b in heap' && Fits(heap'[b]) && Stored(bytes', b, heap'[b]) {
      if b == p {
        PokeHeader(bytes, p, h);
      } else {
        assert b in flist;
        PokeElsewhere(bytes, p, 0, HEADER, HeaderBytes(h), b, heap[b]);
      }
    }
  }

  /** The header of a block being freed fits its words. */
  lemma FreedFits(ms: seq<SlabMeta>, count: nat, partial: int, bigFree: nat, heap: map<nat, BigFree>, memPages: nat,
                  g: Ghost, p: nat)
    requires Inv(ms, count, partial, bigFree, heap, memPages, g) && 16 * p in g.live && !Small(g.live[16 * p].length)
    ensures Fits(BigFree(p, Pages(Slots(g.live[16 * p].length)), bigFree))
  {
    hide SlabsOk, MasksOk, PartialOk, PartialExact, OwnOk, Inv;
    LiveShort(ms, count, partial, bigFree, heap, memPages, g, 16 * p);
    HeadBound(ms, count, partial, bigFree, heap, memPages, g);
    PagesBound(g.live[16 * p].length);
    hide Pages, Slots;
  }

  lemma PagesBound(length: nat)
    requires length <= MAX_LENGTH
    ensures Pages(Slots(length)) < 0x1_0000_0000
  {
  }

  lemma HeadBound(ms: seq<SlabMeta>, count: nat, partial: int, bigFree: nat, heap: map<nat, BigFree>, memPages: nat,
                  g: Ghost)
    requires Inv(ms, count, partial, bigFree, heap, memPages, g)
    ensures bigFree < 0x1_0000
  {
    hide SlabsOk, MasksOk, PartialOk, PartialExact, OwnOk, PagesOk;
    if g.flist != [] {
      assert BlockOk(g.flist[0], heap, g.pages);
      assert bigFree in g.pages;
    }
  }

  lemma BigNotEmpty(length: nat)
    requires !Small(length)
    ensures Pages(Slots(length)) >= 2
  {
  }

  ghost predicate BlockAt(flist: seq<nat>, k: nat, cur: nat) {
    if k < |flist| then cur == flist[k] > 0 else cur == 0
  }

  lemma BlockStart(flist: seq<nat>, head: nat, heap: map<nat, BigFree>, pages: map<nat, Kind>)
    requires FreeOk(flist, head, heap, pages)
    ensures BlockAt(flist, 0, head)
  {
    if |flist| > 0 { assert BlockOk(flist[0], heap, pages); }
  }

  lemma BlockMember(flist: seq<nat>, head: nat, heap: map<nat, BigFree>, pages: map<nat, Kind>, k: nat)
    requires FreeOk(flist, head, heap, pages) && k < |flist|
    ensures flist[k] > 0 && flist[k] in heap && heap[flist[k]].base == flist[k] && heap[flist[k]].npages >= 1 &&
            BlockAt(flist, k + 1, heap[flist[k]].next)
    ensures heap[flist[k]].next == After(flist, k) && Marked(pages, flist[k], heap[flist[k]].npages, FreePage(flist[k]))
  {
    assert BlockOk(flist[k], heap, pages);
    if k + 1 < |flist| { assert BlockOk(flist[k + 1], heap, pages); }
  }

  /** The list head and the headers once position k is unlinked. */
  function HeadWithout(flist: seq<nat>, head: nat, heap: map<nat, BigFree>, k: nat): nat
    requires k < |flist| && flist[k] in heap
  {
    if k == 0 then heap[flist[k]].next else head
  }

  function HeapWithout(flist: seq<nat>, heap: map<nat, BigFree>, k: nat): map<nat, BigFree>
    requires k < |flist| && flist[k] in heap && (k > 0 ==> flist[k - 1] in heap)
  {
    if k == 0 then heap else heap[flist[k - 1] := heap[flist[k - 1]].(next := heap[flist[k]].next)]
  }

  lemma ReuseList(flist: seq<nat>, head: nat, heap: map<nat, BigFree>, pages: map<nat, Kind>, k: nat)
    requires FreeOk(flist, head, heap, pages) && k < |flist| && flist[k] in heap && (k > 0 ==> flist[k - 1] in heap)
    ensures FreeOk(flist[..k] + flist[k + 1..], HeadWithout(flist, head, heap, k), HeapWithout(flist, heap, k),
                   Mark(pages, flist[k], heap[flist[k]].npages, BigPage(flist[k])))
  {
    hide FreeOk, Mark;
    BlockMember(flist, head, heap, pages, k);
    PopBlock(flist, head, heap, pages, k, HeadWithout(flist, head, heap, k), HeapWithout(flist, heap, k));
  }

  lemma SameKeysMemory(pages: map<nat, Kind>, pages': map<nat, Kind>, memPages: nat)
    requires MemoryOk(pages, memPages) && pages.Keys == pages'.Keys
    ensures MemoryOk(pages', memPages)
  {
    forall p | p in pages' ensures 1 <= p < memPages { assert p in pages'.Keys; }
  }

  /** Handing out the k-th freed block again. */
  lemma ReuseOk(ms: seq<SlabMeta>, count: nat, g: Ghost, bigFree: nat, heap: map<nat, BigFree>, memPages: nat, k: nat,
                length: nat)
    requires SlabsOk(ms, count, g.home, g.pages) && MasksOk(ms, g.home, g.own) && OwnOk(g.live, g.own) &&
             PagesOk(g.live, g.pages)
    requires FreeOk(g.flist, bigFree, heap, g.pages) && MemoryOk(g.pages, memPages) && length >= 1 && !Small(length)
    requires k < |g.flist| && g.flist[k] in heap && heap[g.flist[k]].npages == Pages(Slots(length))
    requires k > 0 ==> g.flist[k - 1] in heap
    ensures var p, g' := g.flist[k], BigTaken(g, g.flist[..k] + g.flist[k + 1..], g.flist[k], length);
            && SlabsOk(ms, count, g'.home, g'.pages) && MasksOk(ms, g'.home, g'.own) && OwnOk(g'.live, g'.own) &&
                PagesOk(g'.live, g'.pages)
            && FreeOk(g'.flist, HeadWithout(g.flist, bigFree, heap, k), HeapWithout(g.flist, heap, k), g'.pages)
            && MemoryOk(g'.pages, memPages) && |g'.pages.Keys| == |g.pages.Keys|
            && 16 * p !in g.live && g'.live == g.live[16 * p := Region(length, p)] && g'.plist == g.plist
  {
    hide SlabsOk, MasksOk, OwnOk, PagesOk, FreeOk, MemoryOk, Slots, Pages, Mark, HeadWithout, HeapWithout, Claim;
    var p, n := g.flist[k], Pages(Slots(length));
    BlockMember(g.flist, bigFree, heap, g.pages, k);
    assert forall q: nat :: p <= q < p + n ==> q in g.pages && g.pages[q].FreePage?;
    PlaceBig(g.live, g.own, g.pages, p, length);
    MarkKeepsSlabs(ms, count, g.home, g.pages, p, n, BigPage(p));
    MarkCount(g.pages, p, n, BigPage(p));
    SameKeysMemory(g.pages, Mark(g.pages, p, n, BigPage(p)), memPages);
    ReuseList(g.flist, bigFree, heap, g.pages, k);
    BigKeepsMasks(ms, count, g, p, n);
  }

  /** Memory once position k is unlinked: the last word of the header before it is overwritten. */
  function BytesWithout(flist: seq<nat>, heap: map<nat, BigFree>, bytes: nat -> nat, k: nat): nat -> nat
    requires k < |flist| && flist[k] in heap
  {
    if k == 0 then bytes
    else Poked(bytes, flist[k - 1] * 0x1_0000 + 8, 4, WordBytes(heap[flist[k]].next * 0x1_0000))
  }

  /** Unlinking position k stores what must be stored and touches no mapping. */
  lemma ReuseBytes(g: Ghost, bigFree: nat, heap: map<nat, BigFree>, memPages: nat, bytes: nat -> nat, k: nat)
    requires OwnOk(g.live, g.own) && PagesOk(g.live, g.pages) && FreeOk(g.flist, bigFree, heap, g.pages)
    requires MemoryOk(g.pages, memPages) && HeadersOk(bytes, g.flist, heap) && k < |g.flist|
    requires g.flist[k] in heap && (k > 0 ==> g.flist[k - 1] in heap)
    ensures HeadersOk(BytesWithout(g.flist, heap, bytes, k), g.flist[..k] + g.flist[k + 1..],
                      HeapWithout(g.flist, heap, k))
    ensures Untouched(g.live, bytes, BytesWithout(g.flist, heap, bytes, k))
  {
    hide OwnOk, PagesOk, FreeOk, MemoryOk, HeadersOk, Untouched, Poked, WordBytes;
    if k == 0 {
      HeadersFirst(bytes, g.flist, heap);
      Still(g.live, bytes);
    } else {
      var p: nat := g.flist[k - 1];
      HeaderClear(g.live, g.own, g.pages, memPages, g.flist, bigFree, heap, p);
      NextClear(g.live, p);
      PokeUntouched(g.live, bytes, p * 0x1_0000 + 8, 4, WordBytes(heap[g.flist[k]].next * 0x1_0000));
      HeadersUnlink(bytes, g.flist, bigFree, heap, g.pages, k);
    }
  }

  /** Handing out the k-th freed block again, all told. */
  lemma WithoutIs(flist: seq<nat>, head: nat, heap: map<nat, BigFree>, bytes: nat -> nat, k: nat)
    requires k < |flist| && flist[k] in heap && (k > 0 ==> flist[k - 1] in heap)
    ensures var next := heap[flist[k]].next;
            if k == 0 then
              && HeadWithout(flist, head, heap, k) == next && HeapWithout(flist, heap, k) == heap
              && BytesWithout(flist, heap, bytes, k) == bytes
            else
              var p := flist[k - 1];
              && HeadWithout(flist, head, heap, k) == head
              && HeapWithout(flist, heap, k) == heap[p := heap[p].(next := next)]
              && BytesWithout(flist, heap, bytes, k) == Poked(bytes, p * 0x1_0000 + 8, 4, WordBytes(next * 0x1_0000))
  {
    hide Poked, WordBytes;
  }

  lemma ReuseAll(ms: seq<SlabMeta>, count: nat, partial: int, g: Ghost, bigFree: nat, heap: map<nat, BigFree>,
                 memPages: nat, bytes: nat -> nat, k: nat, length: nat)
    requires Inv(ms, count, partial, bigFree, heap, memPages, g) && HeadersOk(bytes, g.flist, heap)
    requires length >= 1 && !Small(length)
    requires k < |g.flist| && g.flist[k] in heap && heap[g.flist[k]].npages == Pages(Slots(length))
    ensures k > 0 ==> g.flist[k - 1] in heap && g.flist[k - 1] > 0
    ensures var p, rest := g.flist[k], g.flist[..k] + g.flist[k + 1..];
            var g' := BigTaken(g, rest, p, length);
            && Inv(ms, count, partial, HeadWithout(g.flist, bigFree, heap, k), HeapWithout(g.flist, heap, k), memPages,
                g')
            && HeadersOk(BytesWithout(g.flist, heap, bytes, k), g'.flist, HeapWithout(g.flist, heap, k))
            && Untouched(g.live, bytes, BytesWithout(g.flist, heap, bytes, k))
            && p > 0 && LoadHeader(bytes, p) == heap[p] && heap[p].base == p
            && |g'.pages.Keys| == |g.pages.Keys| && 16 * p !in g.live
            && g'.live == g.live[16 * p := Region(length, p)]
  {
    hide SlabsOk, MasksOk, OwnOk, PagesOk, PartialOk, PartialExact, FreeOk, MemoryOk, Slots, Pages, BigTaken;
    hide HeadersOk, Untouched, LoadHeader, HeadWithout, HeapWithout, BytesWithout;
    BlockMember(g.flist, bigFree, heap, g.pages, k);
    HeaderIs(bytes, g.flist, heap, k);
    if k > 0 { BlockMember(g.flist, bigFree, heap, g.pages, k - 1); }
    ReuseOk(ms, count, g, bigFree, heap, memPages, k, length);
    ReuseBytes(g, bigFree, heap, memPages, bytes, k);
    BigTakenList(g, g.flist[..k] + g.flist[k + 1..], g.flist[k], length);
  }

  /** Slots claimed or released outside slab pages do not show in any mask. */
  lemma BigKeepsMasks(ms: seq<SlabMeta>, count: nat, g: Ghost, p: nat, n: nat)
    requires SlabsOk(ms, count, g.home, g.pages) && MasksOk(ms, g.home, g.own)
    requires forall q: nat :: p <= q < p + n ==> q !in g.pages || !g.pages[q].SlabPage?
    ensures MasksOk(ms, g.home, Claim(g.own, 16 * p, 16 * n)) && MasksOk(ms, g.home, Release(g.own, 16 * p, 16 * n))
  {
    forall i | i in g.home
      ensures i < |ms| && MaskOk(ms[i].used, g.home[i], Claim(g.own, 16 * p, 16 * n)) &&
              MaskOk(ms[i].used, g.home[i], Release(g.own, 16 * p, 16 * n))
    {
      assert MaskOk(ms[i].used, g.home[i], g.own) && g.pages[g.home[i]] == SlabPage(i);
      assert g.home[i] < p || p + n <= g.home[i];
      hide Bit;
    }
  }

  /** Pages never grown are of no kind. */
  lemma UngrownForms(pages: map<nat, Kind>, p: nat, n: nat)
    requires Ungrown(pages, p, n)
    ensures forall q: nat :: p <= q < p + n ==> q !in pages || pages[q].FreePage?
    ensures forall q: nat :: p <= q < p + n ==> q !in pages || !pages[q].FreePage?
    ensures forall q: nat :: p <= q < p + n ==> q !in pages || !pages[q].SlabPage?
  {
  }

  lemma FreshBigOk(ms: seq<SlabMeta>, count: nat, g: Ghost, bigFree: nat, heap: map<nat, BigFree>, p: nat, length: nat)
    requires SlabsOk(ms, count, g.home, g.pages) && MasksOk(ms, g.home, g.own) && OwnOk(g.live, g.own) &&
             PagesOk(g.live, g.pages)
    requires FreeOk(g.flist, bigFree, heap, g.pages) && MemoryOk(g.pages, p) && length >= 1 && !Small(length)
    requires Ungrown(g.pages, p, Pages(Slots(length))) && p + Pages(Slots(length)) <= 0x1_0000
    ensures var n, g' := Pages(Slots(length)), BigTaken(g, g.flist, p, length);
            && SlabsOk(ms, count, g'.home, g'.pages) && MasksOk(ms, g'.home, g'.own) && OwnOk(g'.live, g'.own) &&
                PagesOk(g'.live, g'.pages)
            && FreeOk(g'.flist, bigFree, heap, g'.pages) && MemoryOk(g'.pages, p + n) &&
                |g'.pages.Keys| == |g.pages.Keys| + n
            && 16 * p !in g.live && g'.live == g.live[16 * p := Region(length, p)] && g'.plist == g.plist
  {
    hide *;
    var n := Pages(Slots(length));
    BigTakenIs(g, g.flist, p, length);
    UngrownForms(g.pages, p, n);
    PlaceBig(g.live, g.own, g.pages, p, length);
    MarkKeepsSlabs(ms, count, g.home, g.pages, p, n, BigPage(p));
    MarkKeepsFree(g.flist, bigFree, heap, g.pages, p, n, BigPage(p));
    MarkCount(g.pages, p, n, BigPage(p));
    GrownMemory(g.pages, p, n, BigPage(p));
    BigKeepsMasks(ms, count, g, p, n);
  }

  lemma SameItself(ms: seq<SlabMeta>)
    ensures SameSlabs(ms, ms)
  {
  }

  lemma PartialParts(ms: seq<SlabMeta>, head: int, plist: seq<nat>)
    requires PartialOk(ms, head, plist)
    ensures InTable(ms, plist) && Linked(ms, plist) && Distinct(plist) && head == AfterIdx(plist, -1)
    ensures forall i :: 0 <= i < |ms| ==> (ms[i].inPartial <==> i in plist)
  {
  }

  lemma NextIdx(ms: seq<SlabMeta>, plist: seq<nat>, k: nat)
    requires InTable(ms, plist) && Linked(ms, plist) && k < |plist|
    ensures ms[plist[k]].next == AfterIdx(plist, k)
    ensures k + 1 < |plist| ==> AfterIdx(plist, k) == plist[k + 1]
  {
  }

  lemma FarIdx(plist: seq<nat>, k: nat)
    requires k < |plist| && Distinct(plist)
    ensures k == 0 ==> AfterIdx(plist, 0) == AfterIdx(plist, k)
    ensures k > 0 ==> plist[k - 1] != plist[k]
  {
  }

  lemma UnlinkedIs(ms: seq<SlabMeta>, plist: seq<nat>, k: nat)
    requires k < |plist| && InTable(ms, plist)
    ensures var ms1 := if k == 0 then ms else ms[plist[k - 1] := ms[plist[k - 1]].(next := AfterIdx(plist, k))];
            Unlinked(ms, plist, k) == ms1[plist[k] := ms1[plist[k]].(inPartial := false, next := -1)]
  {
  }

  /** Position k of the list, or its end. */
  ghost predicate At(ms: seq<SlabMeta>, plist: seq<nat>, k: nat, idx: int) {
    if k < |plist| then idx == plist[k] && plist[k] < |ms| else idx == -1
  }

  /** The k-th slab of the list has no run of n free slots. */
  ghost predicate Visited(ms: seq<SlabMeta>, plist: seq<nat>, k: nat, n: nat) {
    k < |plist| && plist[k] < |ms| && forall start: nat :: !FreeRun(ms[plist[k]].used, start, n)
  }

  lemma ListStart(ms: seq<SlabMeta>, head: int, plist: seq<nat>)
    requires PartialOk(ms, head, plist)
    ensures At(ms, plist, 0, head)
  {
  }

  /** A listed slab is active, and its link leads to the next position. */
  lemma ListMember(ms: seq<SlabMeta>, count: nat, head: int, g: Ghost, k: nat)
    requires SlabsOk(ms, count, g.home, g.pages) && PartialOk(ms, head, g.plist) && PartialExact(ms, g.plist) &&
             k < |g.plist|
    ensures g.plist[k] < |ms| && g.plist[k] in g.home && ms[g.plist[k]].used <= FULL && ms[g.plist[k]].nslots == 1
    ensures ms[g.plist[k]].base != 0
    ensures At(ms, g.plist, k + 1, ms[g.plist[k]].next)
  {
    assert g.plist[k] in g.plist;
    assert ms[g.plist[k]].next == AfterIdx(g.plist, k);
    if k + 1 < |g.plist| { assert g.plist[k + 1] < |ms|; }
  }

  lemma FullVisited(ms: seq<SlabMeta>, count: nat, g: Ghost, k: nat)
    requires SlabsOk(ms, count, g.home, g.pages) && k < |g.plist| && g.plist[k] < |ms| && ms[g.plist[k]].used == FULL
    ensures Visited(ms, g.plist, k, 1)
  {
    LowestFree(FULL);
    hide Bit;
    forall start: nat ensures !FreeRun(FULL, start, 1) {
      if start < 16 { assert Bit(FULL, start); }
    }
  }

  lemma NoRunVisited(ms: seq<SlabMeta>, plist: seq<nat>, k: nat, n: nat)
    requires k < |plist| && plist[k] < |ms| && forall t: nat :: !FreeRun(ms[plist[k]].used, t, n)
    ensures Visited(ms, plist, k, n)
  {
    hide Bit;
  }

  /** When every listed slab has been tried, no slab at all has room: the unlisted ones are full. */
  lemma Searched(ms: seq<SlabMeta>, count: nat, g: Ghost, n: nat)
    requires SlabsOk(ms, count, g.home, g.pages) && PartialExact(ms, g.plist) && n >= 1
    requires forall k :: 0 <= k < |g.plist| ==> Visited(ms, g.plist, k, n)
    ensures NoRun(ms, n)
  {
    hide Bit;
    forall i, start: nat | 0 <= i < |ms| && ms[i].base != 0 ensures !FreeRun(ms[i].used, start, n) {
      if i in g.plist {
        var k :| 0 <= k < |g.plist| && g.plist[k] == i;
        assert Visited(ms, g.plist, k, n);
      } else {
        LowestFree(ms[i].used);
        if FreeRun(ms[i].used, start, n) { RunLeavesRoom(ms[i].used, start, n); }
      }
    }
  }

  /** Pages at the end of memory are new. */
  lemma GrowMemory(pages: map<nat, Kind>, memPages: nat, n: nat)
    requires MemoryOk(pages, memPages)
    ensures Ungrown(pages, memPages, n) && memPages >= 1
  {
  }

  lemma GrownMemory(pages: map<nat, Kind>, p: nat, n: nat, kind: Kind)
    requires MemoryOk(pages, p) && p + n <= 0x1_0000
    ensures MemoryOk(Mark(pages, p, n, kind), p + n)
  {
  }

  lemma FreshCount(pages: map<nat, Kind>, p: nat, kind: Kind)
    requires Ungrown(pages, p, 1)
    ensures |pages[p := kind].Keys| == |pages.Keys| + 1
  {
    MarkCount(pages, p, 1, kind);
    MarkOne(pages, p, kind);
  }

  /** The ghost state with a new slab i on page p whose first n slots hold a mapping (none if n is 0). */
  function WithSlab(g: Ghost, i: nat, p: nat, n: nat, length: nat): Ghost {
    var g1 := g.(home := g.home[i := p], pages := g.pages[p := SlabPage(i)]);
    if n == 0 then g1 else g1.(live := g.live[16 * p := Region(length, p)], own := Claim(g.own, 16 * p, n))
  }

  lemma NewSlabOwned(ms: seq<SlabMeta>, count: nat, g: Ghost, i: nat, p: nat, n: nat, length: nat)
    requires SlabsOk(ms, count, g.home, g.pages) && MasksOk(ms, g.home, g.own) && OwnOk(g.live, g.own) &&
             PagesOk(g.live, g.pages)
    requires i < |ms| && i < count && i !in g.home && p > 0 && Ungrown(g.pages, p, 1)
    requires n <= 16 && (n >= 1 ==> length >= 1 && Slots(length) == n)
    ensures var g', ms' := WithSlab(g, i, p, n, length), ms[i := SlabMeta(p * 0x1_0000, RunMask(0, n), 1, false, -1)];
            && SlabsOk(ms', count, g'.home, g'.pages) && MasksOk(ms', g'.home, g'.own)
            && OwnOk(g'.live, g'.own) && PagesOk(g'.live, g'.pages)
            && (n >= 1 ==> 16 * p !in g.live)
  {
    hide SlabsOk, MasksOk, OwnOk, PagesOk, Slots, FreeRun, Added, Claim, RunMask;
    var m0, m := SlabMeta(p * 0x1_0000, 0, 1, false, -1), SlabMeta(p * 0x1_0000, RunMask(0, n), 1, false, -1);
    var g1 := g.(home := g.home[i := p], pages := g.pages[p := SlabPage(i)]);
    OpenSlab(ms, count, g, i, p, m0);
    FreshRun(n);
    assert ms[i := m] == ms[i := m0][i := m0.(used := RunMask(0, n))];
    if n >= 1 {
      TakeSlots(ms[i := m0], count, g1, i, 0, length, RunMask(0, n));
    } else {
      EmptyMask();
    }
  }

  lemma NewSlabOk(ms: seq<SlabMeta>, count: nat, g: Ghost, partial: int, bigFree: nat, heap: map<nat, BigFree>,
                  i: nat, p: nat, n: nat, length: nat)
    requires SlabsOk(ms, count, g.home, g.pages) && MasksOk(ms, g.home, g.own) && OwnOk(g.live, g.own) &&
             PagesOk(g.live, g.pages)
    requires PartialOk(ms, partial, g.plist) && FreeOk(g.flist, bigFree, heap, g.pages)
    requires i < |ms| && i < count && i !in g.home && i !in g.plist && p > 0 && Ungrown(g.pages, p, 1)
    requires MemoryOk(g.pages, p) && p < 0x1_0000
    requires n <= 16 && (n >= 1 ==> length >= 1 && Slots(length) == n)
    ensures var g', ms' := WithSlab(g, i, p, n, length), ms[i := SlabMeta(p * 0x1_0000, RunMask(0, n), 1, false, -1)];
            && SlabsOk(ms', count, g'.home, g'.pages) && MasksOk(ms', g'.home, g'.own)
            && OwnOk(g'.live, g'.own) && PagesOk(g'.live, g'.pages)
            && PartialOk(ms', partial, g'.plist) && FreeOk(g'.flist, bigFree, heap, g'.pages)
            && MemoryOk(g'.pages, p + 1) && |g'.pages.Keys| == |g.pages.Keys| + 1
            && g'.plist == g.plist && g'.flist == g.flist &&
                g'.live == (if n == 0 then g.live else g.live[16 * p := Region(length, p)])
            && (n >= 1 ==> 16 * p !in g.live) && RunMask(0, n) <= FULL
  {
    hide SlabsOk, MasksOk, OwnOk, PagesOk, PartialOk, FreeOk, MemoryOk, Slots, Claim, RunMask, Mark;
    NewSlabOwned(ms, count, g, i, p, n, length);
    MarkOne(g.pages, p, SlabPage(i));
    FreshCount(g.pages, p, SlabPage(i));
    GrownMemory(g.pages, p, 1, SlabPage(i));
    MarkKeepsFree(g.flist, bigFree, heap, g.pages, p, 1, SlabPage(i));
    ResetKeepsPartial(ms, partial, g.plist, i, SlabMeta(p * 0x1_0000, RunMask(0, n), 1, false, -1));
    RunMaskBound(0, n);
  }

  lemma EmptyMask()
    ensures RunMask(0, 0) == 0
  {
  }

  lemma NotListed(ms: seq<SlabMeta>, plist: seq<nat>, i: nat)
    requires PartialExact(ms, plist) && i < |ms| && ms[i].base == 0
    ensures i !in plist
  {
  }

  lemma FreshRun(n: nat)
    requires n <= 16
    ensures FreeRun(0, 0, n) && Added(0, RunMask(0, n), 0, n)
  {
    RunMaskBound(0, n);
    hide Bit;
    forall j: nat ensures !Bit(0, j) && (Bit(RunMask(0, n), j) <==> j < n) {
      ZeroBits(j);
      RunMaskBit(0, n, j);
    }
  }

  /** The entry MetaAlloc hands out is inactive. */
  lemma UnusedEntry(ms: seq<SlabMeta>, count: nat, count': nat, home: map<nat, nat>, pages: map<nat, Kind>, i: nat)
    requires SlabsOk(ms, count, home, pages) && i < |ms| && count <= count' && (ms[i].base == 0 || i == count)
    ensures i !in home && ms[i].base == 0 && SlabsOk(ms, count', home, pages)
  {
  }

  lemma ResetKeepsPartial(ms: seq<SlabMeta>, head: int, plist: seq<nat>, i: nat, m: SlabMeta)
    requires PartialOk(ms, head, plist) && i < |ms| && i !in plist && !m.inPartial
    ensures PartialOk(ms[i := m], head, plist)
  {
    hide AfterIdx, Distinct;
  }

  function WithRetired(g: Ghost, page: nat): Ghost {
    g.(pages := g.pages[page := Retired])
  }

  /** A page grown but not used for anything. */
  lemma RetireFresh(ms: seq<SlabMeta>, count: nat, g: Ghost, bigFree: nat, heap: map<nat, BigFree>, page: nat)
    requires SlabsOk(ms, count, g.home, g.pages) && PagesOk(g.live, g.pages) && FreeOk(g.flist, bigFree, heap, g.pages)
    requires Ungrown(g.pages, page, 1) && MemoryOk(g.pages, page) && page < 0x1_0000
    ensures var g' := WithRetired(g, page);
            && SlabsOk(ms, count, g'.home, g'.pages) && PagesOk(g'.live, g'.pages) &&
                FreeOk(g'.flist, bigFree, heap, g'.pages)
            && MemoryOk(g'.pages, page + 1) && |g'.pages.Keys| == |g.pages.Keys| + 1
            && g' == g.(pages := g'.pages)
  {
    MarkOne(g.pages, page, Retired);
    FreshCount(g.pages, page, Retired);
    GrownMemory(g.pages, page, 1, Retired);
    FreshKeepsPages(g.live, g.pages, page, Retired);
    MarkKeepsSlabs(ms, count, g.home, g.pages, page, 1, Retired);
    MarkKeepsFree(g.flist, bigFree, heap, g.pages, page, 1, Retired);
    hide SlabsOk, PagesOk, FreeOk, MemoryOk, Mark;
  }

  lemma FreeRunFits(u: nat, start: nat, n: nat)
    requires FreeRun(u, start, n)
    ensures start + n <= 16
  {
  }

  /** A slab with a free run of at least one slot is not full. */
  lemma RunLeavesRoom(u: nat, start: nat, n: nat)
    requires u <= FULL && FreeRun(u, start, n) && n >= 1
    ensures u != FULL
  {
    LowestFree(u);
    assert !Bit(u, start);
  }
}
