/** Whole runs of the allocator: where every page has gone, and what a caller may rely on. */
module MmanRuns {
  import opened Bits
  import opened MmanSpec
  import opened MmanSteps
  import opened Mman

  // ----- page conservation -----

  function Sum(list: seq<nat>, size: map<nat, nat>): nat
    requires forall b :: b in list ==> b in size
  {
    if list == [] then 0 else Sum(list[..|list| - 1], size) + size[list[|list| - 1]]
  }

  /** Every block covers its own range, and every covered page names its block. */
  ghost predicate Blocks(owner: map<nat, nat>, list: seq<nat>, size: map<nat, nat>) {
    && Distinct(list)
    && (forall b :: b in list ==> b in size && Holds(owner, b, size[b], b))
    && (forall p :: p in owner ==> owner[p] in list && owner[p] in size && owner[p] <= p < owner[p] + size[owner[p]])
  }

  lemma DropLast(owner: map<nat, nat>, list: seq<nat>, size: map<nat, nat>)
    requires Blocks(owner, list, size) && list != []
    ensures var b := list[|list| - 1]; Blocks(owner - Range(b, size[b]), list[..|list| - 1], size)
  {
    var n := |list| - 1;
    var b, rest := list[n], list[..n];
    var owner' := owner - Range(b, size[b]);
    assert Holds(owner, b, size[b], b);
    forall c | c in rest ensures c in size && Holds(owner', c, size[c], c) {
      var k :| 0 <= k < n && list[k] == c;
      assert Holds(owner, c, size[c], c);
      forall q: nat | c <= q < c + size[c] ensures q in owner' && owner'[q] == c {
        assert q in owner && owner[q] == c;
      }
    }
    forall p | p in owner' ensures owner'[p] in rest {
      assert owner[p] in list && owner[p] <= p < owner[p] + size[owner[p]];
      var k :| 0 <= k < |list| && list[k] == owner[p];
      assert k < n && rest[k] == owner[p];
    }
  }

  /** Disjoint blocks cover as many pages as their sizes add up to. */
  lemma {:induction false} BlocksSize(owner: map<nat, nat>, list: seq<nat>, size: map<nat, nat>)
    requires Blocks(owner, list, size)
    ensures |owner.Keys| == Sum(list, size)
    decreases |list|
  {
    if list == [] {
      assert owner.Keys == {};
    } else {
      var b := list[|list| - 1];
      DropLast(owner, list, size);
      BlocksSize(owner - Range(b, size[b]), list[..|list| - 1], size);
      assert Holds(owner, b, size[b], b);
      hide Blocks;
      RangeSize(b, size[b]);
      Split(owner.Keys, Range(b, size[b]));
      assert (owner - Range(b, size[b])).Keys == owner.Keys - Range(b, size[b]);
    }
  }

  lemma Split(s: set<nat>, t: set<nat>)
    requires t <= s
    ensures |s| == |s - t| + |t|
  {
  }

  /** The members of a set in some order. */
  ghost function Listing(s: set<nat>): (r: seq<nat>)
    ensures Distinct(r) && forall x :: x in r <==> x in s
  {
    if s == {} then [] else
      var x :| x in s;
      Listing(s - {x}) + [x]
  }

  function SlabPages(pages: map<nat, Kind>): set<nat> {
    set p | p in pages && pages[p].SlabPage?
  }

  function BigOwner(pages: map<nat, Kind>): map<nat, nat> {
    map p | p in pages && pages[p].BigPage? :: pages[p].first
  }

  function FreeOwner(pages: map<nat, Kind>): map<nat, nat> {
    map p | p in pages && pages[p].FreePage? :: pages[p].first
  }

  function RetiredPages(pages: map<nat, Kind>): set<nat> {
    set p | p in pages && pages[p].Retired?
  }

  lemma KindsCover(pages: map<nat, Kind>)
    ensures pages.Keys == SlabPages(pages) + (BigOwner(pages).Keys + (FreeOwner(pages).Keys + RetiredPages(pages)))
  {
  }

  lemma KindsApart(pages: map<nat, Kind>)
    ensures FreeOwner(pages).Keys !! RetiredPages(pages)
    ensures BigOwner(pages).Keys !! FreeOwner(pages).Keys + RetiredPages(pages)
    ensures SlabPages(pages) !! BigOwner(pages).Keys + (FreeOwner(pages).Keys + RetiredPages(pages))
  {
  }

  lemma FourKinds(pages: map<nat, Kind>)
    ensures |pages.Keys| ==
            |SlabPages(pages)| + |BigOwner(pages).Keys| + |FreeOwner(pages).Keys| + |RetiredPages(pages)|
  {
    hide *;
    KindsCover(pages);
    KindsApart(pages);
  }

  function Image(home: map<nat, nat>): set<nat> {
    set i | i in home :: home[i]
  }

  lemma {:induction false} ImageSize(home: map<nat, nat>)
    requires forall i, j :: i in home && j in home && home[i] == home[j] ==> i == j
    ensures |Image(home)| == |home.Keys|
    decreases |home.Keys|
  {
    if home.Keys == {} {
      assert Image(home) == {};
    } else {
      var i :| i in home;
      var rest := home - {i};
      assert rest.Keys == home.Keys - {i};
      ImageSize(rest);
      forall p ensures p in Image(home) <==> p in Image(rest) || p == home[i] {
        if p in Image(home) {
          var j :| j in home && home[j] == p;
          assert j != i ==> j in rest && rest[j] == p;
        }
        if p in Image(rest) {
          var j :| j in rest && rest[j] == p;
          assert j in home && home[j] == p;
        }
      }
      assert Image(home) == Image(rest) + {home[i]};
      assert home[i] !in Image(rest);
    }
  }

  lemma SlabsCounted(ms: seq<SlabMeta>, count: nat, home: map<nat, nat>, pages: map<nat, Kind>)
    requires SlabsOk(ms, count, home, pages)
    ensures |SlabPages(pages)| == |home.Keys|
  {
    forall i, j | i in home && j in home && home[i] == home[j] ensures i == j {
      assert pages[home[i]] == SlabPage(i) && pages[home[j]] == SlabPage(j);
    }
    ImageSize(home);
    forall p ensures p in SlabPages(pages) <==> p in Image(home) {
      if p in SlabPages(pages) { assert home[pages[p].i] == p; }
    }
    assert SlabPages(pages) == Image(home);
  }

  /** First pages of the live big mappings, and how many pages each has. */
  ghost function BigStarts(live: map<nat, Region>): set<nat> {
    set s | s in live && !Small(live[s].length) :: live[s].page
  }

  ghost function BigSizes(live: map<nat, Region>): map<nat, nat> {
    map b | b in BigStarts(live) && 16 * b in live :: Pages(Slots(live[16 * b].length))
  }

  lemma BigCounted(live: map<nat, Region>, pages: map<nat, Kind>)
    requires PagesOk(live, pages)
    ensures forall b :: b in BigStarts(live) ==> b in BigSizes(live)
    ensures |BigOwner(pages).Keys| == Sum(Listing(BigStarts(live)), BigSizes(live))
  {
    hide *;
    var starts, size, owner := BigStarts(live), BigSizes(live), BigOwner(pages);
    forall b | b in starts ensures b in size && Holds(owner, b, size[b], b) {
      BigStartHolds(live, pages, b);
    }
    forall p | p in owner ensures owner[p] in starts && owner[p] in size && owner[p] <= p < owner[p] + size[owner[p]] {
      BigOwned(live, pages, p);
    }
    BlocksAre(owner, Listing(starts), size);
    BlocksSize(owner, Listing(starts), size);
  }

  lemma BlocksAre(owner: map<nat, nat>, list: seq<nat>, size: map<nat, nat>)
    requires Distinct(list) && forall b :: b in list ==> b in size && Holds(owner, b, size[b], b)
    requires forall p :: p in owner ==>
             owner[p] in list && owner[p] in size && owner[p] <= p < owner[p] + size[owner[p]]
    ensures Blocks(owner, list, size)
  {
  }

  lemma BigStartHolds(live: map<nat, Region>, pages: map<nat, Kind>, b: nat)
    requires PagesOk(live, pages) && b in BigStarts(live)
    ensures b in BigSizes(live) && Holds(BigOwner(pages), b, BigSizes(live)[b], b)
  {
    hide PagesOk, Slots, Pages, Small;
    BigStartPlaced(live, pages, b);
  }

  lemma BigOwned(live: map<nat, Region>, pages: map<nat, Kind>, p: nat)
    requires PagesOk(live, pages) && p in BigOwner(pages)
    ensures var b := BigOwner(pages)[p]; b in BigStarts(live) && b in BigSizes(live) && b <= p < b + BigSizes(live)[b]
  {
    hide Slots, Pages, Small;
    var b := pages[p].first;
    assert 16 * b in live && Placed(16 * b, live[16 * b], pages);
    assert live[16 * b].page == b;
  }

  lemma BigStartPlaced(live: map<nat, Region>, pages: map<nat, Kind>, b: nat)
    requires PagesOk(live, pages) && b in BigStarts(live)
    ensures 16 * b in live && !Small(live[16 * b].length) &&
            Marked(pages, b, Pages(Slots(live[16 * b].length)), BigPage(b))
  {
    var s :| s in live && !Small(live[s].length) && live[s].page == b;
    assert Placed(s, live[s], pages);
  }

  /** Sizes of the freed blocks as their headers give them. */
  ghost function FreeSizes(heap: map<nat, BigFree>): map<nat, nat> {
    map b | b in heap :: heap[b].npages
  }

  lemma FreeCounted(flist: seq<nat>, head: nat, heap: map<nat, BigFree>, pages: map<nat, Kind>)
    requires FreeOk(flist, head, heap, pages)
    ensures forall b :: b in flist ==> b in FreeSizes(heap)
    ensures |FreeOwner(pages).Keys| == Sum(flist, FreeSizes(heap))
  {
    var size, owner := FreeSizes(heap), FreeOwner(pages);
    forall b | b in flist ensures b in size && Holds(owner, b, size[b], b) {
      assert BlockOk(b, heap, pages);
    }
    BlocksSize(owner, flist, size);
  }

  /** Every page ever grown is a slab, part of a live big mapping, part of a freed block, or retired. */
  lemma Conservation(a: Allocator)
    requires a.Valid()
    ensures forall b :: b in BigStarts(a.g.live) ==> b in BigSizes(a.g.live)
    ensures forall b :: b in a.g.flist ==> b in FreeSizes(a.heap)
    ensures a.memPages == a.foreign + |a.g.home.Keys| + Sum(Listing(BigStarts(a.g.live)), BigSizes(a.g.live))
                          + Sum(a.g.flist, FreeSizes(a.heap)) + |RetiredPages(a.g.pages)|
  {
    hide SlabsOk, MasksOk, OwnOk, PagesOk, PartialOk, PartialExact, FreeOk, MemoryOk, Sum, BigStarts, BigSizes,
        FreeSizes;
    FourKinds(a.g.pages);
    SlabsCounted(a.meta[..], a.count, a.g.home, a.g.pages);
    BigCounted(a.g.live, a.g.pages);
    FreeCounted(a.g.flist, a.bigFree, a.heap, a.g.pages);
  }

  /** A bit of a slab's mask is set exactly when a live mapping covers the slot, and the partial list, which is acyclic,
      names exactly the slabs with a page and a free slot. */
  lemma MasksAreLive(a: Allocator, i: nat, j: nat)
    requires a.Valid() && i < MAX_SLABS && j < 16
    ensures i in a.g.home ==> (Bit(a.meta[i].used, j) <==> Covered(a.g.live, 16 * a.g.home[i] + j))
    ensures i in a.g.home <==> a.meta[i].base != 0
    ensures Distinct(a.g.plist) && (i in a.g.plist <==>
            i in a.g.home && exists t: nat :: t < 16 && !Bit(a.meta[i].used, t))
  {
    hide Inv, Bit, MaskOk, Covered, HeadersOk;
    var ms := a.meta[..];
    InvParts(ms, a.count, a.partial, a.bigFree, a.heap, a.memPages, a.g, i);
    if i in a.g.home {
      OwnedIsCovered(a.g.live, a.g.own, 16 * a.g.home[i] + j);
      MaskAt(ms[i].used, a.g.home[i], a.g.own, j);
    }
    HasFreeSlot(ms[i].used);
  }

  lemma HasFreeSlot(u: nat)
    requires u <= FULL
    ensures u != FULL <==> exists t: nat :: t < 16 && !Bit(u, t)
  {
    hide Bit, FreeRun;
    LowestFree(u);
    if u < FULL { RunStart(u, Ctz(FULL - u)); }
  }

  /** Some live mapping has slot k set aside for it. */
  ghost predicate Covered(live: map<nat, Region>, k: nat) {
    exists s :: s in live && s <= k < s + Reserved(live[s].length)
  }

  lemma OwnedIsCovered(live: map<nat, Region>, own: map<nat, nat>, k: nat)
    requires OwnOk(live, own)
    ensures k in own <==> Covered(live, k)
  {
    hide Reserved;
    if s :| s in live && s <= k < s + Reserved(live[s].length) {
      assert Holds(own, s, Reserved(live[s].length), s);
    }
  }

  lemma MaskAt(used: nat, page: nat, own: map<nat, nat>, j: nat)
    requires MaskOk(used, page, own) && j < 16
    ensures Bit(used, j) <==> 16 * page + j in own
  {
  }

  lemma RunStart(u: nat, start: nat)
    requires FreeRun(u, start, 1)
    ensures start < 16 && !Bit(u, start)
  {
  }

  lemma InvParts(ms: seq<SlabMeta>, count: nat, partial: int, bigFree: nat, heap: map<nat, BigFree>, memPages: nat,
                 g: Ghost, i: nat)
    requires Inv(ms, count, partial, bigFree, heap, memPages, g) && i < |ms|
    ensures OwnOk(g.live, g.own) && Distinct(g.plist) && ms[i].used <= FULL
    ensures i in g.home <==> ms[i].base != 0
    ensures i in g.home ==> MaskOk(ms[i].used, g.home[i], g.own)
    ensures i in g.plist <==> ms[i].base != 0 && ms[i].used != FULL
  {
    hide PagesOk, FreeOk, MaskOk, OwnOk;
  }

  // ----- runs -----

  /** One thing that happens to memory. A mapping is named by its first slot; Unmap and Write do nothing if the caller
      does not hold it. */
  datatype Request =
    | Map(length: nat, granted: bool)
    | Unmap(s: nat)
    | Write(s: nat, off: nat, n: nat, data: nat -> nat)
    | Sbrk(n: nat)

  /** What the caller holds, by first slot, is what the allocator thinks is live. */
  ghost predicate Agree(held: map<nat, nat>, live: map<nat, Region>) {
    (forall s :: s in held <==> s in live) && forall s :: s in held ==> held[s] == live[s].length
  }

  lemma AgreeMap(held: map<nat, nat>, live: map<nat, Region>, live': map<nat, Region>, addr: nat, s: nat, length: nat)
    requires Agree(held, live) && HandedOut(live, live', addr, s, length)
    ensures addr == 4096 * s && addr / 4096 == s && s !in held && Agree(held[s := length], live')
  {
  }

  lemma AgreeUnmap(held: map<nat, nat>, live: map<nat, Region>, s: nat)
    requires Agree(held, live)
    ensures Agree(held - {s}, live - {s})
  {
  }

  /** A held mapping lies in memory, on a slot boundary, and overlaps no other. */
  ghost predicate Safe(held: map<nat, nat>, s: nat, mem: nat) {
    && s in held && 0 < s && held[s] >= 1 && 4096 * s + held[s] <= mem
    && forall t :: t in held && t != s ==> !Overlap(4096 * s, held[s], 4096 * t, held[t])
  }

  lemma LiveNonempty(live: map<nat, Region>, own: map<nat, nat>, s: nat)
    requires OwnOk(live, own) && s in live
    ensures live[s].length >= 1
  {
  }

  lemma HeldSafe(al: Allocator, held: map<nat, nat>, s: nat)
    requires al.Valid() && Agree(held, al.g.live) && s in held
    ensures Safe(held, s, al.memPages * 0x1_0000)
  {
    hide SlabsOk, MasksOk, OwnOk, PagesOk, PartialOk, PartialExact, FreeOk, MemoryOk, Reserved, Overlap;
    var live := al.g.live;
    ReservedCovers(live[s].length);
    LiveNonempty(live, al.g.own, s);
    LiveSafe(live, al.g.own, al.g.pages, al.memPages, al.g.flist, al.bigFree, al.heap, s);
    forall t | t in held && t != s ensures !Overlap(4096 * s, held[s], 4096 * t, held[t]) {
      LiveDisjoint(live, al.g.own, s, t);
    }
  }

  /** The caller's holdings, the size of memory in bytes, the number of metadata entries ever used and the contents of
      memory, at one moment. */
  datatype Moment = Moment(held: map<nat, nat>, mem: nat, entries: nat, bytes: nat -> nat)

  /** This moment of the allocator, for a caller with these holdings. */
  function Now(al: Allocator, held: map<nat, nat>): Moment
    reads al
  {
    Moment(held, al.memPages * 0x1_0000, al.count, al.bytes)
  }

  /** A request that must be met: not too long, memory may grow by the request rounded up to whole pages, and there is
      room in the table. */
  predicate MustBeMet(m: Moment, length: nat, granted: bool) {
    var pages := if length == 0 then 1 else (length + 0xFFFF) / 0x1_0000;
    length <= 0xFFFF_0000 && granted && m.mem + 0x1_0000 * pages <= 0x1_0000_0000 && m.entries < 4096
  }

  /** What a request changes in the caller's holdings. */
  ghost predicate Served(m: Moment, m': Moment, r: Request) {
    match r
    case Map(length, granted) =>
      || (m'.held == m.held && !MustBeMet(m, length, granted))
      || (length <= MAX_LENGTH && exists s: nat ::
            s !in m.held && m'.held == m.held[s := if length == 0 then 1 else length])
    case Unmap(s) => m'.held == m.held - {s}
    case Write(_, _, _, _) => m'.held == m.held
    case Sbrk(_) => m'.held == m.held
  }

  // ----- the bytes a caller holds -----

  /** Byte i of the mapping whose first slot is s. */
  function ByteAt(m: Moment, s: nat, i: nat): nat {
    m.bytes(4096 * s + i)
  }

  /** The request stores byte i of mapping s; a write that does not fit in its mapping stores nothing. */
  predicate Stores(held: map<nat, nat>, r: Request, s: nat, i: nat) {
    r.Write? && r.s == s && s in held && r.off + r.n <= held[s] && r.off <= i < r.off + r.n
  }

  /** Byte i of mapping s as the request must leave it: zero in a new mapping, and otherwise the byte the request stores
      there or the byte from before. */
  function ByteAfter(m: Moment, r: Request, s: nat, i: nat): nat {
    if s !in m.held then 0 else if Stores(m.held, r, s, i) then r.data(i - r.off) else ByteAt(m, s, i)
  }

  ghost predicate Kept(m: Moment, m': Moment, r: Request) {
    forall s, i: nat :: s in m'.held && i < m'.held[s] ==> ByteAt(m', s, i) == ByteAfter(m, r, s, i)
  }

  /** The last byte stored at offset i of mapping s since s was mapped, or zero if there was none, as the requests and
      holdings up to moment k tell. */
  function LastStored(moments: seq<Moment>, requests: seq<Request>, k: nat, s: nat, i: nat): nat
    requires k < |moments| && k <= |requests|
  {
    if k == 0 || s !in moments[k - 1].held then 0
    else if Stores(moments[k - 1].held, requests[k - 1], s, i) then requests[k - 1].data(i - requests[k - 1].off)
    else LastStored(moments, requests, k - 1, s, i)
  }

  /** Every byte the caller holds at moment k is the one it stored last. */
  ghost predicate Remembered(moments: seq<Moment>, requests: seq<Request>, k: nat)
    requires k < |moments| && k <= |requests|
  {
    forall s, i: nat :: s in moments[k].held && i < moments[k].held[s] ==>
      ByteAt(moments[k], s, i) == LastStored(moments, requests, k, s, i)
  }

  /** No request changes the length of a mapping. */
  lemma LengthKept(m: Moment, m': Moment, r: Request, s: nat)
    requires Served(m, m', r) && s in m.held && s in m'.held
    ensures m.held[s] == m'.held[s]
  {
    hide MustBeMet;
  }

  lemma {:induction false} StoredBytesStay(moments: seq<Moment>, requests: seq<Request>, k: nat)
    requires k < |moments| == |requests| + 1 && moments[0].held == map[]
    requires forall j :: 0 <= j < |requests| ==> Served(moments[j], moments[j + 1], requests[j])
    requires forall j :: 0 <= j < |requests| ==> Kept(moments[j], moments[j + 1], requests[j])
    ensures Remembered(moments, requests, k)
  {
    hide Served, ByteAt;
    if k > 0 {
      StoredBytesStay(moments, requests, k - 1);
      var m, m', r := moments[k - 1], moments[k], requests[k - 1];
      assert m' == moments[k - 1 + 1] && Kept(m, m', r);
      forall s, i: nat | s in m'.held && i < m'.held[s]
        ensures ByteAt(m', s, i) == LastStored(moments, requests, k, s, i)
      {
        assert ByteAt(m', s, i) == ByteAfter(m, r, s, i);
        if s in m.held { LengthKept(m, m', r, s); }
      }
    }
  }

  lemma UntouchedAt(live: map<nat, Region>, bytes: nat -> nat, bytes': nat -> nat, s: nat, i: nat)
    requires Untouched(live, bytes, bytes') && s in live && i < live[s].length
    ensures bytes'(4096 * s + i) == bytes(4096 * s + i)
  {
    assert InLive(live, 4096 * s + i);
  }

  /** A request that stores nothing and leaves the mappings held throughout alone. */
  lemma KeptQuiet(m: Moment, m': Moment, r: Request, live: map<nat, Region>)
    requires Agree(m'.held, live) && Untouched(live, m.bytes, m'.bytes)
    requires forall s :: s in m'.held ==> s in m.held && !(r.Write? && r.s == s && r.off + r.n <= m.held[s])
    ensures Kept(m, m', r)
  {
    hide Untouched;
    forall s, i: nat | s in m'.held && i < m'.held[s] ensures ByteAt(m', s, i) == ByteAfter(m, r, s, i) {
      UntouchedAt(live, m.bytes, m'.bytes, s, i);
    }
  }

  /** A request that maps a zeroed region. */
  lemma KeptMap(m: Moment, m': Moment, r: Request, live: map<nat, Region>, s: nat, n: nat)
    requires r.Map? && Agree(m.held, live) && Untouched(live, m.bytes, m'.bytes)
    requires s !in m.held && m'.held == m.held[s := n] && AllZero(m'.bytes, 4096 * s, n)
    ensures Kept(m, m', r)
  {
    hide Untouched;
    forall t, i: nat | t in m'.held && i < m'.held[t] ensures ByteAt(m', t, i) == ByteAfter(m, r, t, i) {
      if t == s {
        assert m'.bytes(4096 * s + i) == 0;
      } else {
        UntouchedAt(live, m.bytes, m'.bytes, t, i);
      }
    }
  }

  /** A write inside a mapping. */
  lemma KeptWrite(m: Moment, m': Moment, r: Request, live: map<nat, Region>)
    requires r.Write? && Agree(m.held, live) && r.s in m.held && r.off + r.n <= m.held[r.s] && m'.held == m.held
    requires m'.bytes == Poked(m.bytes, 4096 * r.s + r.off, r.n, r.data)
    requires Untouched(live - {r.s}, m.bytes, m'.bytes)
    ensures Kept(m, m', r)
  {
    hide Untouched;
    forall t, i: nat | t in m'.held && i < m'.held[t] ensures ByteAt(m', t, i) == ByteAfter(m, r, t, i) {
      if t == r.s {
        assert (4096 * t + i) - (4096 * r.s + r.off) == i - r.off;
      } else {
        UntouchedAt(live - {r.s}, m.bytes, m'.bytes, t, i);
      }
    }
  }

  // ----- sessions -----

  lemma ServedMap(m: Moment, m': Moment, r: Request, s: nat)
    requires r.Map? && s !in m.held && r.length <= MAX_LENGTH
    requires m'.held == m.held[s := if r.length == 0 then 1 else r.length]
    ensures Served(m, m', r)
  {
  }

  lemma PagesNeeded(length: nat)
    requires length >= 1
    ensures var pages := (length + 0xFFFF) / 0x1_0000;
            if Small(length) then pages == 1 else pages == Pages(Slots(length))
  {
  }

  /** A refused request is one that need not be met. */
  lemma RefusedIs(ms: seq<SlabMeta>, count: nat, memPages: nat, g: Ghost, heap: map<nat, BigFree>, granted: bool,
                  length: nat, held: map<nat, nat>, bytes: nat -> nat)
    requires Refused(ms, count, memPages, g, heap, granted, if length == 0 then 1 else length) && memPages <= 0x1_0000
    ensures !MustBeMet(Moment(held, memPages * 0x1_0000, count, bytes), length, granted)
  {
    hide NoRun, NoBlock, Slots, Pages, Small;
    PagesNeeded(if length == 0 then 1 else length);
  }

  ghost predicate AllSafe(m: Moment) {
    forall s :: s in m.held ==> Safe(m.held, s, m.mem)
  }

  lemma HeldAllSafe(al: Allocator, held: map<nat, nat>)
    requires al.Valid() && Agree(held, al.g.live)
    ensures AllSafe(Now(al, held))
  {
    hide Inv, Safe, Agree;
    forall s | s in held ensures Safe(held, s, al.memPages * 0x1_0000) { HeldSafe(al, held, s); }
  }

  lemma HoldsNothing(al: Allocator)
    requires al.g.live == map[]
    ensures Agree(map[], al.g.live) && AllSafe(Now(al, map[]))
  {
  }

  /** Any sequence of requests, from start-up: at every moment all held mappings are disjoint, aligned and inside
      memory, every byte of them is the one the caller stored there last or zero, and a request is only refused when it
      need not be met. */
  method Session(initialPages: nat, initial: nat -> nat, requests: seq<Request>) returns (moments: seq<Moment>)
    requires 1 <= initialPages <= 0x1_0000
    ensures |moments| == |requests| + 1 && moments[0].held == map[]
    ensures forall i :: 0 <= i < |requests| ==> Served(moments[i], moments[i + 1], requests[i])
    ensures forall i :: 0 <= i < |moments| ==> AllSafe(moments[i]) && Remembered(moments, requests, i)
  {
    hide Inv, Served, Kept, AllSafe, Agree, Remembered;
    var al := new Allocator(initialPages, initial);
    var held: map<nat, nat> := map[];
    HoldsNothing(al);
    moments := [Now(al, held)];
    while |moments| <= |requests|
      invariant 1 <= |moments| <= |requests| + 1 && moments[0].held == map[]
      invariant moments[|moments| - 1] == Now(al, held)
      invariant al.Valid() && fresh(al) && fresh(al.meta) && Agree(held, al.g.live)
      invariant forall i :: 0 <= i < |moments| - 1 ==> Served(moments[i], moments[i + 1], requests[i])
      invariant forall i :: 0 <= i < |moments| - 1 ==> Kept(moments[i], moments[i + 1], requests[i])
      invariant forall i :: 0 <= i < |moments| ==> AllSafe(moments[i])
      decreases |requests| - |moments|
    {
      held := Serve(al, held, requests[|moments| - 1]);
      HeldAllSafe(al, held);
      moments := moments + [Now(al, held)];
    }
    forall i | 0 <= i < |moments| ensures Remembered(moments, requests, i) { StoredBytesStay(moments, requests, i); }
  }

  /** One request of a session: what it changes in the holdings, and that it changes no held byte but the ones it
      stores. */
  method Serve(al: Allocator, held: map<nat, nat>, r: Request) returns (held': map<nat, nat>)
    requires al.Valid() && Agree(held, al.g.live)
    modifies al, al.meta
    ensures al.Valid() && Agree(held', al.g.live)
    ensures Served(old(Now(al, held)), Now(al, held'), r) && Kept(old(Now(al, held)), Now(al, held'), r)
    ensures r.Sbrk? ==> al.bytes == old(al.bytes)
  {
    hide Inv, Agree, Served, Kept, HeadersOk, Untouched;
    match r
    case Map(_, _) => held' := ServeMap(al, held, r);
    case Unmap(_) => held' := ServeUnmap(al, held, r);
    case Write(_, _, _, _) => held' := ServeWrite(al, held, r);
    case Sbrk(n) =>
      Same(al);
      if al.memPages + n <= 0x1_0000 { al.ForeignGrow(n); }
      held' := held;
      ServedQuiet(old(Now(al, held)), Now(al, held), r);
      KeptQuiet(old(Now(al, held)), Now(al, held), r, al.g.live);
  }

  method ServeUnmap(al: Allocator, held: map<nat, nat>, r: Request) returns (held': map<nat, nat>)
    requires al.Valid() && Agree(held, al.g.live) && r.Unmap?
    modifies al, al.meta
    ensures al.Valid() && Agree(held', al.g.live)
    ensures Served(old(Now(al, held)), Now(al, held'), r) && Kept(old(Now(al, held)), Now(al, held'), r)
  {
    hide Inv, Agree, Served, Kept, HeadersOk, Untouched;
    Same(al);
    if r.s in held {
      HeldLive(al, held, r.s);
      al.Munmap(4096 * r.s, held[r.s]);
    }
    NotHeld(held, old(al.g.live), r.s);
    AgreeUnmap(held, old(al.g.live), r.s);
    held' := held - {r.s};
    UnmapIs(old(Now(al, held)), Now(al, held'), r, al.g.live);
  }

  method ServeWrite(al: Allocator, held: map<nat, nat>, r: Request) returns (held': map<nat, nat>)
    requires al.Valid() && Agree(held, al.g.live) && r.Write?
    modifies al
    ensures al.Valid() && Agree(held', al.g.live)
    ensures Served(old(Now(al, held)), Now(al, held'), r) && Kept(old(Now(al, held)), Now(al, held'), r)
  {
    hide Inv, Agree, Served, Kept, HeadersOk, Untouched, Poked;
    held' := held;
    if r.s in held && r.off + r.n <= held[r.s] {
      HeldLive(al, held, r.s);
      al.UserWrite(r.s, r.off, r.n, r.data);
      KeptWrite(old(Now(al, held)), Now(al, held), r, al.g.live);
    } else {
      Same(al);
      KeptQuiet(old(Now(al, held)), Now(al, held), r, al.g.live);
    }
    ServedQuiet(old(Now(al, held)), Now(al, held), r);
  }

  lemma UnmapIs(m: Moment, m': Moment, r: Request, live: map<nat, Region>)
    requires r.Unmap? && m'.held == m.held - {r.s} && Agree(m'.held, live) && Untouched(live, m.bytes, m'.bytes)
    ensures Served(m, m', r) && Kept(m, m', r)
  {
    hide Untouched, Agree, Kept;
    KeptQuiet(m, m', r, live);
  }

  lemma ServedQuiet(m: Moment, m': Moment, r: Request)
    requires (r.Write? || r.Sbrk?) && m'.held == m.held
    ensures Served(m, m', r)
  {
  }

  lemma Same(al: Allocator)
    ensures Untouched(al.g.live, al.bytes, al.bytes)
  {
    Still(al.g.live, al.bytes);
  }

  method ServeMap(al: Allocator, held: map<nat, nat>, r: Request) returns (held': map<nat, nat>)
    requires al.Valid() && Agree(held, al.g.live) && r.Map?
    modifies al, al.meta
    ensures al.Valid() && Agree(held', al.g.live)
    ensures Served(old(Now(al, held)), Now(al, held'), r) && Kept(old(Now(al, held)), Now(al, held'), r)
  {
    hide Inv, Agree, HandedOut, Refused, NoRun, NoSlab, Served, Kept, MustBeMet, Untouched, Wrapped, AllZero;
    ghost var m := Now(al, held);
    held' := held;
    TooLong(m, r.length, r.granted);
    if r.length < 0x1_0000_0000 {
      MemoryBound(al);
      var addr, trap, s := al.Mmap(r.length, r.granted);
      if addr != MAP_FAILED && r.length <= MAX_LENGTH {
        var length := if r.length == 0 then 1 else r.length;
        AgreeMap(held, old(al.g.live), al.g.live, addr, s, length);
        held' := held[addr / 4096 := length];
        ServedMap(m, Now(al, held'), r, s);
        KeptMap(m, Now(al, held'), r, old(al.g.live), s, length);
        return;
      }
      if r.length <= MAX_LENGTH {
        RefusedIs(old(al.meta[..]), old(al.count), old(al.memPages), old(al.g), old(al.heap), r.granted, r.length,
            held, old(al.bytes));
      }
    } else {
      Same(al);
    }
    ServedNot(m, Now(al, held'), r);
    KeptQuiet(m, Now(al, held'), r, old(al.g.live));
  }

  /** A request for 0xFFFFFFFF bytes to an allocator that has just started gets an address, not MAP_FAILED, and no
      mapping. */
  method WrappedRequest() returns (al: Allocator, addr: nat)
    ensures fresh(al) && al.Valid() && addr == 0x1_0000 != MAP_FAILED && al.g.live == map[]
  {
    hide Inv, HandedOut, Refused, NoRun, Untouched, AllZero;
    al := new Allocator(1, Zeros());
    var got, trap, s := al.Mmap(0xFFFF_FFFF, true);
    addr := got;
  }

  /** A request for 0xFFFFF000 bytes runs off the end of memory instead of failing. */
  method TrappedRequest() returns (al: Allocator, trap: bool)
    ensures fresh(al) && al.Valid() && trap && al.g.live == map[]
  {
    hide Inv, HandedOut, Refused, NoRun, Untouched, AllZero, Wrapped;
    al := new Allocator(1, Zeros());
    var addr, trapped, s := al.Mmap(0xFFFF_F000, true);
    trap := trapped;
  }

  lemma MemoryBound(al: Allocator)
    requires al.Valid()
    ensures al.memPages <= 0x1_0000
  {
    hide SlabsOk, MasksOk, OwnOk, PagesOk, PartialOk, PartialExact, FreeOk;
  }

  lemma TooLong(m: Moment, length: nat, granted: bool)
    ensures length > MAX_LENGTH ==> !MustBeMet(m, length, granted)
  {
  }

  lemma ServedNot(m: Moment, m': Moment, r: Request)
    requires r.Map? && m'.held == m.held && !MustBeMet(m, r.length, r.granted)
    ensures Served(m, m', r)
  {
  }

  lemma NotHeld(held: map<nat, nat>, live: map<nat, Region>, s: nat)
    requires Agree(held, live)
    ensures s !in held ==> live - {s} == live
  {
  }

  lemma SlotDivides(s: nat)
    ensures 4096 * s % 4096 == 0 && 4096 * s / 4096 == s
  {
  }

  lemma HeldLive(al: Allocator, held: map<nat, nat>, s: nat)
    requires al.Valid() && Agree(held, al.g.live) && s in held
    ensures s in al.g.live && al.g.live[s].length == held[s] && 0 < 4096 * s < MAP_FAILED
    ensures 4096 * s % 4096 == 0 && 4096 * s / 4096 == s
  {
    hide Inv;
    SlotDivides(s);
    HeldSafe(al, held, s);
    LiveShort(al.meta[..], al.count, al.partial, al.bigFree, al.heap, al.memPages, al.g, s);
  }
}
