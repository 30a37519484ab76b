/** The state of the wasm32 mmap shim (blink-wasm-mman-impl.c) and its invariant, on values. A 64 KiB wasm page is cut
    into sixteen 4 KiB slots; slot k starts at byte 4096 k, page p at slot 16 p. The ghost part says who owns every slot
    and every page. Since ownership is a map, nothing can be owned twice. */
module MmanSpec {
  import opened Bits

  const FULL: nat := 0xFFFF
  const MAX_SLABS: nat := 4096
  /** Largest request whose rounding to whole pages does not wrap a 32-bit size_t. */
  const MAX_LENGTH: nat := 0xFFFF_0000
  /** Largest request whose rounding to whole slots does not wrap. */
  const MAX_ROUNDED: nat := 0xFFFF_F000

  /** One entry of g_meta; base 0 is an unused entry. */
  datatype SlabMeta = SlabMeta(base: nat, used: nat, nslots: nat, inPartial: bool, next: int)

  /** The header kept at the start of a freed big block. A block starts on a page boundary, so pointers to blocks are
      written as page numbers; 0 is NULL. */
  datatype BigFree = BigFree(base: nat, npages: nat, next: nat)

  /** A mapping: the length asked for, and the page it starts in. */
  datatype Region = Region(length: nat, page: nat)

  /** What a page grown by the allocator is used for: slab i, a big mapping or freed block starting at page `first`, or
      nothing any more. */
  datatype Kind = SlabPage(i: nat) | BigPage(first: nat) | FreePage(first: nat) | Retired

  /** live: every mapping by its first slot. own: the first slot of the mapping holding each slot. pages: every page
      ever grown. home: the page of each active slab. plist, flist: the two linked lists, in order. */
  datatype Ghost = Ghost(live: map<nat, Region>, own: map<nat, nat>, pages: map<nat, Kind>, home: map<nat, nat>,
                         plist: seq<nat>, flist: seq<nat>)

  function Slots(length: nat): nat {
    (length + 4095) / 4096
  }

  function Pages(nslots: nat): nat {
    (nslots + 15) / 16
  }

  predicate Small(length: nat) {
    Slots(length) <= 16
  }

  /** Slots set aside for a mapping: what was asked for, or whole pages if that is more than one page. */
  function Reserved(length: nat): nat {
    if Small(length) then Slots(length) else 16 * Pages(Slots(length))
  }

  lemma ReservedCovers(length: nat)
    ensures length <= 4096 * Reserved(length)
    ensures length >= 1 ==> Reserved(length) >= 1
  {
  }

  // ----- ownership of slots -----

  ghost predicate Holds(own: map<nat, nat>, s: nat, n: nat, owner: nat) {
    forall k: nat :: s <= k < s + n ==> k in own && own[k] == owner
  }

  ghost predicate Vacant(own: map<nat, nat>, s: nat, n: nat) {
    forall k: nat :: s <= k < s + n ==> k !in own
  }

  ghost predicate OwnOk(live: map<nat, Region>, own: map<nat, nat>) {
    && (forall s :: s in live ==> live[s].length >= 1 && Holds(own, s, Reserved(live[s].length), s))
    && (forall k :: k in own ==> own[k] in live && own[k] <= k < own[k] + Reserved(live[own[k]].length))
  }

  function Range(s: nat, n: nat): (r: set<nat>)
    ensures forall k :: k in r <==> s <= k < s + n
  {
    if n == 0 then {} else Range(s, n - 1) + {s + n - 1}
  }

  function Claim(own: map<nat, nat>, s: nat, n: nat): (r: map<nat, nat>)
    ensures forall k :: k in r <==> k in own || s <= k < s + n
    ensures forall k :: k in r ==> r[k] == if s <= k < s + n then s else own[k]
  {
    own + map k | k in Range(s, n) :: s
  }

  function Release(own: map<nat, nat>, s: nat, n: nat): (r: map<nat, nat>)
    ensures forall k :: k in r <==> k in own && !(s <= k < s + n)
    ensures forall k :: k in r ==> r[k] == own[k]
  {
    own - Range(s, n)
  }

  /** A mapping holds at least its first slot. */
  lemma FirstSlot(live: map<nat, Region>, own: map<nat, nat>, s: nat)
    requires OwnOk(live, own) && s in live
    ensures s in own && own[s] == s
  {
    ReservedCovers(live[s].length);
    assert Holds(own, s, Reserved(live[s].length), s);
  }

  lemma ClaimHolds(own: map<nat, nat>, s: nat, n: nat, b: nat, m: nat)
    requires Vacant(own, s, n) && Holds(own, b, m, b)
    ensures Holds(Claim(own, s, n), b, m, b)
  {
    forall k: nat | b <= k < b + m ensures k in Claim(own, s, n) && Claim(own, s, n)[k] == b {
      assert k in own && own[k] == b;
    }
  }

  lemma ClaimForward(live: map<nat, Region>, own: map<nat, nat>, s: nat, r: Region, b: nat)
    requires OwnOk(live, own) && r.length >= 1 && Vacant(own, s, Reserved(r.length)) && b in live[s := r]
    ensures live[s := r][b].length >= 1
    ensures Holds(Claim(own, s, Reserved(r.length)), b, Reserved(live[s := r][b].length), b)
  {
    hide Reserved;
    if b != s {
      assert Holds(own, b, Reserved(live[b].length), b);
      hide Holds;
      ClaimHolds(own, s, Reserved(r.length), b, Reserved(live[b].length));
    }
  }

  lemma ClaimBack(live: map<nat, Region>, own: map<nat, nat>, s: nat, r: Region, k: nat)
    requires OwnOk(live, own) && s !in live && k in Claim(own, s, Reserved(r.length))
    ensures var live', own' := live[s := r], Claim(own, s, Reserved(r.length));
            own'[k] in live' && own'[k] <= k < own'[k] + Reserved(live'[own'[k]].length)
  {
    hide Reserved, Holds;
    if !(s <= k < s + Reserved(r.length)) { assert own[k] in live; }
  }

  lemma ClaimOk(live: map<nat, Region>, own: map<nat, nat>, s: nat, r: Region)
    requires OwnOk(live, own) && r.length >= 1 && Vacant(own, s, Reserved(r.length))
    ensures s !in live && OwnOk(live[s := r], Claim(own, s, Reserved(r.length)))
  {
    ReservedCovers(r.length);
    hide Reserved, Holds, Claim;
    assert s !in own;
    if s in live { FirstSlot(live, own, s); }
    var live', own' := live[s := r], Claim(own, s, Reserved(r.length));
    forall b | b in live' ensures live'[b].length >= 1 && Holds(own', b, Reserved(live'[b].length), b) {
      ClaimForward(live, own, s, r, b);
    }
    forall k | k in own' ensures own'[k] in live' && own'[k] <= k < own'[k] + Reserved(live'[own'[k]].length) {
      ClaimBack(live, own, s, r, k);
    }
  }

  lemma ReleaseOk(live: map<nat, Region>, own: map<nat, nat>, s: nat)
    requires OwnOk(live, own) && s in live
    ensures OwnOk(live - {s}, Release(own, s, Reserved(live[s].length)))
    ensures forall k :: k in own ==> (k in Release(own, s, Reserved(live[s].length)) <==> own[k] != s)
  {
    hide Reserved;
    assert Holds(own, s, Reserved(live[s].length), s);
    var live', own' := live - {s}, Release(own, s, Reserved(live[s].length));
    forall b | b in live' ensures Holds(own', b, Reserved(live'[b].length), b) {
      assert Holds(own, b, Reserved(live[b].length), b);
      forall k: nat | b <= k < b + Reserved(live[b].length) ensures k in own' && own'[k] == b {
        assert k in own && own[k] == b;
      }
    }
  }

  // ----- slabs -----

  /** Active entries of g_meta are the ones with a home page, and pages point back at them. */
  ghost predicate SlabsOk(ms: seq<SlabMeta>, count: nat, home: map<nat, nat>, pages: map<nat, Kind>) {
    && (forall i :: 0 <= i < |ms| ==> ms[i].used <= FULL && (ms[i].base != 0 <==> i in home))
    && (forall i :: i in home ==> i < |ms| && i < count && ms[i].nslots == 1 && ms[i].base == home[i] * 0x1_0000)
    && (forall i :: i in home ==> home[i] in pages && pages[home[i]] == SlabPage(i))
    && (forall p :: p in pages && pages[p].SlabPage? ==> pages[p].i in home && home[pages[p].i] == p)
  }

  /** Bit j of a slab's mask is set exactly when slot j of its page belongs to some mapping. */
  ghost predicate MaskOk(used: nat, page: nat, own: map<nat, nat>) {
    forall j: nat :: j < 16 ==> (Bit(used, j) <==> 16 * page + j in own)
  }

  ghost predicate MasksOk(ms: seq<SlabMeta>, home: map<nat, nat>, own: map<nat, nat>) {
    forall i :: i in home ==> i < |ms| && MaskOk(ms[i].used, home[i], own)
  }

  // ----- pages -----

  /** A small mapping lies inside one slab page; a big one fills pages marked as its own. */
  ghost predicate Placed(s: nat, r: Region, pages: map<nat, Kind>) {
    if Small(r.length) then 16 * r.page <= s && s + Slots(r.length) <= 16 * r.page + 16 && r.page in pages &&
        pages[r.page].SlabPage?
    else s == 16 * r.page && Marked(pages, r.page, Pages(Slots(r.length)), BigPage(r.page))
  }

  ghost predicate Marked(pages: map<nat, Kind>, p: nat, n: nat, kind: Kind) {
    forall q: nat :: p <= q < p + n ==> q in pages && pages[q] == kind
  }

  ghost predicate PagesOk(live: map<nat, Region>, pages: map<nat, Kind>) {
    && (forall s :: s in live ==> Placed(s, live[s], pages))
    && (forall p :: p in pages && pages[p].BigPage? ==>
          var a := pages[p].first;
          16 * a in live && !Small(live[16 * a].length) && a <= p < a + Pages(Slots(live[16 * a].length)))
  }

  // ----- the list of freed big blocks -----

  ghost predicate BlockOk(b: nat, heap: map<nat, BigFree>, pages: map<nat, Kind>) {
    && b > 0 && b in heap && heap[b].base == b && heap[b].npages >= 1
    && Marked(pages, b, heap[b].npages, FreePage(b))
  }

  /** The block after position k, 0 at the end. */
  function After(flist: seq<nat>, k: int): nat
    requires -1 <= k < |flist|
  {
    if k + 1 < |flist| then flist[k + 1] else 0
  }

  ghost predicate FreeOk(flist: seq<nat>, head: nat, heap: map<nat, BigFree>, pages: map<nat, Kind>) {
    && head == After(flist, -1)
    && Distinct(flist)
    && (forall k :: 0 <= k < |flist| ==> BlockOk(flist[k], heap, pages) && heap[flist[k]].next == After(flist, k))
    && (forall p :: p in pages && pages[p].FreePage? ==>
          var b := pages[p].first;
          b in flist && b in heap && b <= p < b + heap[b].npages)
  }

  // ----- the partial list -----

  function AfterIdx(plist: seq<nat>, k: int): int
    requires -1 <= k < |plist|
  {
    if k + 1 < |plist| then plist[k + 1] else -1
  }

  predicate Distinct(list: seq<nat>) {
    forall j, k :: 0 <= j < k < |list| ==> list[j] != list[k]
  }

  predicate InTable(ms: seq<SlabMeta>, plist: seq<nat>) {
    forall k :: 0 <= k < |plist| ==> plist[k] < |ms|
  }

  ghost predicate Linked(ms: seq<SlabMeta>, plist: seq<nat>)
    requires InTable(ms, plist)
  {
    forall k :: 0 <= k < |plist| ==> ms[plist[k]].next == AfterIdx(plist, k)
  }

  /** g_partial and the next_partial links spell out plist, which is acyclic; in_partial marks its members. */
  ghost predicate PartialOk(ms: seq<SlabMeta>, head: int, plist: seq<nat>) {
    && InTable(ms, plist) && Linked(ms, plist) && Distinct(plist) && head == AfterIdx(plist, -1)
    && (forall i :: 0 <= i < |ms| ==> (ms[i].inPartial <==> i in plist))
  }

  /** The list holds exactly the slabs with a base and a free slot. */
  ghost predicate PartialExact(ms: seq<SlabMeta>, plist: seq<nat>) {
    forall i :: 0 <= i < |ms| ==> (i in plist <==> ms[i].base != 0 && ms[i].used != FULL)
  }

  /** Every page the allocator ever grew lies above page 0 and inside memory. */
  ghost predicate MemoryOk(pages: map<nat, Kind>, memPages: nat) {
    1 <= memPages <= 0x1_0000 && forall p :: p in pages ==> 1 <= p < memPages
  }

  /** The invariant of the whole allocator. */
  ghost predicate Inv(ms: seq<SlabMeta>, count: nat, partial: int, bigFree: nat, heap: map<nat, BigFree>,
                      memPages: nat, g: Ghost) {
    && SlabsOk(ms, count, g.home, g.pages) && MasksOk(ms, g.home, g.own)
    && OwnOk(g.live, g.own) && PagesOk(g.live, g.pages)
    && PartialOk(ms, partial, g.plist) && PartialExact(ms, g.plist)
    && FreeOk(g.flist, bigFree, heap, g.pages) && MemoryOk(g.pages, memPages)
  }

  // ----- what the invariant is for -----

  predicate Overlap(a: nat, m: nat, b: nat, n: nat) {
    a < b + n && b < a + m
  }

  /** Not even what is set aside for two mappings overlaps. */
  lemma ReservedDisjoint(live: map<nat, Region>, own: map<nat, nat>, a: nat, b: nat)
    requires OwnOk(live, own) && a in live && b in live && a != b
    ensures !Overlap(4096 * a, 4096 * Reserved(live[a].length), 4096 * b, 4096 * Reserved(live[b].length))
  {
    ReservedCovers(live[a].length);
    ReservedCovers(live[b].length);
    hide Reserved;
    assert Holds(own, a, Reserved(live[a].length), a) && Holds(own, b, Reserved(live[b].length), b);
    assert own[a] == a && own[b] == b;
  }

  /** No two mappings share a byte. */
  lemma LiveDisjoint(live: map<nat, Region>, own: map<nat, nat>, a: nat, b: nat)
    requires OwnOk(live, own) && a in live && b in live && a != b
    ensures !Overlap(4096 * a, live[a].length, 4096 * b, live[b].length)
  {
    ReservedCovers(live[a].length);
    ReservedCovers(live[b].length);
    ReservedDisjoint(live, own, a, b);
    hide Reserved;
  }

  /** The page of any slot of a mapping is a slab page or one of that mapping's own pages. */
  lemma SlotPage(live: map<nat, Region>, pages: map<nat, Kind>, s: nat, k: nat)
    requires PagesOk(live, pages) && s in live && s <= k < s + Reserved(live[s].length)
    ensures k / 16 in pages && (pages[k / 16] == BigPage(live[s].page) || pages[k / 16].SlabPage?)
  {
    assert Placed(s, live[s], pages);
    hide Slots, Pages;
  }

  /** Everything set aside for a mapping is inside grown memory and clear of every freed block, hence of the headers
      kept there. */
  lemma LiveSafe(live: map<nat, Region>, own: map<nat, nat>, pages: map<nat, Kind>, memPages: nat,
                 flist: seq<nat>, head: nat, heap: map<nat, BigFree>, s: nat)
    requires OwnOk(live, own) && PagesOk(live, pages) && MemoryOk(pages, memPages)
    requires FreeOk(flist, head, heap, pages) && s in live
    ensures s >= 16 && 4096 * (s + Reserved(live[s].length)) <= memPages * 0x1_0000
    ensures forall b :: b in flist ==>
              b in heap && !Overlap(4096 * s, 4096 * Reserved(live[s].length), b * 0x1_0000, heap[b].npages * 0x1_0000)
  {
    var n := Reserved(live[s].length);
    ReservedCovers(live[s].length);
    hide Reserved, Small, Placed;
    SlotPage(live, pages, s, s);
    SlotPage(live, pages, s, s + n - 1);
    forall b | b in flist
      ensures b in heap && !Overlap(4096 * s, 4096 * n, b * 0x1_0000, heap[b].npages * 0x1_0000)
    {
      var np := heap[b].npages;
      assert BlockOk(b, heap, pages);
      assert s / 16 < b || b + np <= s / 16;
      if s < 16 * b < s + n { SlotPage(live, pages, s, 16 * b); }
    }
  }

  // ----- the bytes of mappings -----

  /** Memory after data(0), data(1), .. data(n - 1) are stored from address a on. */
  function Poked(bytes: nat -> nat, a: nat, n: nat, data: nat -> nat): nat -> nat {
    (x: nat) => if a <= x < a + n then data(x - a) else bytes(x)
  }

  ghost predicate InLive(live: map<nat, Region>, a: nat) {
    exists t :: t in live && 4096 * t <= a < 4096 * t + live[t].length
  }

  /** No byte of any of these mappings changed. */
  ghost predicate Untouched(live: map<nat, Region>, bytes: nat -> nat, bytes': nat -> nat) {
    forall a: nat :: InLive(live, a) ==> bytes'(a) == bytes(a)
  }

  lemma PokeUntouched(live: map<nat, Region>, bytes: nat -> nat, a: nat, n: nat, data: nat -> nat)
    requires forall t :: t in live ==> !Overlap(4096 * t, live[t].length, a, n)
    ensures Untouched(live, bytes, Poked(bytes, a, n, data))
  {
  }

  // ----- the bytes of headers -----

  const HEADER: nat := 12

  /** Byte i of a 32-bit little-endian word. */
  function WordByte(v: nat, i: nat): nat {
    if i == 0 then v % 256 else if i == 1 then v / 0x100 % 256
    else if i == 2 then v / 0x1_0000 % 256 else v / 0x100_0000 % 256
  }

  function WordBytes(v: nat): nat -> nat {
    (i: nat) => WordByte(v, i)
  }

  /** The bytes of a header: base address, page count and next address. */
  function HeaderByte(h: BigFree, i: nat): nat {
    if i < 4 then WordByte(h.base * 0x1_0000, i)
    else if i < 8 then WordByte(h.npages, i - 4)
    else WordByte(h.next * 0x1_0000, i - 8)
  }

  function HeaderBytes(h: BigFree): nat -> nat {
    (i: nat) => HeaderByte(h, i)
  }

  /** The word at address a. */
  function Load32(bytes: nat -> nat, a: nat): nat {
    bytes(a) + 0x100 * bytes(a + 1) + 0x1_0000 * bytes(a + 2) + 0x100_0000 * bytes(a + 3)
  }

  /** The header at the start of page b. */
  function LoadHeader(bytes: nat -> nat, b: nat): BigFree {
    var a := b * 0x1_0000;
    BigFree(Load32(bytes, a) / 0x1_0000, Load32(bytes, a + 4), Load32(bytes, a + 8) / 0x1_0000)
  }

  /** Addresses and sizes fit 32 bits. */
  predicate Fits(h: BigFree) {
    h.base < 0x1_0000 && h.npages < 0x1_0000_0000 && h.next < 0x1_0000
  }

  /** Header h is in memory at the start of page b. */
  ghost predicate Stored(bytes: nat -> nat, b: nat, h: BigFree) {
    forall a: nat :: b * 0x1_0000 <= a < b * 0x1_0000 + HEADER ==> bytes(a) == HeaderByte(h, a - b * 0x1_0000)
  }

  /** Every header on the list is in memory, in its block. */
  ghost predicate HeadersOk(bytes: nat -> nat, flist: seq<nat>, heap: map<nat, BigFree>) {
    forall b :: b in flist ==> b in heap && Fits(heap[b]) && Stored(bytes, b, heap[b])
  }

  lemma WordBack(v: nat)
    requires v < 0x1_0000_0000
    ensures WordByte(v, 0) + 0x100 * WordByte(v, 1) + 0x1_0000 * WordByte(v, 2) + 0x100_0000 * WordByte(v, 3) == v
  {
    var q1 := v / 0x100;
    var q2 := q1 / 0x100;
    assert v / 0x1_0000 == q2 && v / 0x100_0000 == q2 / 0x100;
  }

  /** Loading a header that is in memory gives it back. */
  lemma LoadBack(bytes: nat -> nat, b: nat, h: BigFree)
    requires Stored(bytes, b, h) && Fits(h)
    ensures LoadHeader(bytes, b) == h
  {
    hide WordByte;
    var a := b * 0x1_0000;
    WordBack(h.base * 0x1_0000);
    WordBack(h.npages);
    WordBack(h.next * 0x1_0000);
    assert Load32(bytes, a) == h.base * 0x1_0000;
    assert Load32(bytes, a + 4) == h.npages;
    assert Load32(bytes, a + 8) == h.next * 0x1_0000;
  }

  /** A write clear of all headers leaves them in memory. */
  lemma PokeKeepsHeaders(bytes: nat -> nat, flist: seq<nat>, heap: map<nat, BigFree>, a: nat, n: nat, data: nat -> nat)
    requires HeadersOk(bytes, flist, heap) && forall b :: b in flist ==> !Overlap(a, n, b * 0x1_0000, HEADER)
    ensures HeadersOk(Poked(bytes, a, n, data), flist, heap)
  {
    hide HeaderByte;
    forall b | b in flist ensures b in heap && Fits(heap[b]) && Stored(Poked(bytes, a, n, data), b, heap[b]) {
      assert Stored(bytes, b, heap[b]);
    }
  }

  /** Writing a whole header stores it and leaves those of other blocks. */
  lemma PokeHeader(bytes: nat -> nat, p: nat, h: BigFree)
    ensures Stored(Poked(bytes, p * 0x1_0000, HEADER, HeaderBytes(h)), p, h)
  {
    hide HeaderByte;
  }

  lemma PokeElsewhere(bytes: nat -> nat, p: nat, off: nat, n: nat, data: nat -> nat, b: nat, h: BigFree)
    requires Stored(bytes, b, h) && b != p && off + n <= HEADER
    ensures Stored(Poked(bytes, p * 0x1_0000 + off, n, data), b, h)
  {
    hide HeaderByte;
  }

  /** Writing the last word of a header changes its `next`. */
  lemma PokeNext(bytes: nat -> nat, p: nat, h: BigFree, next: nat)
    requires Stored(bytes, p, h)
    ensures Stored(Poked(bytes, p * 0x1_0000 + 8, 4, WordBytes(next * 0x1_0000)), p, h.(next := next))
  {
    hide WordByte;
  }

  /** Writing anything inside a mapping never touches the headers of freed blocks. */
  lemma WritesAreHarmless(live: map<nat, Region>, own: map<nat, nat>, pages: map<nat, Kind>, memPages: nat,
                          flist: seq<nat>, head: nat, heap: map<nat, BigFree>, bytes: nat -> nat,
                          s: nat, a: nat, n: nat, data: nat -> nat)
    requires OwnOk(live, own) && PagesOk(live, pages) && MemoryOk(pages, memPages)
    requires FreeOk(flist, head, heap, pages) && s in live && HeadersOk(bytes, flist, heap)
    requires 4096 * s <= a && a + n <= 4096 * (s + Reserved(live[s].length))
    ensures HeadersOk(Poked(bytes, a, n, data), flist, heap)
  {
    hide Reserved, OwnOk, PagesOk, HeadersOk, Poked;
    LiveSafe(live, own, pages, memPages, flist, head, heap, s);
    forall b | b in flist ensures !Overlap(a, n, b * 0x1_0000, HEADER) {
      assert b in heap && BlockOk(b, heap, pages);
    }
    PokeKeepsHeaders(bytes, flist, heap, a, n, data);
  }

  /** Headers of freed blocks lie clear of every mapping. */
  lemma HeaderClear(live: map<nat, Region>, own: map<nat, nat>, pages: map<nat, Kind>, memPages: nat,
                    flist: seq<nat>, head: nat, heap: map<nat, BigFree>, b: nat)
    requires OwnOk(live, own) && PagesOk(live, pages) && MemoryOk(pages, memPages)
    requires FreeOk(flist, head, heap, pages) && b in flist
    ensures forall t :: t in live ==> !Overlap(4096 * t, live[t].length, b * 0x1_0000, HEADER)
  {
    hide Reserved, OwnOk, PagesOk;
    assert b in heap && heap[b].npages >= 1 by { assert BlockOk(b, heap, pages); }
    forall t | t in live ensures !Overlap(4096 * t, live[t].length, b * 0x1_0000, HEADER) {
      LiveSafe(live, own, pages, memPages, flist, head, heap, t);
      ReservedCovers(live[t].length);
    }
  }

  /** The first bytes of a big mapping lie clear of every other mapping. */
  lemma FirstBytesClear(live: map<nat, Region>, own: map<nat, nat>, s: nat)
    requires OwnOk(live, own) && s in live && !Small(live[s].length)
    ensures forall t :: t in live && t != s ==> !Overlap(4096 * t, live[t].length, 4096 * s, HEADER)
  {
    assert live[s].length >= HEADER;
    hide OwnOk;
    forall t | t in live && t != s ensures !Overlap(4096 * t, live[t].length, 4096 * s, HEADER) {
      LiveDisjoint(live, own, t, s);
    }
  }

  /** What is set aside for a mapping lies clear of every other mapping. */
  lemma ReservedClear(live: map<nat, Region>, own: map<nat, nat>, s: nat, n: nat)
    requires OwnOk(live, own) && s in live && n <= 4096 * Reserved(live[s].length)
    ensures forall t :: t in live && t != s ==> !Overlap(4096 * t, live[t].length, 4096 * s, n)
  {
    hide OwnOk, Reserved;
    forall t | t in live && t != s ensures !Overlap(4096 * t, live[t].length, 4096 * s, n) {
      ReservedDisjoint(live, own, t, s);
      ReservedCovers(live[t].length);
    }
  }

  /** A write inside a mapping lies clear of every other one. */
  lemma WriteClear(live: map<nat, Region>, own: map<nat, nat>, s: nat, off: nat, n: nat)
    requires OwnOk(live, own) && s in live && off + n <= live[s].length
    ensures forall t :: t in live - {s} ==> !Overlap(4096 * t, live[t].length, 4096 * s + off, n)
  {
    hide OwnOk;
    forall t | t in live - {s} ensures !Overlap(4096 * t, live[t].length, 4096 * s + off, n) {
      LiveDisjoint(live, own, t, s);
    }
  }
}
