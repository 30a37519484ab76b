/** What each step of the allocator does to the ghost state, and why the invariant survives it. */
module MmanSteps {
  import opened Bits
  import opened MmanSpec

  function Mark(pages: map<nat, Kind>, p: nat, n: nat, kind: Kind): (r: map<nat, Kind>)
    ensures forall q :: q in r <==> q in pages || p <= q < p + n
    ensures forall q :: q in r ==> r[q] == if p <= q < p + n then kind else pages[q]
  {
    pages + map q | q in Range(p, n) :: kind
  }

  lemma MarkOne(pages: map<nat, Kind>, p: nat, kind: Kind)
    ensures Mark(pages, p, 1, kind) == pages[p := kind]
  {
  }

  lemma RangeSize(s: nat, n: nat)
    ensures |Range(s, n)| == n
  {
  }

  /** Marking new pages adds them to the count; re-marking old ones does not. */
  lemma MarkCount(pages: map<nat, Kind>, p: nat, n: nat, kind: Kind)
    ensures Ungrown(pages, p, n) ==> |Mark(pages, p, n, kind).Keys| == |pages.Keys| + n
    ensures (forall q: nat :: p <= q < p + n ==> q in pages) ==> Mark(pages, p, n, kind).Keys == pages.Keys
  {
    RangeSize(p, n);
    assert Mark(pages, p, n, kind).Keys == pages.Keys + Range(p, n);
    if Ungrown(pages, p, n) { assert pages.Keys !! Range(p, n); }
  }

  /** No page of the range has been grown yet. */
  ghost predicate Ungrown(pages: map<nat, Kind>, p: nat, n: nat) {
    forall q: nat :: p <= q < p + n ==> q !in pages
  }

  /** Slots of pages never grown belong to nobody. */
  lemma UngrownVacant(live: map<nat, Region>, own: map<nat, nat>, pages: map<nat, Kind>, p: nat, n: nat)
    requires OwnOk(live, own) && PagesOk(live, pages) && Ungrown(pages, p, n)
    ensures Vacant(own, 16 * p, 16 * n)
  {
    forall k: nat | 16 * p <= k < 16 * p + 16 * n ensures k !in own {
      if k in own { SlotPage(live, pages, own[k], k); }
    }
  }

  // ----- small mappings -----

  /** New mask u' of slab i, with slots start .. start + n - 1 added. */
  ghost predicate Added(u: nat, u': nat, start: nat, n: nat) {
    && start + n <= 16 && u' <= FULL
    && forall j: nat :: j < 16 ==> (Bit(u', j) <==> Bit(u, j) || start <= j < start + n)
  }

  ghost predicate FreeRun(u: nat, start: nat, n: nat) {
    start + n <= 16 && forall j: nat :: start <= j < start + n ==> !Bit(u, j)
  }

  lemma SlabFacts(ms: seq<SlabMeta>, count: nat, home: map<nat, nat>, pages: map<nat, Kind>, own: map<nat, nat>, i: nat)
    requires SlabsOk(ms, count, home, pages) && MasksOk(ms, home, own) && i in home
    ensures i < |ms| && i < count && home[i] in pages && pages[home[i]] == SlabPage(i)
    ensures ms[i].used <= FULL && ms[i].base == home[i] * 0x1_0000 && ms[i].base != 0 && ms[i].nslots == 1
    ensures MaskOk(ms[i].used, home[i], own)
  {
    hide MaskOk;
  }

  /** Changing a mask within 16 bits keeps the slab table in order. */
  lemma MaskKeepsSlabs(ms: seq<SlabMeta>, count: nat, home: map<nat, nat>, pages: map<nat, Kind>, i: nat, u': nat)
    requires SlabsOk(ms, count, home, pages) && i < |ms| && u' <= FULL
    ensures SlabsOk(ms[i := ms[i].(used := u')], count, home, pages)
  {
  }

  /** Changing ownership only inside slab i's page concerns only slab i's mask. */
  lemma MaskKeepsMasks(ms: seq<SlabMeta>, count: nat, home: map<nat, nat>, pages: map<nat, Kind>,
                       own: map<nat, nat>, own': map<nat, nat>, i: nat, u': nat)
    requires SlabsOk(ms, count, home, pages) && MasksOk(ms, home, own) && i in home
    requires MaskOk(u', home[i], own')
    requires forall k: nat :: !(16 * home[i] <= k < 16 * home[i] + 16) ==> (k in own <==> k in own')
    ensures MasksOk(ms[i := ms[i].(used := u')], home, own')
  {
    var ms' := ms[i := ms[i].(used := u')];
    forall t | t in home ensures t < |ms'| && MaskOk(ms'[t].used, home[t], own') {
      if t != i {
        assert MaskOk(ms[t].used, home[t], own);
        assert pages[home[t]] == SlabPage(t) && pages[home[i]] == SlabPage(i);
        assert home[t] < home[i] || home[i] < home[t];
      }
    }
  }

  lemma RunVacant(own: map<nat, nat>, u: nat, page: nat, start: nat, n: nat)
    requires MaskOk(u, page, own) && FreeRun(u, start, n)
    ensures Vacant(own, 16 * page + start, n)
  {
    forall k: nat | 16 * page + start <= k < 16 * page + start + n ensures k !in own {
      assert !Bit(u, k - 16 * page);
    }
  }

  lemma AddedMask(own: map<nat, nat>, u: nat, u': nat, page: nat, start: nat, n: nat)
    requires MaskOk(u, page, own) && Added(u, u', start, n)
    ensures MaskOk(u', page, Claim(own, 16 * page + start, n))
  {
    forall j: nat | j < 16 ensures Bit(u', j) <==> 16 * page + j in Claim(own, 16 * page + start, n) {
      assert Bit(u, j) <==> 16 * page + j in own;
    }
  }

  lemma PlaceSmall(live: map<nat, Region>, pages: map<nat, Kind>, s: nat, r: Region)
    requires PagesOk(live, pages) && s !in live && Small(r.length) && Placed(s, r, pages)
    ensures PagesOk(live[s := r], pages)
  {
    hide Placed;
  }

  lemma TakeSlots(ms: seq<SlabMeta>, count: nat, g: Ghost, i: nat, start: nat, length: nat, u': nat)
    requires SlabsOk(ms, count, g.home, g.pages) && MasksOk(ms, g.home, g.own) && OwnOk(g.live, g.own) &&
             PagesOk(g.live, g.pages)
    requires i in g.home && length >= 1 && Small(length)
    requires FreeRun(ms[i].used, start, Slots(length)) && Added(ms[i].used, u', start, Slots(length))
    ensures var ms', s, r := ms[i := ms[i].(used := u')], 16 * g.home[i] + start, Region(length, g.home[i]);
            && s !in g.live
            && OwnOk(g.live[s := r], Claim(g.own, s, Slots(length)))
            && PagesOk(g.live[s := r], g.pages)
            && SlabsOk(ms', count, g.home, g.pages)
            && MasksOk(ms', g.home, Claim(g.own, s, Slots(length)))
  {
    hide SlabsOk, MasksOk, OwnOk, PagesOk, Slots;
    var n, p, s := Slots(length), g.home[i], 16 * g.home[i] + start;
    var own' := Claim(g.own, s, n);
    SlabFacts(ms, count, g.home, g.pages, g.own, i);
    MaskKeepsSlabs(ms, count, g.home, g.pages, i, u');
    RunVacant(g.own, ms[i].used, p, start, n);
    AddedMask(g.own, ms[i].used, u', p, start, n);
    MaskKeepsMasks(ms, count, g.home, g.pages, g.own, own', i, u');
    ClaimOk(g.live, g.own, s, Region(length, p));
    PlaceSmall(g.live, g.pages, s, Region(length, p));
  }

  /** New mask u' of a slab, with the slots of a mapping removed. */
  ghost predicate Removed(u: nat, u': nat, start: nat, n: nat) {
    && start + n <= 16 && u' <= FULL
    && forall j: nat :: j < 16 ==> (Bit(u', j) <==> Bit(u, j) && !(start <= j < start + n))
  }

  lemma RemovedMask(own: map<nat, nat>, u: nat, u': nat, page: nat, start: nat, n: nat)
    requires MaskOk(u, page, own) && Removed(u, u', start, n)
    ensures MaskOk(u', page, Release(own, 16 * page + start, n))
  {
    forall j: nat | j < 16 ensures Bit(u', j) <==> 16 * page + j in Release(own, 16 * page + start, n) {
      assert Bit(u, j) <==> 16 * page + j in own;
    }
  }

  lemma UnplaceSmall(live: map<nat, Region>, pages: map<nat, Kind>, s: nat)
    requires PagesOk(live, pages) && s in live && Small(live[s].length)
    ensures PagesOk(live - {s}, pages)
  {
    hide Placed;
  }

  lemma DropSlots(ms: seq<SlabMeta>, count: nat, g: Ghost, i: nat, s: nat, u': nat)
    requires SlabsOk(ms, count, g.home, g.pages) && MasksOk(ms, g.home, g.own) && OwnOk(g.live, g.own) &&
             PagesOk(g.live, g.pages)
    requires i in g.home && s in g.live && Small(g.live[s].length) && g.live[s].page == g.home[i] && s >= 16 * g.home[i]
    requires Removed(ms[i].used, u', s - 16 * g.home[i], Slots(g.live[s].length))
    ensures var ms', own' := ms[i := ms[i].(used := u')], Release(g.own, s, Slots(g.live[s].length));
            && OwnOk(g.live - {s}, own') && PagesOk(g.live - {s}, g.pages)
            && SlabsOk(ms', count, g.home, g.pages) && MasksOk(ms', g.home, own')
  {
    hide SlabsOk, MasksOk, OwnOk, PagesOk, Slots;
    var n, p := Slots(g.live[s].length), g.home[i];
    var own' := Release(g.own, s, n);
    SlabFacts(ms, count, g.home, g.pages, g.own, i);
    MaskKeepsSlabs(ms, count, g.home, g.pages, i, u');
    RemovedMask(g.own, ms[i].used, u', p, s - 16 * p, n);
    MaskKeepsMasks(ms, count, g.home, g.pages, g.own, own', i, u');
    ReleaseOk(g.live, g.own, s);
    UnplaceSmall(g.live, g.pages, s);
  }

  // ----- slabs coming and going -----

  /** A fresh page may become anything without disturbing mappings. */
  lemma FreshKeepsPages(live: map<nat, Region>, pages: map<nat, Kind>, p: nat, kind: Kind)
    requires PagesOk(live, pages) && p !in pages && !kind.BigPage?
    ensures PagesOk(live, pages[p := kind])
  {
    hide Slots, Pages;
    forall s | s in live ensures Placed(s, live[s], pages[p := kind]) {
      assert Placed(s, live[s], pages);
    }
  }

  lemma OpenTable(ms: seq<SlabMeta>, count: nat, home: map<nat, nat>, pages: map<nat, Kind>, i: nat, p: nat,
                  m: SlabMeta)
    requires SlabsOk(ms, count, home, pages) && i < |ms| && i < count && i !in home && p > 0 && p !in pages
    requires m.base == p * 0x1_0000 && m.used == 0 && m.nslots == 1
    ensures SlabsOk(ms[i := m], count, home[i := p], pages[p := SlabPage(i)])
  {
  }

  lemma OpenMasks(ms: seq<SlabMeta>, home: map<nat, nat>, own: map<nat, nat>, i: nat, p: nat, m: SlabMeta)
    requires MasksOk(ms, home, own) && i < |ms| && i !in home && m.used == 0 && Vacant(own, 16 * p, 16)
    ensures MasksOk(ms[i := m], home[i := p], own)
  {
    var ms', home' := ms[i := m], home[i := p];
    forall t | t in home' ensures t < |ms'| && MaskOk(ms'[t].used, home'[t], own) {
      if t != i {
        assert MaskOk(ms[t].used, home[t], own);
      } else {
        forall j: nat | j < 16 ensures Bit(0, j) <==> 16 * p + j in own { ZeroBits(j); }
      }
    }
  }

  lemma OpenSlab(ms: seq<SlabMeta>, count: nat, g: Ghost, i: nat, p: nat, m: SlabMeta)
    requires SlabsOk(ms, count, g.home, g.pages) && MasksOk(ms, g.home, g.own) && OwnOk(g.live, g.own) &&
             PagesOk(g.live, g.pages)
    requires i < |ms| && i < count && i !in g.home && p > 0 && p !in g.pages
    requires m.base == p * 0x1_0000 && m.used == 0 && m.nslots == 1
    ensures var ms', home', pages' := ms[i := m], g.home[i := p], g.pages[p := SlabPage(i)];
            && SlabsOk(ms', count, home', pages') && MasksOk(ms', home', g.own) && PagesOk(g.live, pages')
  {
    hide SlabsOk, MasksOk, OwnOk, PagesOk;
    UngrownVacant(g.live, g.own, g.pages, p, 1);
    FreshKeepsPages(g.live, g.pages, p, SlabPage(i));
    OpenTable(ms, count, g.home, g.pages, i, p, m);
    OpenMasks(ms, g.home, g.own, i, p, m);
  }

  lemma SmallNotEmpty(live: map<nat, Region>, own: map<nat, nat>, s: nat)
    requires OwnOk(live, own) && s in live
    ensures Slots(live[s].length) >= 1
  {
  }

  /** An empty slab's page holds no mapping, so it can be dropped. */
  lemma RetireKeepsPages(live: map<nat, Region>, own: map<nat, nat>, pages: map<nat, Kind>, p: nat)
    requires OwnOk(live, own) && PagesOk(live, pages) && p in pages && pages[p].SlabPage? && Vacant(own, 16 * p, 16)
    ensures PagesOk(live, pages[p := Retired])
  {
    hide OwnOk, Slots, Pages;
    forall s | s in live ensures Placed(s, live[s], pages[p := Retired]) {
      FirstSlot(live, own, s);
      assert Placed(s, live[s], pages);
      if Small(live[s].length) { SmallNotEmpty(live, own, s); }
    }
  }

  lemma CloseTable(ms: seq<SlabMeta>, count: nat, home: map<nat, nat>, pages: map<nat, Kind>, i: nat, m: SlabMeta)
    requires SlabsOk(ms, count, home, pages) && i in home && m.base == 0 && m.used == 0
    ensures SlabsOk(ms[i := m], count, home - {i}, pages[home[i] := Retired])
  {
    var home', pages' := home - {i}, pages[home[i] := Retired];
    forall t | t in home' ensures home'[t] in pages' && pages'[home'[t]] == SlabPage(t) {
      assert pages[home[t]] == SlabPage(t) && pages[home[i]] == SlabPage(i);
    }
  }

  lemma CloseSlab(ms: seq<SlabMeta>, count: nat, g: Ghost, i: nat, m: SlabMeta)
    requires SlabsOk(ms, count, g.home, g.pages) && MasksOk(ms, g.home, g.own) && OwnOk(g.live, g.own) &&
             PagesOk(g.live, g.pages)
    requires i in g.home && ms[i].used == 0 && m.base == 0 && m.used == 0
    ensures var ms', home', pages' := ms[i := m], g.home - {i}, g.pages[g.home[i] := Retired];
            && SlabsOk(ms', count, home', pages') && MasksOk(ms', home', g.own) && PagesOk(g.live, pages')
  {
    SlabFacts(ms, count, g.home, g.pages, g.own, i);
    CloseTable(ms, count, g.home, g.pages, i, m);
    hide SlabsOk, OwnOk, PagesOk;
    var p := g.home[i];
    forall k: nat | 16 * p <= k < 16 * p + 16 ensures k !in g.own {
      ZeroBits(k - 16 * p);
      assert Bit(0, k - 16 * p) <==> 16 * p + (k - 16 * p) in g.own;
    }
    RetireKeepsPages(g.live, g.own, g.pages, p);
    hide MaskOk;
  }

  // ----- big mappings -----

  lemma UnmappedVacant(live: map<nat, Region>, own: map<nat, nat>, pages: map<nat, Kind>, p: nat, n: nat)
    requires OwnOk(live, own) && PagesOk(live, pages)
    requires forall q: nat :: p <= q < p + n ==> q !in pages || pages[q].FreePage?
    ensures Vacant(own, 16 * p, 16 * n)
  {
    forall k: nat | 16 * p <= k < 16 * p + 16 * n ensures k !in own {
      if k in own { SlotPage(live, pages, own[k], k); }
    }
  }

  /** A big mapping takes over pages that hold no mapping: fresh ones, or those of a freed block. */
  lemma PlaceBig(live: map<nat, Region>, own: map<nat, nat>, pages: map<nat, Kind>, p: nat, length: nat)
    requires OwnOk(live, own) && PagesOk(live, pages) && length >= 1 && !Small(length)
    requires forall q: nat :: p <= q < p + Pages(Slots(length)) ==> q !in pages || pages[q].FreePage?
    ensures var n, r := Pages(Slots(length)), Region(length, p);
            && 16 * p !in live
            && OwnOk(live[16 * p := r], Claim(own, 16 * p, 16 * n))
            && PagesOk(live[16 * p := r], Mark(pages, p, n, BigPage(p)))
  {
    hide OwnOk, PagesOk, Slots, Pages;
    var n, r := Pages(Slots(length)), Region(length, p);
    UnmappedVacant(live, own, pages, p, n);
    ClaimOk(live, own, 16 * p, r);
    MarkBig(live, pages, p, r);
  }

  lemma MarkBig(live: map<nat, Region>, pages: map<nat, Kind>, p: nat, r: Region)
    requires PagesOk(live, pages) && 16 * p !in live && !Small(r.length) && r.page == p
    requires forall q: nat :: p <= q < p + Pages(Slots(r.length)) ==> q !in pages || pages[q].FreePage?
    ensures PagesOk(live[16 * p := r], Mark(pages, p, Pages(Slots(r.length)), BigPage(p)))
  {
    hide Slots, Pages;
    var live', pages' := live[16 * p := r], Mark(pages, p, Pages(Slots(r.length)), BigPage(p));
    forall s | s in live' ensures Placed(s, live'[s], pages') {
      if s != 16 * p {
        assert Placed(s, live[s], pages);
        if !Small(live[s].length) {
          MarkedElsewhere(pages, live[s].page, Pages(Slots(live[s].length)), BigPage(live[s].page), p,
              Pages(Slots(r.length)), BigPage(p));
        }
      }
    }
  }

  lemma MarkFree(live: map<nat, Region>, pages: map<nat, Kind>, p: nat)
    requires PagesOk(live, pages) && 16 * p in live && !Small(live[16 * p].length)
    ensures var n := Pages(Slots(live[16 * p].length));
            PagesOk(live - {16 * p}, Mark(pages, p, n, FreePage(p))) && Marked(pages, p, n, BigPage(p))
  {
    hide Slots, Pages;
    var n := Pages(Slots(live[16 * p].length));
    assert Placed(16 * p, live[16 * p], pages);
    var live', pages' := live - {16 * p}, Mark(pages, p, n, FreePage(p));
    forall s | s in live' ensures Placed(s, live'[s], pages') {
      assert Placed(s, live[s], pages);
      if !Small(live[s].length) {
        MarkedElsewhere(pages, live[s].page, Pages(Slots(live[s].length)), BigPage(live[s].page), p, n, FreePage(p));
      }
    }
  }

  /** Re-marking pages leaves ranges of another kind alone. */
  lemma MarkedElsewhere(pages: map<nat, Kind>, a: nat, m: nat, kind: Kind, p: nat, n: nat, now: Kind)
    requires Marked(pages, a, m, kind) && forall q: nat :: p <= q < p + n ==> q !in pages || pages[q] != kind
    ensures Marked(Mark(pages, p, n, now), a, m, kind)
  {
    forall q: nat | a <= q < a + m ensures q in Mark(pages, p, n, now) && Mark(pages, p, n, now)[q] == kind {
      assert q in pages && pages[q] == kind;
    }
  }

  /** A freed big mapping gives its slots back; its pages become a free block. */
  lemma DropBig(live: map<nat, Region>, own: map<nat, nat>, pages: map<nat, Kind>, p: nat)
    requires OwnOk(live, own) && PagesOk(live, pages) && 16 * p in live && !Small(live[16 * p].length)
    ensures var n := Pages(Slots(live[16 * p].length));
            && OwnOk(live - {16 * p}, Release(own, 16 * p, 16 * n))
            && PagesOk(live - {16 * p}, Mark(pages, p, n, FreePage(p)))
            && Marked(pages, p, n, BigPage(p))
  {
    hide OwnOk, PagesOk, Slots, Pages;
    ReleaseOk(live, own, 16 * p);
    MarkFree(live, pages, p);
  }

  /** Marking pages that are neither slab nor free leaves slabs alone. */
  lemma MarkKeepsSlabs(ms: seq<SlabMeta>, count: nat, home: map<nat, nat>, pages: map<nat, Kind>, p: nat, n: nat,
                       kind: Kind)
    requires SlabsOk(ms, count, home, pages) && !kind.SlabPage?
    requires forall q: nat :: p <= q < p + n ==> q !in pages || !pages[q].SlabPage?
    ensures SlabsOk(ms, count, home, Mark(pages, p, n, kind))
  {
    var pages' := Mark(pages, p, n, kind);
    forall i | i in home ensures home[i] in pages' && pages'[home[i]] == SlabPage(i) {
      assert pages[home[i]] == SlabPage(i);
    }
  }

  lemma MarkKeepsFree(flist: seq<nat>, head: nat, heap: map<nat, BigFree>, pages: map<nat, Kind>, p: nat, n: nat,
                      kind: Kind)
    requires FreeOk(flist, head, heap, pages) && !kind.FreePage?
    requires forall q: nat :: p <= q < p + n ==> q !in pages || !pages[q].FreePage?
    ensures FreeOk(flist, head, heap, Mark(pages, p, n, kind))
  {
    var pages' := Mark(pages, p, n, kind);
    forall k | 0 <= k < |flist| ensures BlockOk(flist[k], heap, pages') {
      var b: nat := flist[k];
      assert BlockOk(b, heap, pages);
      forall q: nat | b <= q < b + heap[b].npages ensures q in pages' && pages'[q] == FreePage(b) {
        assert q in pages && pages[q] == FreePage(b);
      }
    }
  }

  /** A new block goes to the front of the list; its header is written into the block itself. */
  lemma PushBlock(flist: seq<nat>, head: nat, heap: map<nat, BigFree>, pages: map<nat, Kind>, p: nat, n: nat)
    requires FreeOk(flist, head, heap, pages) && p > 0 && n >= 1
    requires forall q: nat :: p <= q < p + n ==> q in pages && !pages[q].FreePage?
    ensures FreeOk([p] + flist, p, heap[p := BigFree(p, n, head)], Mark(pages, p, n, FreePage(p)))
  {
    hide BlockOk, Mark, After;
    var f', pages' := [p] + flist, Mark(pages, p, n, FreePage(p));
    var heap' := heap[p := BigFree(p, n, head)];
    forall k | 0 <= k < |flist| ensures flist[k] != p && flist[k] in heap && BlockOk(flist[k], heap', pages') {
      BlockMarked(flist[k], heap, pages);
      RemarkedBlock(flist[k], heap, heap', pages, p, n, FreePage(p));
    }
    NewBlock(heap, pages, p, n, head);
    forall k | 0 <= k < |f'|
      ensures f'[k] in heap' && BlockOk(f'[k], heap', pages') && heap'[f'[k]].next == After(f', k)
    {
      PushAfter(flist, p, k);
      if k > 0 { assert f'[k] == flist[k - 1]; }
    }
    PushAfter(flist, p, -1);
    PushPages(flist, heap, pages, p, n, head);
  }

  lemma NewBlock(heap: map<nat, BigFree>, pages: map<nat, Kind>, p: nat, n: nat, head: nat)
    requires p > 0 && n >= 1
    ensures BlockOk(p, heap[p := BigFree(p, n, head)], Mark(pages, p, n, FreePage(p)))
  {
  }

  lemma PushAfter(flist: seq<nat>, p: nat, k: int)
    requires -1 <= k <= |flist|
    ensures After([p] + flist, k) == if k == -1 then p else After(flist, k - 1)
  {
  }

  lemma PushPages(flist: seq<nat>, heap: map<nat, BigFree>, pages: map<nat, Kind>, p: nat, n: nat, head: nat)
    requires forall q :: q in pages && pages[q].FreePage? ==>
               var b := pages[q].first; b in flist && b in heap && b <= q < b + heap[b].npages
    requires forall q: nat :: p <= q < p + n ==> q in pages && !pages[q].FreePage?
    requires forall k :: 0 <= k < |flist| ==> flist[k] != p
    ensures var pages', heap' := Mark(pages, p, n, FreePage(p)), heap[p := BigFree(p, n, head)];
            forall q :: q in pages' && pages'[q].FreePage? ==>
              var b := pages'[q].first; b in [p] + flist && b in heap' && b <= q < b + heap'[b].npages
  {
  }

  lemma RemarkedBlock(b: nat, heap: map<nat, BigFree>, heap': map<nat, BigFree>, pages: map<nat, Kind>, p: nat, n: nat,
                      kind: Kind)
    requires BlockOk(b, heap, pages) && b != p
    requires forall q: nat :: p <= q < p + n ==> q !in pages || pages[q] != FreePage(b)
    requires b in heap' && heap'[b].base == heap[b].base
    requires heap'[b].npages == heap[b].npages
    ensures BlockOk(b, heap', Mark(pages, p, n, kind))
  {
    var pages' := Mark(pages, p, n, kind);
    forall q: nat | b <= q < b + heap[b].npages ensures q in pages' && pages'[q] == FreePage(b) {
      assert q in pages && pages[q] == FreePage(b);
    }
  }

  lemma BlockHeads(flist: seq<nat>, head: nat, heap: map<nat, BigFree>, pages: map<nat, Kind>, k: nat,
                   heap': map<nat, BigFree>)
    requires FreeOk(flist, head, heap, pages) && k < |flist|
    requires k == 0 ==> heap' == heap
    requires k > 0 ==> heap' == heap[flist[k - 1] := heap[flist[k - 1]].(next := After(flist, k))]
    ensures flist[k] in heap && heap'.Keys == heap.Keys && forall a :: a in heap ==> heap'[a].npages == heap[a].npages
    ensures Distinct(flist[..k] + flist[k + 1..])
  {
    assert BlockOk(flist[k], heap, pages);
    if k > 0 { assert BlockOk(flist[k - 1], heap, pages); }
  }

  /** Unlinking position k: the header before it, or the head, is redirected past it. */
  lemma PopBlock(flist: seq<nat>, head: nat, heap: map<nat, BigFree>, pages: map<nat, Kind>, k: nat, head': nat,
                 heap': map<nat, BigFree>)
    requires FreeOk(flist, head, heap, pages) && k < |flist|
    requires k == 0 ==> head' == After(flist, 0) && heap' == heap
    requires k > 0 ==> head' == head && heap' == heap[flist[k - 1] := heap[flist[k - 1]].(next := After(flist, k))]
    ensures var p := flist[k];
            FreeOk(flist[..k] + flist[k + 1..], head', heap', Mark(pages, p, heap[p].npages, BigPage(p)))
  {
    hide BlockOk, Mark, After;
    BlockHeads(flist, head, heap, pages, k, heap');
    PopLinks(flist, head, heap, pages, k, head', heap');
    PopPages(flist, head, heap, pages, k, heap');
  }

  lemma PopLinks(flist: seq<nat>, head: nat, heap: map<nat, BigFree>, pages: map<nat, Kind>, k: nat, head': nat,
                 heap': map<nat, BigFree>)
    requires FreeOk(flist, head, heap, pages) && k < |flist|
    requires k == 0 ==> head' == After(flist, 0) && heap' == heap
    requires k > 0 ==> head' == head && heap' == heap[flist[k - 1] := heap[flist[k - 1]].(next := After(flist, k))]
    ensures var p, f' := flist[k], flist[..k] + flist[k + 1..];
            var pages' := Mark(pages, p, heap[p].npages, BigPage(p));
            && head' == After(f', -1)
            && forall t :: 0 <= t < |f'| ==> BlockOk(f'[t], heap', pages') && heap'[f'[t]].next == After(f', t)
  {
    var p: nat, f' := flist[k], flist[..k] + flist[k + 1..];
    var n := heap[p].npages;
    var pages' := Mark(pages, p, n, BigPage(p));
    assert Marked(pages, p, n, FreePage(p)) by { assert BlockOk(p, heap, pages); }
    hide BlockOk, Mark, After;
    forall t | 0 <= t < |f'| ensures BlockOk(f'[t], heap', pages') && heap'[f'[t]].next == After(f', t) {
      PopEntry(flist, head, heap, pages, k, heap', t);
    }
    PopAfter(flist, k, -1);
  }

  lemma PopEntry(flist: seq<nat>, head: nat, heap: map<nat, BigFree>, pages: map<nat, Kind>, k: nat,
                 heap': map<nat, BigFree>, t: nat)
    requires FreeOk(flist, head, heap, pages) && k < |flist| && t < |flist| - 1
    requires k == 0 ==> heap' == heap
    requires k > 0 ==> heap' == heap[flist[k - 1] := heap[flist[k - 1]].(next := After(flist, k))]
    ensures var p, f' := flist[k], flist[..k] + flist[k + 1..];
            BlockOk(f'[t], heap', Mark(pages, p, heap[p].npages, BigPage(p))) && heap'[f'[t]].next == After(f', t)
  {
    hide FreeOk, BlockOk, After, Mark;
    var t0 := if t < k then t else t + 1;
    var p: nat, b: nat := flist[k], flist[t0];
    ListEntry(flist, head, heap, pages, k, t0);
    ListEntry(flist, head, heap, pages, t0, if k > 0 then k - 1 else k);
    PopAfter(flist, k, t);
    assert (flist[..k] + flist[k + 1..])[t] == b;
    BlockMarked(p, heap, pages);
    RemarkedBlock(b, heap, heap', pages, p, heap[p].npages, BigPage(p));
  }

  lemma BlockMarked(p: nat, heap: map<nat, BigFree>, pages: map<nat, Kind>)
    requires BlockOk(p, heap, pages)
    ensures p > 0 && p in heap && heap[p].npages >= 1 && Marked(pages, p, heap[p].npages, FreePage(p))
    ensures p in pages && pages[p] == FreePage(p)
  {
  }

  /** A member of the list, and how it differs from any other member. */
  lemma ListEntry(flist: seq<nat>, head: nat, heap: map<nat, BigFree>, pages: map<nat, Kind>, k: nat, t: nat)
    requires FreeOk(flist, head, heap, pages) && k < |flist| && t < |flist|
    ensures flist[k] in heap && BlockOk(flist[k], heap, pages) && heap[flist[k]].next == After(flist, k)
    ensures flist[t] in heap && BlockOk(flist[t], heap, pages)
    ensures k != t ==> flist[k] != flist[t]
  {
  }

  /** Successors in the list without position k. */
  lemma PopAfter(flist: seq<nat>, k: nat, t: int)
    requires k < |flist| && -1 <= t < |flist| - 1
    ensures After(flist[..k] + flist[k + 1..], t) ==
            if t < k - 1 then After(flist, t) else if t == k - 1 then After(flist, k) else After(flist, t + 1)
  {
  }

  lemma StillListed(flist: seq<nat>, k: nat, b: nat)
    requires k < |flist| && b in flist && b != flist[k]
    ensures b in flist[..k] + flist[k + 1..]
  {
    var t :| 0 <= t < |flist| && flist[t] == b;
    assert (flist[..k] + flist[k + 1..])[if t < k then t else t - 1] == b;
  }

  lemma PopPages(flist: seq<nat>, head: nat, heap: map<nat, BigFree>, pages: map<nat, Kind>, k: nat,
                 heap': map<nat, BigFree>)
    requires FreeOk(flist, head, heap, pages) && k < |flist|
    requires heap'.Keys == heap.Keys && forall a :: a in heap ==> heap'[a].npages == heap[a].npages
    ensures var p, f' := flist[k], flist[..k] + flist[k + 1..];
            var pages' := Mark(pages, p, heap[p].npages, BigPage(p));
            forall q :: q in pages' && pages'[q].FreePage? ==>
              var b := pages'[q].first; b in f' && b in heap' && b <= q < b + heap'[b].npages
  {
    var p: nat, f' := flist[k], flist[..k] + flist[k + 1..];
    var n := heap[p].npages;
    var pages' := Mark(pages, p, n, BigPage(p));
    hide BlockOk;
    forall q | q in pages' && pages'[q].FreePage?
      ensures var b := pages'[q].first; b in f' && b in heap' && b <= q < b + heap'[b].npages
    {
      var b: nat := pages[q].first;
      assert b in flist && b in heap && b <= q < b + heap[b].npages;
      assert b != p;
      StillListed(flist, k, b);
    }
  }
}
