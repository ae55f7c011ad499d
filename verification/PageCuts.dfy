/**
 Single pages taken out of the free list, wherever they are in it (K2HShm::CutOffPage), and the
 pages of an area that is cut off the file.
 */
module PageCuts {
  import opened Layout
  import opened AreaLayout
  import opened PageStore
  import opened PageWrites

  /** A list without its page k. */
  function Without(list: seq<Ptr>, k: nat): seq<Ptr>
    requires k < |list|
  {
    list[..k] + list[k + 1..]
  }

  /** The heads after page k of a list is unlinked: its neighbours name each other, and it names no one. */
  function CutOne(h: Heads, p: Ptr): Heads
    requires p in h && (h[p].prev != NULL ==> h[p].prev in h) && (h[p].next != NULL ==> h[p].next in h)
  {
    var h1 := if h[p].prev != NULL then h[h[p].prev := h[h[p].prev].(next := h[p].next)] else h;
    var h2 := if h[p].next != NULL then h1[h[p].next := h1[h[p].next].(prev := h[p].prev)] else h1;
    h2[p := h2[p].(prev := NULL, next := NULL)]
  }

  lemma NeighboursIn(h: Heads, list: seq<Ptr>, k: nat)
    requires PageList(h, list) && k < |list|
    ensures list[k] in h && list[k] != NULL
    ensures
      && h[list[k]].prev == (if k == 0 then NULL else list[k - 1])
      && h[list[k]].next == (if k + 1 < |list| then list[k + 1] else NULL)
    ensures k > 0 ==> list[k - 1] in h && list[k - 1] != NULL && list[k - 1] != list[k]
    ensures k + 1 < |list| ==> list[k + 1] in h && list[k + 1] != NULL && list[k + 1] != list[k]
  {
    assert PageAt(h, list, k, NULL) && list[k] in list;
    assert k > 0 ==> PageAt(h, list, k - 1, NULL) && list[k - 1] in list;
    assert k + 1 < |list| ==> PageAt(h, list, k + 1, NULL) && list[k + 1] in list;
  }

  lemma CutOneHeads(h: Heads, list: seq<Ptr>, k: nat)
    requires PageList(h, list) && k < |list|
    ensures
      var p := list[k];
      && p in h && (h[p].prev != NULL ==> h[p].prev in h) && (h[p].next != NULL ==> h[p].next in h)
      && (forall q :: q in CutOne(h, p) <==> q in h)
      && (forall q | q in h :: CutOne(h, p)[q].length == h[q].length)
      && (forall q | q in h && q !in list :: CutOne(h, p)[q] == h[q])
  {
    NeighboursIn(h, list, k);
    assert k > 0 ==> list[k - 1] in list;
    assert k + 1 < |list| ==> list[k + 1] in list;
  }

  /** What stays is a list, and so is the page alone. */
  lemma CutOneLists(h: Heads, list: seq<Ptr>, k: nat)
    requires PageList(h, list) && k < |list|
    ensures
      && list[k] in h && (h[list[k]].prev != NULL ==> h[list[k]].prev in h)
      && (h[list[k]].next != NULL ==> h[list[k]].next in h)
    ensures PageList(CutOne(h, list[k]), Without(list, k)) && PageList(CutOne(h, list[k]), [list[k]])
  {
    NeighboursIn(h, list, k);
    var h', l := CutOne(h, list[k]), Without(list, k);
    assert PageAt(h', [list[k]], 0, NULL);
    forall i | 0 <= i < |l|
      ensures PageAt(h', l, i, NULL) && l[i] in list
    {
      CutOneAt(h, list, k, i);
    }
  }

  lemma CutOneAt(h: Heads, list: seq<Ptr>, k: nat, i: nat)
    requires PageList(h, list) && k < |list| && i + 1 < |list|
    ensures
      && list[k] in h && (h[list[k]].prev != NULL ==> h[list[k]].prev in h)
      && (h[list[k]].next != NULL ==> h[list[k]].next in h)
    ensures PageAt(CutOne(h, list[k]), Without(list, k), i, NULL) && Without(list, k)[i] in list
  {
    NeighboursIn(h, list, k);
    var l, j := Without(list, k), if i < k then i else i + 1;
    NeighboursIn(h, list, j);
    assert
      && l[i] == list[j] && (i > 0 ==> l[i - 1] == list[if i - 1 < k then i - 1 else i])
      && (i + 1 < |l| ==> l[i + 1] == list[if i + 1 < k then i + 1 else i + 2]);
  }

  lemma WithoutMembers(list: seq<Ptr>, k: nat)
    requires Distinct(list) && k < |list|
    ensures forall p :: p in list <==> p == list[k] || p in Without(list, k)
    ensures list[k] !in Without(list, k)
  {
    assert list == list[..k] + [list[k]] + list[k + 1..];
  }

  /** A page of the free list becomes a chain of its own that stores nothing. */
  lemma PagedCut(h: Heads, d: Buffers, free: seq<Ptr>, chains: Chains, owner: Owners, top: Ptr, cap: nat,
                 used: seq<Area>, k: nat)
    requires Paged(h, d, free, chains, owner, top, cap, used) && k < |free|
    ensures
      var p := free[k];
      && p in h && p != NULL && p !in chains && p !in owner
      && (h[p].prev != NULL ==> h[p].prev in h) && (h[p].next != NULL ==> h[p].next in h)
      && Paged(CutOne(h, p), d, Without(free, k), chains[p := [p]], owner[p := p],
           if h[p].prev == NULL then h[p].next else top, cap, used)
  {
    var p := free[k];
    PagedIs(h, d, free, chains, owner, top, cap, used);
    NeighboursIn(h, free, k);
    CutOneHeads(h, free, k);
    CutOneLists(h, free, k);
    WithoutMembers(free, k);
    var h', owner' := CutOne(h, p), owner[p := p];
    HeadsUnused(h, owner, chains, p);
    assert Chained(h', owner', p, [p]);
    ChainAdded(h, owner, chains, h', owner', p, [p]);
    assert Shared(h', d, Without(free, k), owner', cap);
    PagedIs(h', d, Without(free, k), chains[p := [p]], owner', if h[p].prev == NULL then h[p].next else top, cap, used);
  }

  lemma TextsCut(h: Heads, d: Buffers, free: seq<Ptr>, chains: Chains, owner: Owners, top: Ptr, cap: nat,
                 used: seq<Area>, k: nat, store: map<Ptr, Bytes>)
    requires Paged(h, d, free, chains, owner, top, cap, used) && k < |free| && Texts(store, h, d, chains)
    requires
      && free[k] in h && (h[free[k]].prev != NULL ==> h[free[k]].prev in h)
      && (h[free[k]].next != NULL ==> h[free[k]].next in h)
    ensures Texts(store[free[k] := []], CutOne(h, free[k]), d, chains[free[k] := [free[k]]])
  {
    var p, h' := free[k], CutOne(h, free[k]);
    PagedIs(h, d, free, chains, owner, top, cap, used);
    CutOneHeads(h, free, k);
    StoreUpdated(h, d, h', d, owner, chains, p, [p]);
    ContentsEmpty(h', d, [p]);
    TextsAre(store, h, d, chains);
    TextsAre(store[p := []], h', d, chains[p := [p]]);
  }

  lemma HeadsUnused(h: Heads, owner: Owners, chains: Chains, p: Ptr)
    requires AllChained(h, owner, chains) && p !in owner
    ensures p !in chains && forall q | q in owner :: owner[q] != p
  {
    forall q | q in owner
      ensures owner[q] != p
    {
      OwnerChained(h, owner, chains, q);
    }
    if p in chains {
      HeadOwned(h, owner, chains, p);
      assert false;
    }
  }

  /** A chain of one page is given up together with its page. */
  lemma PagedDropped(h: Heads, d: Buffers, free: seq<Ptr>, chains: Chains, owner: Owners, top: Ptr, cap: nat,
                     used: seq<Area>, p: Ptr)
    requires Paged(h, d, free, chains, owner, top, cap, used) && p in chains && chains[p] == [p]
    ensures Paged(h - {p}, d - {p}, free, chains - {p}, owner - {p}, top, cap, used)
  {
    PagedIs(h, d, free, chains, owner, top, cap, used);
    ChainedApart(h, owner, chains, p, p);
    var h', d', owner' := h - {p}, d - {p}, owner - {p};
    forall q | q in owner
      ensures owner[q] == p <==> q == p
    {
      ChainedApart(h, owner, chains, p, q);
    }
    assert p !in free;
    assert PageList(h', free) by {
      FreeIn(h, free);
      PageListFrame(h, h', free);
    }
    ChainRemoved(h, owner, chains, h', owner', p);
    assert Shared(h', d', free, owner', cap);
    PagedIs(h', d', free, chains - {p}, owner', top, cap, used);
  }

  lemma TextsDropped(h: Heads, d: Buffers, free: seq<Ptr>, chains: Chains, owner: Owners, top: Ptr, cap: nat,
                     used: seq<Area>, p: Ptr, store: map<Ptr, Bytes>)
    requires
      && Paged(h, d, free, chains, owner, top, cap, used) && p in chains && chains[p] == [p]
      && Texts(store, h, d, chains)
    ensures Texts(store - {p}, h - {p}, d - {p}, chains - {p})
  {
    PagedIs(h, d, free, chains, owner, top, cap, used);
    ChainedApart(h, owner, chains, p, p);
    forall q | q in owner
      ensures owner[q] == p <==> q == p
    {
      ChainedApart(h, owner, chains, p, q);
    }
    StoreReduced(h, d, h - {p}, d - {p}, owner, chains, p);
    TextsAre(store, h, d, chains);
    TextsAre(store - {p}, h - {p}, d - {p}, chains - {p});
  }

  lemma FreeIn(h: Heads, free: seq<Ptr>)
    requires PageList(h, free)
    ensures forall p | p in free :: p in h
  {
    forall p | p in free
      ensures p in h
    {
      var i :| 0 <= i < |free| && free[i] == p;
      assert PageAt(h, free, i, NULL);
    }
  }

  // ---------------------------------------------------------------- the pages of an area

  /** The page lies in the area. */
  predicate Within(p: Ptr, offset: nat, length: nat)
  {
    offset <= p < offset + length
  }

  /** The pages at or behind the start of an area are some of its slots, and no other page reaches over it. */
  ghost predicate LastArea(pages: set<Ptr>, cap: nat, offset: nat, slots: nat)
  {
    forall p | p in pages :: p in Pages(offset, slots, PageSize(cap)) || p + PageSize(cap) <= offset
  }

  /** How many of a list's pages lie in the area. */
  function CountWithin(list: seq<Ptr>, offset: nat, length: nat): nat
  {
    if list == [] then 0
    else (if Within(list[0], offset, length) then 1 else 0) + CountWithin(list[1..], offset, length)
  }

  /** How many of them lie outside it. */
  function CountOutside(list: seq<Ptr>, offset: nat, length: nat): nat
  {
    if list == [] then 0
    else (if Within(list[0], offset, length) then 0 else 1) + CountOutside(list[1..], offset, length)
  }

  /** A page that is taken out of a list. */
  lemma {:induction false} OutsideWithout(list: seq<Ptr>, k: nat, offset: nat, length: nat)
    requires k < |list|
    ensures CountOutside(list, offset, length) ==
      CountOutside(Without(list, k), offset, length) + if Within(list[k], offset, length) then 0 else 1
    decreases |list|
  {
    if k == 0 {
      assert Without(list, 0) == list[1..];
    } else {
      OutsideWithout(list[1..], k - 1, offset, length);
      assert Without(list, k) == [list[0]] + Without(list[1..], k - 1);
    }
  }

  lemma {:induction false} NoneOutside(list: seq<Ptr>, offset: nat, length: nat)
    requires forall p | p in list :: Within(p, offset, length)
    ensures CountOutside(list, offset, length) == 0
  {
    if list != [] {
      assert list[0] in list;
      NoneOutside(list[1..], offset, length);
    }
  }

  lemma {:induction false} OutsideAppend(a: seq<Ptr>, b: seq<Ptr>, offset: nat, length: nat)
    ensures CountOutside(a + b, offset, length) == CountOutside(a, offset, length) + CountOutside(b, offset, length)
    decreases |a|
  {
    if a == [] {
      assert a + b == b;
    } else {
      assert (a + b)[1..] == a[1..] + b;
      OutsideAppend(a[1..], b, offset, length);
    }
  }

  /** All pages of a list outside the area. */
  lemma {:induction false} AllOutside(list: seq<Ptr>, offset: nat, length: nat)
    requires forall p | p in list :: !Within(p, offset, length)
    ensures CountOutside(list, offset, length) == |list|
  {
    if list != [] {
      assert list[0] in list;
      AllOutside(list[1..], offset, length);
    }
  }

  ghost function PagesWithin(list: seq<Ptr>, offset: nat, length: nat): set<Ptr>
  {
    set p | p in list && Within(p, offset, length)
  }

  lemma {:induction false} CountIsSize(list: seq<Ptr>, offset: nat, length: nat)
    requires Distinct(list)
    ensures CountWithin(list, offset, length) == |PagesWithin(list, offset, length)|
  {
    if list != [] {
      var rest, s := list[1..], PagesWithin(list[1..], offset, length);
      assert forall i | 0 <= i < |rest| :: rest[i] == list[i + 1];
      CountIsSize(rest, offset, length);
      assert list[0] !in rest;
      assert PagesWithin(list, offset, length) == if Within(list[0], offset, length) then s + {list[0]} else s by {
        assert forall p :: p in list <==> p == list[0] || p in rest;
      }
    }
  }

  ghost function PageSet(list: seq<Ptr>): set<Ptr>
  {
    set p | p in list
  }

  lemma {:induction false} DistinctSize(list: seq<Ptr>)
    requires Distinct(list)
    ensures |PageSet(list)| == |list|
  {
    if list != [] {
      var rest := list[1..];
      assert forall i | 0 <= i < |rest| :: rest[i] == list[i + 1];
      DistinctSize(rest);
      assert PageSet(list) == PageSet(rest) + {list[0]} && list[0] !in PageSet(rest) by {
        assert forall p :: p in list <==> p == list[0] || p in rest;
      }
    }
  }

  lemma SubsetOfSameSize(a: set<Ptr>, b: set<Ptr>)
    requires a <= b && |a| == |b|
    ensures a == b
  {
    var c := b - a;
    assert b == a + c && a !! c;
    assert |b| == |a| + |c|;
  }

  lemma SubsetSmaller(a: set<Ptr>, b: set<Ptr>)
    requires a <= b
    ensures |a| <= |b|
  {
    var c := b - a;
    assert b == a + c && a !! c;
  }

  /**
   Counting proves it: as many different free pages in the last area as it has slots are all its pages, so
   none of them is in a chain.
   */
  lemma AllSlotsFree(pages: set<Ptr>, free: seq<Ptr>, cap: nat, offset: nat, length: nat, slots: nat)
    requires Distinct(free) && (forall p | p in free :: p in pages) && LastArea(pages, cap, offset, slots)
    requires 0 < offset && slots <= CountWithin(free, offset, length)
    ensures forall p | p in pages && offset < p + PageSize(cap) :: p in free && Within(p, offset, length)
    ensures CountWithin(free, offset, length) == slots
  {
    var all := PageSet(Pages(offset, slots, PageSize(cap)));
    PagesDistinct(offset, slots, PageSize(cap));
    DistinctSize(Pages(offset, slots, PageSize(cap)));
    CountIsSize(free, offset, length);
    assert PagesWithin(free, offset, length) <= all;
    SubsetSmaller(PagesWithin(free, offset, length), all);
    SubsetOfSameSize(PagesWithin(free, offset, length), all);
    forall p | p in pages && offset < p + PageSize(cap)
      ensures p in free && Within(p, offset, length)
    {
      assert p in all;
    }
  }

  /** The last area may be given up when no page reaches behind its start. */
  lemma PagedShrunk(h: Heads, d: Buffers, free: seq<Ptr>, chains: Chains, owner: Owners, top: Ptr, cap: nat,
                    used: seq<Area>, n: nat)
    requires Paged(h, d, free, chains, owner, top, cap, used) && |used| == n + 1
    requires forall p | p in d :: p + PageSize(cap) <= used[n].fileOffset
    ensures Paged(h, d, free, chains, owner, top, cap, used[..n])
  {
    PagedIs(h, d, free, chains, owner, top, cap, used);
    forall p | p in h
      ensures PageIn(used[..n], p, PageSize(cap))
    {
      var i, m := PageArea(used, p, PageSize(cap));
      assert SlotIn(used[..n][i], m, PageSize(cap), p);
    }
    PagedIs(h, d, free, chains, owner, top, cap, used[..n]);
  }

  lemma RoomDivided(size: nat, n: nat)
    requires 0 < size
    ensures Room(size, n) / size == n
  {
    RoomIs(size, n);
    var x, d := size * n, n - (size * n) / size;
    assert x == size * (x / size) + x % size && size * d == x % size;
    assert d >= 1 ==> size * d >= size;
    assert d <= -1 ==> size * d <= -1 * size;
  }

  /** The pages that do not end before the last area are slots of it. */
  lemma LastAreaPages(h: Heads, d: Buffers, free: seq<Ptr>, chains: Chains, owner: Owners, top: Ptr, cap: nat,
                      used: seq<Area>, n: nat)
    requires Paged(h, d, free, chains, owner, top, cap, used) && |used| == n + 1 && EndBy(used[..n], used[n].fileOffset)
    ensures LastArea(d.Keys, cap, used[n].fileOffset, used[n].length / PageSize(cap))
  {
    PagedIs(h, d, free, chains, owner, top, cap, used);
    forall p | p in d
      ensures
        || p in Pages(used[n].fileOffset, used[n].length / PageSize(cap), PageSize(cap))
        || p + PageSize(cap) <= used[n].fileOffset
    {
      var i, m := PageArea(used, p, PageSize(cap));
      if i == n {
        RoomDivided(PageSize(cap), m);
      } else {
        assert used[..n][i] == used[i];
      }
    }
  }

  /** Free pages are pages and no page is free twice; what is in a chain is not free. */
  lemma FreePages(h: Heads, d: Buffers, free: seq<Ptr>, chains: Chains, owner: Owners, top: Ptr, cap: nat,
                  used: seq<Area>)
    requires Paged(h, d, free, chains, owner, top, cap, used)
    ensures Distinct(free) && (forall p | p in free :: p in d) && (forall p | p in owner :: p !in free && p in d)
  {
    PagedIs(h, d, free, chains, owner, top, cap, used);
  }

  /**
   In an area that is made of pages there are as many free pages as it has slots exactly when all its pages are free.
   */
  lemma AllFreeIff(d: Buffers, free: seq<Ptr>, cap: nat, used: seq<Area>, n: nat)
    requires AreasWhole(d, used, PageSize(cap)) && |used| == n + 1 && used[n].areaType == PAGE
    requires 0 < used[n].fileOffset && LastArea(d.Keys, cap, used[n].fileOffset, used[n].length / PageSize(cap))
    requires Distinct(free) && forall p | p in free :: p in d
    ensures used[n].length / PageSize(cap) <= CountWithin(free, used[n].fileOffset, used[n].length) <==>
      forall p | p in d && used[n].fileOffset <= p < used[n].fileOffset + used[n].length :: p in free
  {
    var a, slots := used[n], used[n].length / PageSize(cap);
    if slots <= CountWithin(free, a.fileOffset, a.length) {
      AllSlotsFree(d.Keys, free, cap, a.fileOffset, a.length, slots);
    }
    if forall p | p in d && a.fileOffset <= p < a.fileOffset + a.length :: p in free {
      SlotsCounted(d, free, cap, used, n, slots);
    }
  }

  lemma SlotsCounted(d: Buffers, free: seq<Ptr>, cap: nat, used: seq<Area>, n: nat, slots: nat)
    requires AreasWhole(d, used, PageSize(cap)) && n < |used| && used[n].areaType == PAGE && 0 < used[n].fileOffset
    requires slots == used[n].length / PageSize(cap) && Distinct(free)
    requires forall p | p in d && used[n].fileOffset <= p < used[n].fileOffset + used[n].length :: p in free
    ensures slots <= CountWithin(free, used[n].fileOffset, used[n].length)
  {
    var a, all := used[n], Pages(used[n].fileOffset, slots, PageSize(cap));
    PagesDistinct(a.fileOffset, slots, PageSize(cap));
    DistinctSize(all);
    CountIsSize(free, a.fileOffset, a.length);
    QuotientRoom(PageSize(cap), a.length);
    forall p | p in all
      ensures p in PagesWithin(free, a.fileOffset, a.length)
    {
      var k :| 0 <= k < |all| && all[k] == p;
      PageNumber(a.fileOffset, slots, PageSize(cap), k);
      if k + 1 < slots {
        MoreRoom(PageSize(cap), k + 1, slots);
      }
      assert Look(AREAS_WHOLE, 0) && HasSlot(a, k, PageSize(cap)) && SlotAt(a, k, PageSize(cap)) == p;
    }
    SubsetSmaller(PageSet(all), PagesWithin(free, a.fileOffset, a.length));
  }

  /** The areas before the last one stay made of pages when only pages of that one go. */
  lemma WholeShrunk(d: Buffers, d': Buffers, used: seq<Area>, n: nat, size: nat)
    requires AreasWhole(d, used, size) && |used| == n + 1 && EndBy(used[..n], used[n].fileOffset) && 0 < size
    requires forall p | p in d && !Within(p, used[n].fileOffset, used[n].length) :: p in d'
    ensures AreasWhole(d', used[..n], size)
  {
    assert Look(AREAS_WHOLE, 0);
    forall i, k: nat | 0 <= i < n && used[..n][i].areaType == PAGE && HasSlot(used[..n][i], k, size)
      ensures SlotAt(used[..n][i], k, size) in d'
    {
      assert used[..n][i] == used[i] && Room(size, k + 1) == size + Room(size, k);
    }
  }
}
