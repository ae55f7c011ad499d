/**
 Cutting the last area of pages off the file (K2HShm::AreaCompress and ReplacePageInElement): chains move out
 of it, and it goes only when all its pages turn out to be free.
 */
module AreaCompress {
  import opened Layout
  import opened AreaLayout
  import opened ElementTree
  import ElementStore
  import opened Forest
  import opened Records
  import opened ChainMoves
  import opened PageCuts
  import opened PageCompress
  import opened K2HShm
  import PageArena
  import PageStore

  /** The chain starts in the area. */
  predicate StartsIn(p: Ptr, offset: nat, areaLength: nat)
  {
    p != NULL && Within(p, offset, areaLength)
  }

  /** There are not enough free pages outside the area for so many bytes, or the counter does not promise enough. */
  predicate NoRoomFor(length: nat, cap: nat, freePageCount: nat, free: seq<Ptr>, offset: nat, areaLength: nat)
  {
    || PageStore.Room(cap, freePageCount) < length
    || PageStore.Room(cap, CountOutside(free, offset, areaLength)) < length
  }

  /** A chain of the ELEMENT starts in the area and has nowhere to go. */
  ghost predicate Stuck(body: Body, cap: nat, freePageCount: nat, free: seq<Ptr>, offset: nat, areaLength: nat)
  {
    exists t: PageType ::
      StartsIn(FieldOf(body, t), offset, areaLength)
      && NoRoomFor(LengthOf(body, t), cap, freePageCount, free, offset, areaLength)
  }

  /**
   Copies one byte string of an ELEMENT to a chain outside the area if its chain starts there; the old chain is freed.
   */
  method ReplacePageInElement(shm: Shm, e: Ptr, t: PageType, offset: nat, areaLength: nat) returns (ok: bool)
    requires shm.Valid() && e in shm.index.loc && e in shm.index.bodies
    modifies shm`slots, shm.index`bodies, shm.pages, shm.areas, shm.areas.table
    ensures
      && shm.Valid()
      && Meaning(shm.index.bodies, shm.pages.store, shm.names) ==
           old(Meaning(shm.index.bodies, shm.pages.store, shm.names))
      && shm.loose == old(shm.loose)
    ensures shm.pages.buffers.Keys == old(shm.pages.buffers.Keys) && shm.areas.View() == old(shm.areas.View())
    ensures e in shm.index.bodies && shm.index.bodies.Keys == old(shm.index.bodies.Keys)
    ensures ok ==> !StartsIn(FieldOf(shm.index.bodies[e], t), offset, areaLength)
    ensures !StartsIn(FieldOf(old(shm.index.bodies)[e], t), offset, areaLength) ==>
      ok && shm.index.bodies == old(shm.index.bodies) && shm.pages.free == old(shm.pages.free)
    ensures forall e1, t1: PageType | e1 in shm.index.bodies && (e1 != e || t1 != t) ::
      FieldOf(shm.index.bodies[e1], t1) == FieldOf(old(shm.index.bodies)[e1], t1)
    ensures !ok ==>
      Stuck(shm.index.bodies[e], shm.pages.capacity, shm.pages.freePageCount, shm.pages.free, offset, areaLength)
  {
    ghost var live := shm.index.loc.Keys;
    OwnsField(shm.index.bodies, live, shm.pages.store, shm.slots, shm.loose, e, t);
    LengthIs(shm.index.bodies, live, shm.pages.store, shm.slots, shm.loose, e, t);
    var q, length := FieldOf(shm.index.bodies[e], t), LengthOf(shm.index.bodies[e], t);
    if length == 0 || q == NULL || !Within(q, offset, areaLength) {
      return true;
    }
    var p := MoveChain(shm, e, t, q, length, offset, areaLength);
    return p != NULL;
  }

  /** The bytes are in a new chain p, and the old chain q is still there. */
  method CopyOut(shm: Shm, q: Ptr, length: nat, offset: nat, areaLength: nat) returns (p: Ptr)
    requires shm.Layers() && q in shm.pages.store && length == |shm.pages.store[q]| && 0 < length
    modifies shm.pages, shm.areas, shm.areas.table
    ensures
      && shm.Layers() && shm.pages.buffers.Keys == old(shm.pages.buffers.Keys)
      && shm.areas.View() == old(shm.areas.View())
    ensures q in old(shm.pages.store)
    ensures p == NULL ==> shm.pages.store == old(shm.pages.store)
    ensures p != NULL ==>
      && p !in old(shm.pages.store) && shm.pages.store == old(shm.pages.store)[p := old(shm.pages.store)[q]]
      && !Within(p, offset, areaLength)
    ensures p == NULL ==>
      NoRoomFor(length, shm.pages.capacity, shm.pages.freePageCount, shm.pages.free, offset, areaLength)
  {
    ghost var store := shm.pages.store;
    p := ReservePagesAvoiding(shm.pages, length, offset, areaLength);
    if p == NULL {
      return;
    }
    HeadAvoids(shm.pages, p, offset, areaLength);
    assert q in shm.pages.store;
    CopyPageData(shm.pages, q, p, shm.PageAreaCount());
    PutTwice(store, p, [], store[q]);
  }

  lemma HeadAvoids(arena: PageArena.Arena, p: Ptr, offset: nat, areaLength: nat)
    requires arena.Valid() && p in arena.chains && Avoids(arena.chains[p], offset, areaLength)
    ensures !Within(p, offset, areaLength)
  {
    PageStore.ChainedIn(arena.heads, arena.buffers, arena.free, arena.chains, arena.owner, arena.pfreePages,
      arena.capacity, arena.areas.used, p);
  }

  /** The chain q of a live ELEMENT gives way to a copy outside the area; without room nothing changes. */
  method MoveChain(shm: Shm, e: Ptr, t: PageType, q: Ptr, length: nat, offset: nat, areaLength: nat) returns (p: Ptr)
    requires shm.Valid() && e in shm.index.loc && e in shm.index.bodies && q == FieldOf(shm.index.bodies[e], t)
    requires q in shm.pages.store && length == |shm.pages.store[q]| == LengthOf(shm.index.bodies[e], t) && 0 < length
    modifies shm`slots, shm.index`bodies, shm.pages, shm.areas, shm.areas.table
    ensures
      && shm.Valid()
      && Meaning(shm.index.bodies, shm.pages.store, shm.names) ==
           old(Meaning(shm.index.bodies, shm.pages.store, shm.names))
      && shm.loose == old(shm.loose)
    ensures shm.pages.buffers.Keys == old(shm.pages.buffers.Keys) && shm.areas.View() == old(shm.areas.View())
    ensures p == NULL ==> shm.index.bodies == old(shm.index.bodies)
    ensures p != NULL ==>
      && !Within(p, offset, areaLength)
      && shm.index.bodies == old(shm.index.bodies)[e := WithField(old(shm.index.bodies)[e], t, p, length)]
    ensures p == NULL ==>
      NoRoomFor(length, shm.pages.capacity, shm.pages.freePageCount, shm.pages.free, offset, areaLength)
  {
    ghost var store := shm.pages.store;
    p := CopyOut(shm, q, length, offset, areaLength);
    if p != NULL {
      SwapChain(shm, e, t, q, p, length, store);
    }
  }

  /** Names the copy p of chain q in its place and frees q. */
  method SwapChain(shm: Shm, e: Ptr, t: PageType, q: Ptr, p: Ptr, length: nat, ghost store: Store)
    requires shm.Layers() && shm.index.held == {} && e in shm.index.loc && e in shm.index.bodies
    requires
      && q == FieldOf(shm.index.bodies[e], t) && q in store && p != NULL && p !in store
      && length == LengthOf(shm.index.bodies[e], t)
    requires shm.pages.store == store[p := store[q]]
    requires Owns(shm.index.bodies, shm.index.loc.Keys, store, shm.slots, shm.loose)
    requires Keyed(shm.index.bodies, shm.index.loc.Keys, store, shm.names, shm.hashOf, shm.subhashOf)
    modifies shm`slots, shm.index`bodies, shm.pages`heads, shm.pages`pfreePages, shm.pages`freePageCount, shm.pages`free
    modifies shm.pages`chains, shm.pages`owner, shm.pages`store
    ensures
      && shm.Valid()
      && Meaning(shm.index.bodies, shm.pages.store, shm.names) == Meaning(old(shm.index.bodies), store, shm.names)
    ensures shm.pages.buffers == old(shm.pages.buffers) && shm.areas.View() == old(shm.areas.View())
    ensures shm.index.bodies == old(shm.index.bodies)[e := WithField(old(shm.index.bodies)[e], t, p, length)]
  {
    ghost var live, b := shm.index.loc.Keys, shm.index.bodies;
    OwnsMoved(b, live, store, shm.slots, shm.loose, e, t, p);
    KeyedMoved(b, live, store, shm.slots, shm.loose, e, t, p, shm.names, shm.hashOf, shm.subhashOf);
    ghost var b', store' := b[e := WithField(b[e], t, p, length)], MovedStore(store, q, p);
    ghost var slots' := shm.slots - Fields(b[e]) + SlotsOf(e, b'[e]);
    shm.index.WriteBody(e, WithField(shm.index.bodies[e], t, p, length));
    assert q in shm.pages.store && unchanged(shm) && unchanged(shm.index`loc);
    shm.pages.Free(q);
    assert shm.index.bodies == b' && shm.pages.store == store';
    shm.Settle(slots');
  }

  /** Two byte strings of an ELEMENT, one after the other. */
  method ReplaceTwo(shm: Shm, e: Ptr, t1: PageType, t2: PageType, offset: nat, areaLength: nat) returns (ok: bool)
    requires shm.Valid() && e in shm.index.loc && e in shm.index.bodies && t1 != t2
    modifies shm`slots, shm.index`bodies, shm.pages, shm.areas, shm.areas.table
    ensures
      && shm.Valid()
      && Meaning(shm.index.bodies, shm.pages.store, shm.names) ==
           old(Meaning(shm.index.bodies, shm.pages.store, shm.names))
      && shm.loose == old(shm.loose)
    ensures shm.pages.buffers.Keys == old(shm.pages.buffers.Keys) && shm.areas.View() == old(shm.areas.View())
    ensures e in shm.index.bodies && shm.index.bodies.Keys == old(shm.index.bodies.Keys)
    ensures ok ==>
      && !StartsIn(FieldOf(shm.index.bodies[e], t1), offset, areaLength)
      && !StartsIn(FieldOf(shm.index.bodies[e], t2), offset, areaLength)
    ensures
      var was := old(shm.index.bodies)[e];
      !StartsIn(FieldOf(was, t1), offset, areaLength) && !StartsIn(FieldOf(was, t2), offset, areaLength) ==>
        ok && shm.index.bodies == old(shm.index.bodies) && shm.pages.free == old(shm.pages.free)
    ensures forall e1, t: PageType | e1 in shm.index.bodies && (e1 != e || (t != t1 && t != t2)) ::
      FieldOf(shm.index.bodies[e1], t) == FieldOf(old(shm.index.bodies)[e1], t)
    ensures !ok ==>
      Stuck(shm.index.bodies[e], shm.pages.capacity, shm.pages.freePageCount, shm.pages.free, offset, areaLength)
  {
    ok := ReplacePageInElement(shm, e, t1, offset, areaLength);
    if ok {
      ok := ReplacePageInElement(shm, e, t2, offset, areaLength);
    }
  }

  method ReplacePagesInElement(shm: Shm, e: Ptr, offset: nat, areaLength: nat) returns (ok: bool)
    requires shm.Valid() && e in shm.index.loc && e in shm.index.bodies
    modifies shm`slots, shm.index`bodies, shm.pages, shm.areas, shm.areas.table
    ensures
      && shm.Valid()
      && Meaning(shm.index.bodies, shm.pages.store, shm.names) ==
           old(Meaning(shm.index.bodies, shm.pages.store, shm.names))
      && shm.loose == old(shm.loose)
    ensures shm.pages.buffers.Keys == old(shm.pages.buffers.Keys) && shm.areas.View() == old(shm.areas.View())
    ensures e in shm.index.bodies && shm.index.bodies.Keys == old(shm.index.bodies.Keys)
    ensures ok ==> Outside(shm.index.bodies[e], offset, areaLength)
    ensures Outside(old(shm.index.bodies)[e], offset, areaLength) ==>
      ok && shm.index.bodies == old(shm.index.bodies) && shm.pages.free == old(shm.pages.free)
    ensures forall e1 | e1 in shm.index.bodies && e1 != e :: SameFields(old(shm.index.bodies)[e1], shm.index.bodies[e1])
    ensures !ok ==>
      Stuck(shm.index.bodies[e], shm.pages.capacity, shm.pages.freePageCount, shm.pages.free, offset, areaLength)
  {
    ok := ReplaceTwo(shm, e, KEY, VALUE, offset, areaLength);
    if ok {
      ok := ReplaceTwo(shm, e, SUBKEYS, ATTRS, offset, areaLength);
    }
  }

  /** No chain of the ELEMENT starts in the area. */
  ghost predicate Outside(body: Body, offset: nat, areaLength: nat)
  {
    forall t: PageType :: !StartsIn(FieldOf(body, t), offset, areaLength)
  }

  ghost predicate SameFields(body: Body, body': Body)
  {
    forall t: PageType :: FieldOf(body', t) == FieldOf(body, t)
  }

  /** Brings the slots of an ELEMENT's hash into use, as the walk does before it looks at the ELEMENT. */
  method LocateElement(shm: Shm, e: Ptr)
    requires shm.Valid() && e in shm.index.bodies
    modifies shm.index`links, shm.index`ck, shm.index`assign, shm.index`trees, shm.index`loc
    ensures
      && shm.Valid()
      && Meaning(shm.index.bodies, shm.pages.store, shm.names) ==
           old(Meaning(shm.index.bodies, shm.pages.store, shm.names))
      && shm.index.loc.Keys == old(shm.index.loc.Keys)
  {
    ghost var h, loc := shm.index.links, shm.index.loc;
    var cp := shm.index.GetCKIndex(shm.index.bodies[e].hash, true);
    ElementStore.KeptBeside(shm.index.bodies, h, shm.index.links, loc, shm.index.loc, shm.index.free, shm.index.held,
      shm.index.pfreeElements, shm.areas.used);
    RearrangedKeys(h, shm.index.links, loc, shm.index.loc);
  }

  /** The walk over all ELEMENTs: moves the chains that start in the area until one cannot be moved. */
  method ReplaceAllPages(shm: Shm, elements: seq<Ptr>, offset: nat, areaLength: nat) returns (ok: bool)
    requires shm.Valid() && forall e | e in elements :: e in shm.index.bodies
    modifies shm`slots, shm.index`bodies, shm.pages, shm.areas, shm.areas.table
    modifies shm.index`links, shm.index`ck, shm.index`assign, shm.index`trees, shm.index`loc
    ensures
      && shm.Valid()
      && Meaning(shm.index.bodies, shm.pages.store, shm.names) ==
           old(Meaning(shm.index.bodies, shm.pages.store, shm.names))
      && shm.loose == old(shm.loose)
    ensures shm.pages.buffers.Keys == old(shm.pages.buffers.Keys) && shm.areas.View() == old(shm.areas.View())
    ensures shm.index.bodies.Keys == old(shm.index.bodies.Keys)
    ensures ok ==>
      forall e | e in elements && e in shm.index.bodies && shm.index.bodies[e].key != NULL ::
        Outside(shm.index.bodies[e], offset, areaLength)
    ensures MovedOut(old(shm.index.bodies), elements, offset, areaLength) ==>
      ok && shm.index.bodies == old(shm.index.bodies) && shm.pages.free == old(shm.pages.free)
    ensures !ok ==> exists e | e in elements && e in shm.index.bodies ::
        Stuck(shm.index.bodies[e], shm.pages.capacity, shm.pages.freePageCount, shm.pages.free, offset,
        areaLength)
  {
    var n := 0;
    while n < |elements|
      invariant 0 <= n <= |elements|
      invariant
        && shm.Valid()
        && Meaning(shm.index.bodies, shm.pages.store, shm.names) ==
             old(Meaning(shm.index.bodies, shm.pages.store, shm.names))
        && shm.loose == old(shm.loose)
      invariant shm.pages.buffers.Keys == old(shm.pages.buffers.Keys) && shm.areas.View() == old(shm.areas.View())
      invariant shm.index.bodies.Keys == old(shm.index.bodies.Keys)
      invariant MovedOut(shm.index.bodies, elements[..n], offset, areaLength)
      invariant MovedOut(old(shm.index.bodies), elements, offset, areaLength) ==>
        shm.index.bodies == old(shm.index.bodies) && shm.pages.free == old(shm.pages.free)
    {
      var e := elements[n];
      assert e in elements;
      if shm.index.bodies[e].key != NULL {
        ElementStore.KeyedIsLive(shm.index.bodies, shm.index.links, shm.index.loc, shm.index.free,
          shm.index.pfreeElements, shm.areas.used, e);
        LocateElement(shm, e);
        ghost var b := shm.index.bodies;
        ok := ReplacePagesInElement(shm, e, offset, areaLength);
        if !ok {
          return;
        }
        MovedOutMore(b, shm.index.bodies, elements, n, offset, areaLength);
      } else {
        MovedOutMore(shm.index.bodies, shm.index.bodies, elements, n, offset, areaLength);
      }
      n := n + 1;
    }
    assert elements[..n] == elements;
    ok := true;
  }

  ghost predicate MovedOut(b: BodyHeap, elements: seq<Ptr>, offset: nat, areaLength: nat)
  {
    forall e | e in elements && e in b && b[e].key != NULL :: Outside(b[e], offset, areaLength)
  }

  lemma MovedOutMore(b: BodyHeap, b': BodyHeap, elements: seq<Ptr>, n: nat, offset: nat, areaLength: nat)
    requires n < |elements| && MovedOut(b, elements[..n], offset, areaLength) && b'.Keys == b.Keys
    requires forall e | e in b' && e != elements[n] :: SameFields(b[e], b'[e])
    requires elements[n] in b' && b'[elements[n]].key != NULL ==> Outside(b'[elements[n]], offset, areaLength)
    ensures MovedOut(b', elements[..n + 1], offset, areaLength)
  {
    assert elements[..n + 1] == elements[..n] + [elements[n]];
    forall e | e in elements[..n] && e in b' && e != elements[n] && b'[e].key != NULL
      ensures Outside(b'[e], offset, areaLength)
    {
      assert FieldOf(b'[e], KEY) == FieldOf(b[e], KEY);
    }
  }

  // ---------------------------------------------------------------- cutting the area off

  /** The last area is one of pages, and not the only one. */
  ghost predicate Removable(used: seq<Area>)
  {
    used != [] && used[|used| - 1].areaType == PAGE && exists i | 0 <= i < |used| - 1 :: used[i].areaType == PAGE
  }

  /** All is as in a valid file, but that pages may have gone from an area that is still there. */
  ghost predicate ValidButForArea(shm: Shm)
    reads shm, shm.index, shm.pages, shm.areas, shm.areas.table
  {
    && shm.index.areas == shm.areas && shm.pages.areas == shm.areas && shm.index.Valid() && shm.pages.Valid()
    && shm.pages.isPacked && shm.index.held == {}
    && Sound(shm.index.loc.Keys, shm.index.bodies, shm.index.loc.Keys, shm.pages.store, shm.slots, shm.loose, shm.names,
         shm.hashOf, shm.subhashOf)
  }

  /**
   From different free pages of the file those in the area are taken: all pages there are among them, and
   nothing else has gone from the list or from the file.
   */
  ghost predicate CutFrom(free: seq<Ptr>, pages: set<Ptr>, free': seq<Ptr>, pages': set<Ptr>, offset: nat, length: nat)
  {
    && Distinct(free) && (forall p | p in free :: p in pages)
    && (forall p | p in pages && Within(p, offset, length) :: p in free)
    && (forall p :: p in free' <==> p in free && !Within(p, offset, length))
    && (forall p :: p in pages' <==> p in pages && !Within(p, offset, length))
  }

  /**
   Takes the pages of the last area out of the file if all of them are free.  No page ends behind the start of
   the area then.
   */
  method RemovePages(shm: Shm, n: nat, offset: nat, length: nat) returns (removed: bool)
    requires
      && shm.Valid() && |shm.areas.used| == n + 1 && shm.areas.used[n].areaType == PAGE
      && offset == shm.areas.used[n].fileOffset && length == shm.areas.used[n].length
    modifies shm.pages`heads, shm.pages`buffers, shm.pages`pfreePages, shm.pages`freePageCount, shm.pages`free
    modifies shm.pages`chains, shm.pages`owner, shm.pages`store, shm.pages`isWhole
    ensures ValidButForArea(shm) && shm.pages.store == old(shm.pages.store)
    ensures removed <==>
      forall p | p in old(shm.pages.buffers) && offset <= p < offset + length :: p in old(shm.pages.free)
    ensures !removed ==>
      && shm.Valid() && shm.pages.free == old(shm.pages.free) && shm.pages.buffers == old(shm.pages.buffers)
    ensures removed ==>
      && PageStore.AreasWhole(shm.pages.buffers, shm.areas.used[..n], PageStore.PageSize(shm.pages.capacity))
      && CutFrom(old(shm.pages.free), old(shm.pages.buffers).Keys, shm.pages.free, shm.pages.buffers.Keys, offset,
           length)
      && (forall p | p in shm.pages.buffers :: p + PageStore.PageSize(shm.pages.capacity) <= offset)
  {
    var slots := length / PageStore.PageSize(shm.pages.capacity);
    removed := CountFreePages(shm.pages, offset, length, slots);
    AllFree(shm, n);
    if !removed {
      return;
    }
    AreaAllFree(shm, n, slots);
    ghost var d := shm.pages.buffers;
    RemoveFreePages(shm.pages, offset, length);
    WholeShrunk(d, shm.pages.buffers, shm.areas.used, n, PageStore.PageSize(shm.pages.capacity));
    AvoidsCount(shm.pages.free, offset, length);
    var found := CountFreePages(shm.pages, offset, length, 1);
    assert !found;
  }

  /** The count is enough exactly when every page of the last area is free. */
  lemma AllFree(shm: Shm, n: nat)
    requires shm.Valid() && |shm.areas.used| == n + 1 && shm.areas.used[n].areaType == PAGE
    ensures
      var a := shm.areas.used[n];
      a.length / PageStore.PageSize(shm.pages.capacity) <= CountWithin(shm.pages.free, a.fileOffset, a.length) <==>
        forall p | p in shm.pages.buffers && a.fileOffset <= p < a.fileOffset + a.length :: p in shm.pages.free
    ensures EndBy(shm.areas.used[..n], shm.areas.used[n].fileOffset)
  {
    var pages := shm.pages;
    shm.areas.UsedAre();
    LastAreaPages(pages.heads, pages.buffers, pages.free, pages.chains, pages.owner, pages.pfreePages, pages.capacity,
      shm.areas.used, n);
    FreePages(pages.heads, pages.buffers, pages.free, pages.chains, pages.owner, pages.pfreePages, pages.capacity,
      shm.areas.used);
    AllFreeIff(pages.buffers, pages.free, pages.capacity, shm.areas.used, n);
  }

  lemma AreaAllFree(shm: Shm, n: nat, slots: nat)
    requires
      && shm.Valid() && |shm.areas.used| == n + 1
      && slots == shm.areas.used[n].length / PageStore.PageSize(shm.pages.capacity)
    requires slots <= CountWithin(shm.pages.free, shm.areas.used[n].fileOffset, shm.areas.used[n].length)
    ensures forall p |
        p in shm.pages.buffers && shm.areas.used[n].fileOffset < p + PageStore.PageSize(shm.pages.capacity) ::
      p in shm.pages.free && Within(p, shm.areas.used[n].fileOffset, shm.areas.used[n].length)
    ensures forall p |
        p in shm.pages.buffers && p + PageStore.PageSize(shm.pages.capacity) <= shm.areas.used[n].fileOffset ::
      !Within(p, shm.areas.used[n].fileOffset, shm.areas.used[n].length)
    ensures Distinct(shm.pages.free) && forall p | p in shm.pages.free :: p in shm.pages.buffers
  {
    var a, pages := shm.areas.used[n], shm.pages;
    shm.areas.UsedAre();
    LastAreaPages(pages.heads, pages.buffers, pages.free, pages.chains, pages.owner, pages.pfreePages, pages.capacity,
      shm.areas.used, n);
    FreePages(pages.heads, pages.buffers, pages.free, pages.chains, pages.owner, pages.pfreePages, pages.capacity,
      shm.areas.used);
    AllSlotsFree(pages.buffers.Keys, pages.free, pages.capacity, a.fileOffset, a.length, slots);
  }

  lemma {:induction false} AvoidsCount(list: seq<Ptr>, offset: nat, areaLength: nat)
    requires Avoids(list, offset, areaLength)
    ensures CountWithin(list, offset, areaLength) == 0
  {
    if list != [] {
      assert list[0] in list;
      AvoidsCount(list[1..], offset, areaLength);
    }
  }

  /**
   Gives the last area up when it is one of pages and can be emptied.  Whatever happens, the map stays what it
   was.  The area goes exactly when all its pages are free after the chains that start there have moved; `free` is
   the free list then.
   */
  method AreaCompress(shm: Shm, elements: seq<Ptr>) returns (ok: bool, isCompressed: bool, ghost free: seq<Ptr>)
    requires shm.Valid() && forall e :: e in elements <==> e in shm.index.bodies
    requires shm.areas.used != [] ==> shm.areas.used[|shm.areas.used| - 1].areaType != PAGELIST
    modifies shm`slots, shm.index`bodies, shm.pages, shm.areas, shm.areas.table
    modifies shm.index`links, shm.index`ck, shm.index`assign, shm.index`trees, shm.index`loc
    ensures shm.Valid() && shm.Abs() == old(shm.Abs()) && shm.loose == old(shm.loose)
    ensures !Removable(old(shm.areas.used)) ==> ok && !isCompressed
    ensures ok && Removable(old(shm.areas.used)) ==>
      var a := old(shm.areas.used)[|old(shm.areas.used)| - 1];
      isCompressed <==>
        forall p | p in old(shm.pages.buffers) && a.fileOffset <= p < a.fileOffset + a.length :: p in free
    ensures Removable(old(shm.areas.used)) ==>
      var a := old(shm.areas.used)[|old(shm.areas.used)| - 1];
      (forall p | p in old(shm.pages.buffers) && a.fileOffset <= p < a.fileOffset + a.length ::
         p in old(shm.pages.free)) ==>
        ok && isCompressed
    ensures !ok ==>
      && Removable(old(shm.areas.used))
      && var a := old(shm.areas.used)[|old(shm.areas.used)| - 1];
         exists e | e in elements && e in shm.index.bodies ::
           Stuck(shm.index.bodies[e], shm.pages.capacity, shm.pages.freePageCount, shm.pages.free, a.fileOffset,
             a.length)
    ensures !isCompressed ==>
      && shm.pages.buffers.Keys == old(shm.pages.buffers.Keys)
      && shm.areas.View() == old(shm.areas.View())
      && free == shm.pages.free
    ensures isCompressed ==>
      && ok && shm.areas.count == old(shm.areas.count) - 1 && shm.areas.used == old(shm.areas.used)[..shm.areas.count]
      && shm.areas.unassignArea == old(shm.areas.table[shm.areas.count - 1].fileOffset)
      && shm.areas.table[shm.areas.count].areaType == UNKNOWN
      && CutFrom(free, old(shm.pages.buffers).Keys, shm.pages.free, shm.pages.buffers.Keys,
           old(shm.areas.used)[shm.areas.count].fileOffset, old(shm.areas.used)[shm.areas.count].length)
      && (forall p | p in shm.pages.buffers :: p + PageStore.PageSize(shm.pages.capacity) <= shm.areas.unassignArea)
  {
    free, isCompressed := shm.pages.free, false;
    shm.areas.UsedAre();
    var found, n := shm.areas.GetLastestArea();
    if !found {
      return true, false, free;
    }
    var area := shm.areas.table[n];
    if area.areaType != PAGE {
      return true, false, free;
    }
    ok, isCompressed, free := CompressLast(shm, elements, n);
  }

  /** No chain starts in an area whose pages are all free. */
  lemma NoneStarts(shm: Shm, elements: seq<Ptr>, offset: nat, length: nat)
    requires shm.Valid()
    requires forall p | p in shm.pages.buffers && offset <= p < offset + length :: p in shm.pages.free
    ensures MovedOut(shm.index.bodies, elements, offset, length)
  {
    forall e, t: PageType | e in elements && e in shm.index.bodies && shm.index.bodies[e].key != NULL
      ensures !StartsIn(FieldOf(shm.index.bodies[e], t), offset, length)
    {
      ElementStore.KeyedIsLive(shm.index.bodies, shm.index.links, shm.index.loc, shm.index.free,
        shm.index.pfreeElements, shm.areas.used, e);
      OwnsField(shm.index.bodies, shm.index.loc.Keys, shm.pages.store, shm.slots, shm.loose, e, t);
      var q := FieldOf(shm.index.bodies[e], t);
      if q != NULL {
        HeadUsed(shm.pages, q);
      }
    }
  }

  /** The first page of a chain is a page and not free. */
  lemma HeadUsed(arena: PageArena.Arena, head: Ptr)
    requires arena.Valid() && head in arena.chains
    ensures head in arena.buffers && head !in arena.free
  {
    PageStore.ChainedIn(arena.heads, arena.buffers, arena.free, arena.chains, arena.owner, arena.pfreePages,
      arena.capacity, arena.areas.used, head);
    FreePages(arena.heads, arena.buffers, arena.free, arena.chains, arena.owner, arena.pfreePages, arena.capacity,
      arena.areas.used);
  }

  /** AreaCompress once the area, its last one, is found to be removable. */
  method CompressLast(shm: Shm, elements: seq<Ptr>, n: nat) returns (ok: bool, isCompressed: bool, ghost free: seq<Ptr>)
    requires shm.Valid() && forall e | e in elements :: e in shm.index.bodies
    requires |shm.areas.used| == n + 1 && shm.areas.used[n].areaType == PAGE
    modifies shm`slots, shm.index`bodies, shm.pages, shm.areas, shm.areas.table
    modifies shm.index`links, shm.index`ck, shm.index`assign, shm.index`trees, shm.index`loc
    ensures shm.Valid() && shm.loose == old(shm.loose)
    ensures Meaning(shm.index.bodies, shm.pages.store, shm.names) ==
        old(Meaning(shm.index.bodies, shm.pages.store, shm.names))
    ensures
      var a := old(shm.areas.used)[n];
      && (ok ==> (isCompressed <==>
           forall p | p in old(shm.pages.buffers) && a.fileOffset <= p < a.fileOffset + a.length :: p in free))
      && ((forall p | p in old(shm.pages.buffers) && a.fileOffset <= p < a.fileOffset + a.length ::
             p in old(shm.pages.free)) ==>
           ok && isCompressed)
    ensures !isCompressed ==>
      && shm.pages.buffers.Keys == old(shm.pages.buffers.Keys)
      && shm.areas.View() == old(shm.areas.View())
      && free == shm.pages.free
    ensures isCompressed ==>
      && ok && shm.areas.count == n && shm.areas.used == old(shm.areas.used)[..n]
      && shm.areas.unassignArea == old(shm.areas.used)[n].fileOffset && shm.areas.table[n].areaType == UNKNOWN
      && CutFrom(free, old(shm.pages.buffers).Keys, shm.pages.free, shm.pages.buffers.Keys,
           old(shm.areas.used)[n].fileOffset, old(shm.areas.used)[n].length)
      && (forall p | p in shm.pages.buffers :: p + PageStore.PageSize(shm.pages.capacity) <= shm.areas.unassignArea)
    ensures !ok ==>
      var a := old(shm.areas.used)[n];
      exists e | e in elements && e in shm.index.bodies ::
        Stuck(shm.index.bodies[e], shm.pages.capacity, shm.pages.freePageCount, shm.pages.free, a.fileOffset, a.length)
  {
    shm.areas.UsedAre();
    var area := shm.areas.table[n];
    isCompressed := false;
    ghost var start, end := area.fileOffset, area.fileOffset + area.length;
    if forall p | p in shm.pages.buffers && start <= p < end :: p in shm.pages.free {
      NoneStarts(shm, elements, area.fileOffset, area.length);
    }
    ok := ReplaceAllPages(shm, elements, area.fileOffset, area.length);
    free := shm.pages.free;
    if !ok {
      return;
    }
    isCompressed := CutLast(shm, n);
  }

  /** Cuts the last area off if all its pages are free. */
  method CutLast(shm: Shm, n: nat) returns (isCut: bool)
    requires shm.Valid() && |shm.areas.used| == n + 1 && shm.areas.used[n].areaType == PAGE
    modifies shm.pages`heads, shm.pages`buffers, shm.pages`pfreePages, shm.pages`freePageCount, shm.pages`free
    modifies shm.pages`chains, shm.pages`owner, shm.pages`store, shm.pages`isWhole
    modifies shm.areas, shm.areas.table
    ensures shm.Valid() && shm.pages.store == old(shm.pages.store)
    ensures
      var a := old(shm.areas.used)[n];
      isCut <==>
        forall p | p in old(shm.pages.buffers) && a.fileOffset <= p < a.fileOffset + a.length ::
          p in old(shm.pages.free)
    ensures !isCut ==>
      && shm.pages.buffers == old(shm.pages.buffers)
      && shm.areas.View() == old(shm.areas.View())
      && shm.pages.free == old(shm.pages.free)
    ensures isCut ==>
      && shm.areas.count == n && shm.areas.used == old(shm.areas.used)[..n]
      && shm.areas.unassignArea == old(shm.areas.used)[n].fileOffset && shm.areas.table[n].areaType == UNKNOWN
      && CutFrom(old(shm.pages.free), old(shm.pages.buffers).Keys, shm.pages.free, shm.pages.buffers.Keys,
           old(shm.areas.used)[n].fileOffset, old(shm.areas.used)[n].length)
      && (forall p | p in shm.pages.buffers :: p + PageStore.PageSize(shm.pages.capacity) <= shm.areas.unassignArea)
  {
    shm.areas.UsedAre();
    var area := shm.areas.table[n];
    isCut := RemovePages(shm, n, area.fileOffset, area.length);
    if isCut {
      GiveUpArea(shm, n);
    }
  }

  /** The file ends where its last area began. */
  method GiveUpArea(shm: Shm, n: nat)
    requires ValidButForArea(shm) && |shm.areas.used| == n + 1 && shm.areas.used[n].areaType == PAGE
    requires forall p | p in shm.pages.buffers ::
      p + PageStore.PageSize(shm.pages.capacity) <= shm.areas.used[n].fileOffset
    requires PageStore.AreasWhole(shm.pages.buffers, shm.areas.used[..n], PageStore.PageSize(shm.pages.capacity))
    modifies shm.pages`isWhole, shm.areas, shm.areas.table
    ensures
      && shm.Valid() && shm.areas.count == old(shm.areas.count) - 1
      && shm.areas.unassignArea == old(shm.areas.used)[n].fileOffset
    ensures shm.areas.used == old(shm.areas.used)[..n] && shm.areas.table[n].areaType == UNKNOWN
  {
    shm.areas.UsedAre();
    ElementStore.KeptShrunk(shm.index.bodies, shm.index.links, shm.index.loc, shm.index.free, shm.index.held,
      shm.index.pfreeElements, shm.areas.used, n);
    PagedShrunk(shm.pages.heads, shm.pages.buffers, shm.pages.free, shm.pages.chains, shm.pages.owner,
      shm.pages.pfreePages, shm.pages.capacity, shm.areas.used, n);
    shm.areas.RemoveLast(n);
    shm.pages.isWhole := true;
    assert shm.areas.table[..][n] == Area(UNKNOWN, 0, 0);
  }
}
