/**
 Moving byte strings out of the last page area and cutting its pages out of the free list
 (K2HShm::ReservePages that avoids an area, CopyPageData, and the page branch of AreaCompress).
 */
module PageCompress {
  import opened Layout
  import opened AreaLayout
  import opened PageStore
  import opened PageWrites
  import opened PagePacking
  import opened PageCuts
  import opened PageArena

  /** The successor of a free page in the list. */
  method NextFree(arena: Arena, p: Ptr, ghost k: nat) returns (next: Ptr)
    requires arena.Valid() && k < |arena.free| && p == arena.free[k]
    ensures next == if k + 1 < |arena.free| then arena.free[k + 1] else NULL
  {
    PagedIs(arena.heads, arena.buffers, arena.free, arena.chains, arena.owner, arena.pfreePages, arena.capacity,
      arena.areas.used);
    NeighboursIn(arena.heads, arena.free, k);
    next := arena.heads[p].next;
  }

  /** Makes the neighbours of a page name each other, and the page no one. */
  method UnlinkPage(arena: Arena, p: Ptr)
    requires p in arena.heads && (arena.heads[p].prev != NULL ==> arena.heads[p].prev in arena.heads)
    requires arena.heads[p].next != NULL ==> arena.heads[p].next in arena.heads
    modifies arena`heads, arena`pfreePages
    ensures p in old(arena.heads) && (old(arena.heads)[p].prev != NULL ==> old(arena.heads)[p].prev in old(arena.heads))
    ensures old(arena.heads)[p].next != NULL ==> old(arena.heads)[p].next in old(arena.heads)
    ensures arena.heads == CutOne(old(arena.heads), p)
    ensures arena.pfreePages ==
      if old(arena.heads)[p].prev == NULL then old(arena.heads)[p].next else old(arena.pfreePages)
  {
    var head := arena.heads[p];
    if head.prev != NULL {
      arena.heads := arena.heads[head.prev := arena.heads[head.prev].(next := head.next)];
    } else {
      arena.pfreePages := head.next;
    }
    if head.next != NULL {
      arena.heads := arena.heads[head.next := arena.heads[head.next].(prev := head.prev)];
    }
    arena.heads := arena.heads[p := arena.heads[p].(prev := NULL, next := NULL)];
  }

  /** A free page becomes a chain of its own. */
  lemma PackedCut(h: Heads, chains: Chains, cap: nat, p: Ptr)
    requires AllPacked(h, chains, cap) && p in h
    requires (h[p].prev != NULL ==> h[p].prev in h) && (h[p].next != NULL ==> h[p].next in h)
    ensures AllPacked(CutOne(h, p), chains[p := [p]], cap)
  {
    PackedAlso(h, CutOne(h, p), chains, chains[p := [p]], cap, p);
  }

  /** Takes one page out of the free list; it is a chain of its own then. */
  method CutOffPage(arena: Arena, p: Ptr, ghost k: nat)
    requires arena.Valid() && k < |arena.free| && p == arena.free[k]
    modifies arena`heads, arena`pfreePages, arena`freePageCount, arena`free, arena`chains, arena`owner, arena`store
    ensures arena.Valid() && p != NULL && p !in old(arena.chains)
    ensures arena.free == Without(old(arena.free), k) && arena.chains == old(arena.chains)[p := [p]]
    ensures arena.store == old(arena.store)[p := []]
  {
    PagedCut(arena.heads, arena.buffers, arena.free, arena.chains, arena.owner, arena.pfreePages, arena.capacity,
      arena.areas.used, k);
    TextsCut(arena.heads, arena.buffers, arena.free, arena.chains, arena.owner, arena.pfreePages, arena.capacity,
      arena.areas.used, k, arena.store);
    ghost var h', free', chains', owner' := CutOne(arena.heads, p), Without(arena.free,
      k), arena.chains[p := [p]], arena.owner[p := p];
    if arena.isPacked {
      PackedCut(arena.heads, arena.chains, arena.capacity, p);
    }
    UnlinkPage(arena, p);
    assert arena.heads == h';
    if 0 < arena.freePageCount {
      arena.freePageCount := arena.freePageCount - 1;
    }
    arena.Settle(free', chains', owner', arena.store[p := []]);
  }

  // ---------------------------------------------------------------- pages outside an area

  /** No page of the list lies in the area. */
  ghost predicate Avoids(list: seq<Ptr>, offset: nat, areaLength: nat)
  {
    forall p | p in list :: !Within(p, offset, areaLength)
  }

  /** A chain that stores nothing was added, or, for null, none. */
  ghost predicate Gained(store: map<Ptr, Bytes>, store': map<Ptr, Bytes>, start: Ptr)
  {
    if start == NULL then store' == store else start !in store && store' == store[start := []]
  }

  /** The chain reserved so far, its last page, and how much is still wanted. */
  ghost predicate Reserving(chains: Chains, cap: nat, start: Ptr, last: Ptr, length: nat, left: nat, offset: nat,
                            areaLength: nat)
  {
    if start == NULL then left == length && 0 < left
    else
      && start in chains && chains[start] != [] && last == chains[start][|chains[start]| - 1]
      && Avoids(chains[start], offset, areaLength)
      && if left == 0 then Takes(cap, length, |chains[start]|) else Room(cap, |chains[start]|) + left == length
  }

  /** Links one free page behind the chain reserved so far, or starts it. */
  method ReserveOne(arena: Arena, p: Ptr, ghost k: nat, start: Ptr, last: Ptr, ghost store: map<Ptr, Bytes>)
    returns (start': Ptr)
    requires arena.Valid() && k < |arena.free| && p == arena.free[k]
    requires
      && Gained(store, arena.store, start)
      && (start != NULL ==>
            && start in arena.chains && arena.chains[start] != []
            && last == arena.chains[start][|arena.chains[start]| - 1])
    modifies arena`heads, arena`pfreePages, arena`freePageCount, arena`free, arena`chains, arena`owner, arena`store
    ensures
      && arena.Valid() && start' != NULL && Gained(store, arena.store, start')
      && arena.free == Without(old(arena.free), k)
    ensures
      && start' in arena.chains
      && arena.chains[start'] == (if start == NULL then [] else old(arena.chains)[start]) + [p]
  {
    CutOffPage(arena, p, k);
    if start == NULL {
      return p;
    }
    assert p !in old(arena.store);
    arena.LinkBehind(last, p, start);
    BackAgain(store, start, p);
    return start;
  }

  lemma PutAndTaken(store: map<Ptr, Bytes>, p: Ptr)
    requires p !in store
    ensures store[p := []] - {p} == store
  {
  }

  lemma ChainsBack(chains: Chains, p: Ptr)
    requires p !in chains
    ensures chains[p := [p]] - {p} == chains
  {
  }

  lemma PutTwice(store: map<Ptr, Bytes>, p: Ptr, a: Bytes, b: Bytes)
    ensures store[p := a][p := b] == store[p := b]
  {
  }

  lemma BackAgain(store: map<Ptr, Bytes>, start: Ptr, p: Ptr)
    requires p !in store && p != start
    ensures store[start := []][p := []] - {p} == store[start := []]
  {
  }

  /** Gives back the pages that were reserved so far. */
  method PutBackReserved(arena: Arena, start: Ptr, offset: nat, areaLength: nat, ghost store: map<Ptr, Bytes>)
    requires arena.Valid() && Gained(store, arena.store, start)
    requires start != NULL ==> start in arena.chains && Avoids(arena.chains[start], offset, areaLength)
    modifies arena`heads, arena`pfreePages, arena`freePageCount, arena`free, arena`chains, arena`owner, arena`store
    ensures arena.Valid() && arena.store == store
    ensures CountOutside(arena.free, offset, areaLength) ==
      CountOutside(old(arena.free), offset, areaLength) + Reserved(old(arena.chains), start)
  {
    if start != NULL {
      AllOutside(arena.chains[start], offset, areaLength);
      OutsideAppend(arena.chains[start], arena.free, offset, areaLength);
      arena.Free(start);
      PutAndTaken(store, start);
    }
  }

  /** How many pages the chain has so far. */
  ghost function Reserved(chains: Chains, start: Ptr): nat
  {
    if start == NULL || start !in chains then 0 else |chains[start]|
  }

  lemma EnoughOutside(cap: nat, length: nat, n: nat, count: nat)
    requires 0 < cap && Takes(cap, length, n) && n <= count
    ensures length <= Room(cap, count)
  {
    if n < count {
      MoreRoom(cap, n, count);
    }
  }

  /** Links one page outside the area. */
  method CollectOne(arena: Arena, p: Ptr, ghost k: nat, start: Ptr, last: Ptr, length: nat, left: nat, offset: nat,
                    areaLength: nat, ghost store: map<Ptr, Bytes>)
    returns (start': Ptr, left': nat)
    requires
      && arena.Valid() && k < |arena.free| && p == arena.free[k] && !Within(p, offset, areaLength)
      && Gained(store, arena.store, start) && 0 < left
      && Reserving(arena.chains, arena.capacity, start, last, length, left, offset, areaLength)
    modifies arena`heads, arena`pfreePages, arena`freePageCount, arena`free, arena`chains, arena`owner, arena`store
    ensures
      && arena.Valid() && Gained(store, arena.store, start') && arena.free == Without(old(arena.free), k)
      && Reserving(arena.chains, arena.capacity, start', p, length, left', offset, areaLength)
    ensures CountOutside(old(arena.free), offset, areaLength) + Reserved(old(arena.chains), start) ==
      CountOutside(arena.free, offset, areaLength) + Reserved(arena.chains, start')
  {
    OutsideWithout(arena.free, k, offset, areaLength);
    start' := ReserveOne(arena, p, k, start, last, store);
    left' := if left <= arena.capacity then 0 else left - arena.capacity;
  }

  /** The walk over the free list, which links the pages outside the area until there are enough. */
  method CollectPages(arena: Arena, length: nat, offset: nat, areaLength: nat) returns (start: Ptr, left: nat)
    requires arena.Valid() && 0 < length
    modifies arena`heads, arena`pfreePages, arena`freePageCount, arena`free, arena`chains, arena`owner, arena`store
    ensures arena.Valid() && Gained(old(arena.store), arena.store, start)
    ensures exists last :: Reserving(arena.chains, arena.capacity, start, last, length, left, offset, areaLength)
    ensures CountOutside(old(arena.free), offset, areaLength) ==
      CountOutside(arena.free, offset, areaLength) + Reserved(arena.chains, start)
    ensures 0 < left ==> CountOutside(arena.free, offset, areaLength) == 0
  {
    ghost var store, count := arena.store, CountOutside(arena.free, offset, areaLength);
    ghost var k: nat := 0;
    FreeNext(arena.heads, arena.buffers, arena.free, arena.chains, arena.owner, arena.pfreePages, arena.capacity,
      arena.areas.used);
    var p, last := arena.pfreePages, NULL;
    start, left := NULL, length;
    while p != NULL && 0 < left
      invariant
        && arena.Valid() && NULL !in arena.free && k <= |arena.free|
        && p == (if k < |arena.free| then arena.free[k] else NULL)
      invariant Gained(store, arena.store, start)
      invariant Reserving(arena.chains, arena.capacity, start, last, length, left, offset, areaLength)
      invariant forall p | p in arena.free[..k] :: Within(p, offset, areaLength)
      invariant count == CountOutside(arena.free, offset, areaLength) + Reserved(arena.chains, start)
      decreases |arena.free| - k
    {
      var next := NextFree(arena, p, k);
      if Within(p, offset, areaLength) {
        assert arena.free[..k + 1] == arena.free[..k] + [p];
        k := k + 1;
      } else {
        assert Without(arena.free, k)[..k] == arena.free[..k];
        start, left := CollectOne(arena, p, k, start, last, length, left, offset, areaLength, store);
        last := p;
      }
      p := next;
      FreeNext(arena.heads, arena.buffers, arena.free, arena.chains, arena.owner, arena.pfreePages, arena.capacity,
        arena.areas.used);
    }
    if 0 < left {
      assert arena.free[..k] == arena.free;
      NoneOutside(arena.free, offset, areaLength);
    }
  }

  /**
   Takes enough pages for length bytes off the free list, passing over those in the area; null, with
   everything put back, when there are not enough.
   */
  method ReservePagesAvoiding(arena: Arena, length: nat, offset: nat, areaLength: nat) returns (start: Ptr)
    requires arena.Valid() && 0 < length
    modifies arena`heads, arena`pfreePages, arena`freePageCount, arena`free, arena`chains, arena`owner, arena`store
    ensures arena.Valid() && Gained(old(arena.store), arena.store, start)
    ensures start == NULL <==>
      || Room(arena.capacity, old(arena.freePageCount)) < length
      || Room(arena.capacity, CountOutside(old(arena.free), offset, areaLength)) < length
    ensures start == NULL ==>
      || Room(arena.capacity, arena.freePageCount) < length
      || Room(arena.capacity, CountOutside(arena.free, offset, areaLength)) < length
    ensures start != NULL ==>
      && start in arena.chains && Takes(arena.capacity, length, |arena.chains[start]|)
      && Avoids(arena.chains[start], offset, areaLength)
  {
    if Room(arena.capacity, arena.freePageCount) < length {
      return NULL;
    }
    ghost var store, count := arena.store, CountOutside(arena.free, offset, areaLength);
    var left;
    start, left := CollectPages(arena, length, offset, areaLength);
    if 0 < left {
      PutBackReserved(arena, start, offset, areaLength, store);
      return NULL;
    }
    EnoughOutside(arena.capacity, length, |arena.chains[start]|, count);
  }

  // ---------------------------------------------------------------- copying

  /** The first `offset` bytes were copied. */
  ghost predicate Copied(store: map<Ptr, Bytes>, store': map<Ptr, Bytes>, dest: Ptr, bytes: Bytes, offset: nat)
  {
    offset <= |bytes| && store' == store[dest := bytes[..offset]]
  }

  lemma CopiedOn(store: map<Ptr, Bytes>, store1: map<Ptr, Bytes>, store2: map<Ptr, Bytes>, dest: Ptr, bytes: Bytes,
                 offset: nat, data: Bytes, cap: nat)
    requires Copied(store, store1, dest, bytes, offset) && data == Clip(bytes, offset, cap)
    requires Rewritten(store1, store2, dest) && Overwritten(bytes[..offset], store2[dest], offset, data)
    ensures Copied(store, store2, dest, bytes, offset + |data|)
  {
    AppendedAt(bytes, offset, data, store2[dest], cap);
    PutTwice(store, dest, bytes[..offset], store2[dest]);
  }

  /** Copies what one page takes. */
  method CopyPiece(arena: Arena, src: Ptr, dest: Ptr, offset: nat, areaPages: nat, ghost store: map<Ptr, Bytes>,
                   ghost bytes: Bytes) returns (n: nat)
    requires arena.Valid() && src in arena.chains && dest in arena.chains && src != dest && 0 < areaPages
    requires |bytes| <= Room(arena.capacity, |arena.chains[dest]|) && src in store && store[src] == bytes
    requires Copied(store, arena.store, dest, bytes, offset) && Packed(arena.heads, arena.chains[dest], arena.capacity)
    modifies arena, arena.areas, arena.areas.table
    ensures
      && arena.Valid() && Copied(store, arena.store, dest, bytes, offset + n)
      && Packed(arena.heads, old(arena.chains)[dest], arena.capacity) && arena.isPacked == old(arena.isPacked)
      && arena.isWhole == old(arena.isWhole)
    ensures n == 0 ==> offset == |bytes|
    ensures
      && arena.chains == old(arena.chains) && arena.buffers.Keys == old(arena.buffers.Keys)
      && arena.areas.View() == old(arena.areas.View())
  {
    var data, page, nextReadPos;
    ghost var i;
    data, page, nextReadPos, i := arena.LoadDataAt(src, offset, arena.capacity);
    ClipBound(bytes, offset, arena.capacity);
    n := |data|;
    if n == 0 {
      return;
    }
    ghost var store1 := arena.store;
    var ok, isChange, nextWritePos;
    ok, page, isChange, nextWritePos, i := arena.SetDataAt(dest, data, offset, areaPages);
    CopiedOn(store, store1, arena.store, dest, bytes, offset, data, arena.capacity);
  }

  /** Copies a byte string page by page to a chain that has room for it and stores nothing. */
  method CopyPageData(arena: Arena, src: Ptr, dest: Ptr, areaPages: nat)
    requires
      && arena.Valid() && src in arena.chains && dest in arena.chains && src != dest && arena.store[dest] == []
      && 0 < areaPages
    requires |arena.store[src]| <= Room(arena.capacity, |arena.chains[dest]|)
    modifies arena, arena.areas, arena.areas.table
    ensures arena.Valid() && arena.store == old(arena.store)[dest := old(arena.store)[src]]
    ensures arena.isPacked == old(arena.isPacked) && arena.isWhole == old(arena.isWhole)
    ensures
      && arena.chains == old(arena.chains) && arena.buffers.Keys == old(arena.buffers.Keys)
      && arena.areas.View() == old(arena.areas.View())
  {
    ghost var store, bytes := arena.store, arena.store[src];
    DestPacked(arena, dest);
    NoneCopied(store, dest, bytes);
    var offset: nat := 0;
    while true
      invariant
        && arena.Valid() && arena.chains == old(arena.chains) && arena.buffers.Keys == old(arena.buffers.Keys)
        && arena.areas.View() == old(arena.areas.View()) && arena.isPacked == old(arena.isPacked)
        && arena.isWhole == old(arena.isWhole)
      invariant
        && Copied(store, arena.store, dest, bytes, offset) && Packed(arena.heads, arena.chains[dest], arena.capacity)
      decreases |bytes| - offset
    {
      var n := CopyPiece(arena, src, dest, offset, areaPages, store, bytes);
      if n == 0 {
        break;
      }
      offset := offset + n;
    }
    assert bytes[..offset] == bytes;
  }

  lemma NoneCopied(store: map<Ptr, Bytes>, dest: Ptr, bytes: Bytes)
    requires dest in store && store[dest] == []
    ensures Copied(store, store, dest, bytes, 0)
  {
    assert store[dest := bytes[..0]] == store;
  }

  lemma DestPacked(arena: Arena, dest: Ptr)
    requires arena.Valid() && dest in arena.chains && arena.store[dest] == []
    ensures Packed(arena.heads, arena.chains[dest], arena.capacity)
  {
    ChainedIn(arena.heads, arena.buffers, arena.free, arena.chains, arena.owner, arena.pfreePages, arena.capacity,
      arena.areas.used, dest);
    TextAt(arena.store, arena.heads, arena.buffers, arena.chains, dest);
    EmptyPacked(arena.heads, arena.buffers, arena.chains[dest], arena.capacity);
  }

  lemma ClipBound(bytes: Bytes, offset: nat, cap: nat)
    requires offset <= |bytes| && 0 < cap
    ensures offset + |Clip(bytes, offset, cap)| <= |bytes| && (Clip(bytes, offset, cap) == [] ==> offset == |bytes|)
  {
  }

  lemma AppendedAt(bytes: Bytes, offset: nat, data: Bytes, now: Bytes, cap: nat)
    requires offset <= |bytes| && data == Clip(bytes, offset, cap) && Overwritten(bytes[..offset], now, offset, data)
    ensures offset + |data| <= |bytes| && now == bytes[..offset + |data|]
  {
  }

  // ---------------------------------------------------------------- the pages of the last area

  /** Whether `limit` free pages lie in the area; the walk ends when they are found. */
  method CountFreePages(arena: Arena, offset: nat, areaLength: nat, limit: nat) returns (enough: bool)
    requires arena.Valid()
    ensures enough <==> limit <= CountWithin(arena.free, offset, areaLength)
  {
    FreeNext(arena.heads, arena.buffers, arena.free, arena.chains, arena.owner, arena.pfreePages, arena.capacity,
      arena.areas.used);
    var p, count := arena.pfreePages, 0;
    ghost var k := 0;
    assert arena.free[0..] == arena.free;
    while p != NULL
      invariant k <= |arena.free| && p == (if k < |arena.free| then arena.free[k] else NULL)
      invariant count + CountWithin(arena.free[k..], offset, areaLength) == CountWithin(arena.free, offset, areaLength)
      decreases |arena.free| - k
    {
      assert arena.free[k..][0] == p && arena.free[k..][1..] == arena.free[k + 1..];
      if Within(p, offset, areaLength) {
        count := count + 1;
      }
      p := NextFree(arena, p, k);
      k := k + 1;
      if limit <= count {
        break;
      }
    }
    assert k == |arena.free| ==> arena.free[k..] == [];
    enough := limit <= count;
  }

  /** Takes the free pages of the area out of the free list for good. */
  method RemoveFreePages(arena: Arena, offset: nat, areaLength: nat)
    requires arena.Valid()
    modifies arena`heads, arena`buffers, arena`pfreePages, arena`freePageCount, arena`free, arena`chains, arena`owner
    modifies arena`store, arena`isWhole
    ensures arena.Valid() && arena.store == old(arena.store) && Avoids(arena.free, offset, areaLength)
    ensures forall p :: p in arena.free <==> p in old(arena.free) && !Within(p, offset, areaLength)
    ensures forall p :: p in arena.buffers <==> p in old(arena.buffers) && (p in old(arena.free) ==> p in arena.free)
  {
    FreeNext(arena.heads, arena.buffers, arena.free, arena.chains, arena.owner, arena.pfreePages, arena.capacity,
      arena.areas.used);
    FreePages(arena.heads, arena.buffers, arena.free, arena.chains, arena.owner, arena.pfreePages, arena.capacity,
      arena.areas.used);
    var p := arena.pfreePages;
    ghost var k := 0;
    while p != NULL
      invariant
        && arena.Valid() && arena.store == old(arena.store) && NULL !in arena.free && k <= |arena.free|
        && p == (if k < |arena.free| then arena.free[k] else NULL)
      invariant Avoids(arena.free[..k], offset, areaLength)
      invariant forall p ::
        p in arena.buffers <==> p in old(arena.buffers) && (p in old(arena.free) ==> p in arena.free)
      invariant forall p :: p in old(arena.free) && !Within(p, offset, areaLength) ==> p in arena.free
      invariant forall p :: p in arena.free ==> p in old(arena.free) && p in old(arena.buffers)
      decreases |arena.free| - k
    {
      var next := NextFree(arena, p, k);
      FreePages(arena.heads, arena.buffers, arena.free, arena.chains, arena.owner, arena.pfreePages, arena.capacity,
        arena.areas.used);
      if Within(p, offset, areaLength) {
        WithoutMembers(arena.free, k);
        assert Without(arena.free, k)[..k] == arena.free[..k];
        DropPage(arena, p, k);
      } else {
        assert arena.free[..k + 1] == arena.free[..k] + [p];
        k := k + 1;
      }
      p := next;
      FreeNext(arena.heads, arena.buffers, arena.free, arena.chains, arena.owner, arena.pfreePages, arena.capacity,
        arena.areas.used);
    }
    assert arena.free[..k] == arena.free;
  }

  /** Cuts one page off the free list; it is no page any more. */
  method DropPage(arena: Arena, p: Ptr, ghost k: nat)
    requires arena.Valid() && k < |arena.free| && p == arena.free[k]
    modifies arena`heads, arena`buffers, arena`pfreePages, arena`freePageCount, arena`free, arena`chains, arena`owner
    modifies arena`store, arena`isWhole
    ensures arena.Valid() && arena.store == old(arena.store) && arena.free == Without(old(arena.free), k)
    ensures arena.buffers == old(arena.buffers) - {p} && arena.chains == old(arena.chains)
  {
    ghost var chains, before := arena.chains, arena.store;
    CutOffPage(arena, p, k);
    PagedDropped(arena.heads, arena.buffers, arena.free, arena.chains, arena.owner, arena.pfreePages, arena.capacity,
      arena.areas.used, p);
    TextsDropped(arena.heads, arena.buffers, arena.free, arena.chains, arena.owner, arena.pfreePages, arena.capacity,
      arena.areas.used, p, arena.store);
    if arena.isPacked {
      PackedDropped(arena.heads, arena.buffers, arena.free, arena.chains, arena.owner, arena.pfreePages, arena.capacity,
        arena.areas.used, p);
    }
    arena.heads, arena.buffers, arena.isWhole := arena.heads - {p}, arena.buffers - {p}, false;
    arena.Settle(arena.free, arena.chains - {p}, arena.owner - {p}, arena.store - {p});
    ChainsBack(chains, p);
    PutAndTaken(before, p);
  }
}
