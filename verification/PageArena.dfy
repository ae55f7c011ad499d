/**
 The page allocator and the byte strings kept in page chains (K2HShm::ReservePages, PutBackPages,
 ExpandPages, ExpandPageArea; K2HPageMem::SetData, LoadData, Free).
 */
module PageArena {
  import opened Layout
  import opened AreaLayout
  import opened PageStore
  import opened PageWrites
  import opened PagePacking

  class Arena {
    var heads: Heads
    var buffers: Buffers
    var pfreePages: Ptr
    var freePageCount: nat
    const capacity: nat
    const areas: Areas

    ghost var free: seq<Ptr>
    ghost var chains: Chains
    ghost var owner: Owners
    /** The byte string of every chain. */
    ghost var store: map<Ptr, Bytes>
    /** Whether data was written from the front only into chains that stored nothing; then every chain is packed. */
    ghost var isPacked: bool
    /** Whether no page was taken out of an area that is still there; then every area for pages is made of pages. */
    ghost var isWhole: bool

    /** Every page is free or in one chain, and the counter does not promise more than the free list has. */
    ghost predicate Valid()
      reads this, areas, areas.table
    {
      && Paged(heads, buffers, free, chains, owner, pfreePages, capacity, areas.used)
      && freePageCount <= |free| && 0 < capacity && areas.Valid()
      && (forall p :: p in store <==> p in chains) && Texts(store, heads, buffers, chains)
      && (isPacked ==> AllPacked(heads, chains, capacity))
      && (isWhole ==> AreasWhole(buffers, areas.used, PageSize(capacity)))
    }

    constructor (areas: Areas, capacity: nat, areaPages: nat)
      requires areas.Valid() && areas.count < MAX_K2HAREA_COUNT && 0 < capacity && 0 < areaPages
      modifies areas, areas.table
      ensures Valid() && this.areas == areas && this.capacity == capacity
      ensures store == map[] && freePageCount == |free| == areaPages && areas.count == old(areas.count) + 1
      ensures isPacked && ((forall i | 0 <= i < |old(areas.used)| :: old(areas.used)[i].areaType != PAGE) ==> isWhole)
      ensures old(areas.used) <= areas.used
    {
      this.areas, this.capacity := areas, capacity;
      heads, buffers, pfreePages, freePageCount := map[], map[], NULL, 0;
      free, chains, owner, store, isPacked := [], map[], map[], map[], true;
      isWhole := forall i | 0 <= i < |areas.used| :: areas.used[i].areaType != PAGE;
      new;
      if isWhole {
        NoneWhole(map[], areas.used, PageSize(capacity));
      }
      NonePacked(map[], capacity);
      PagedIs(map[], map[], [], map[], map[], NULL, capacity, areas.used);
      TextsAre(map[], map[], map[], map[]);
      AllChainedIs(map[], map[], map[]);
      var ok := ExpandPageArea(areaPages);
    }

    /** Notes in which lists the pages are now, and what they store. */
    ghost method Settle(free': seq<Ptr>, chains': Chains, owner': Owners, store': map<Ptr, Bytes>)
      requires Paged(heads, buffers, free', chains', owner', pfreePages, capacity, areas.used)
      requires freePageCount <= |free'| && 0 < capacity && areas.Valid()
      requires (forall p :: p in store' <==> p in chains') && Texts(store', heads, buffers, chains')
      requires isPacked ==> AllPacked(heads, chains', capacity)
      requires isWhole ==> AreasWhole(buffers, areas.used, PageSize(capacity))
      modifies this`free, this`chains, this`owner, this`store
      ensures Valid() && free == free' && chains == chains' && owner == owner' && store == store'
    {
      free, chains, owner, store := free', chains', owner', store';
    }

    /** Links the pages of a new area to each other and the last of them to `last`. */
    method InitializePageArray(start: Ptr, count: nat, last: Ptr)
      requires Distinct(Pages(start, count, PageSize(capacity)))
      requires forall p | p in heads :: p !in Pages(start, count, PageSize(capacity))
      requires forall p :: p in heads <==> p in buffers
      modifies this`heads, this`buffers
      ensures AreaMade(old(heads), old(buffers), heads, buffers, Pages(start, count, PageSize(capacity)), last,
        capacity)
    {
      ghost var more := Pages(start, count, PageSize(capacity));
      var page, n := start, 0;
      while n < count
        invariant 0 <= n <= count
        invariant n < count ==> page == more[n]
        invariant forall p :: p in heads <==> p in old(heads) || p in more[..n]
        invariant forall p :: p in heads <==> p in buffers
        invariant forall p | p in old(heads) :: heads[p] == old(heads)[p] && buffers[p] == old(buffers)[p]
        invariant forall i | 0 <= i < n :: PageAt(heads, more, i, last)
        invariant forall p | p in more[..n] :: heads[p].length == 0 && |buffers[p]| == capacity
      {
        PagesAt(start, count, PageSize(capacity), n);
        if 0 < n {
          PagesAt(start, count, PageSize(capacity), n - 1);
        }
        ghost var h := heads;
        heads := heads[page := Head(if n == 0 then NULL else page - PageSize(capacity),
                                    if n + 1 < count then page + PageSize(capacity) else last, 0)];
        buffers := buffers[page := seq(capacity, i => 0)];
        OneMorePage(h, heads, more, n, last);
        page := page + PageSize(capacity);
        n := n + 1;
      }
      assert more[..count] == more;
    }

    /** Adds an area of pages in front of the free list; fails when the areas array is full. */
    method ExpandPageArea(pageCount: nat) returns (ok: bool)
      requires Valid() && 0 < pageCount
      modifies this`heads, this`buffers, this`pfreePages, this`freePageCount, this`free, areas, areas.table
      ensures Valid() && old(areas.used) <= areas.used
      ensures ok <==> old(areas.count) < MAX_K2HAREA_COUNT
      ensures store == old(store)
      ensures areas.count == if ok then old(areas.count) + 1 else old(areas.count)
      ensures freePageCount == old(freePageCount) + if ok then pageCount else 0
      ensures |free| == |old(free)| + if ok then pageCount else 0
      ensures SameLengths(old(heads), heads)
    {
      var start;
      ok, start := areas.ExpandArea(PAGE, Room(PageSize(capacity), pageCount));
      if !ok {
        PagedWider(heads, buffers, free, chains, owner, pfreePages, capacity, old(areas.used), areas.used);
        return;
      }
      ghost var h, d := heads, buffers;
      LinkPageArea(start, pageCount, old(areas.used));
      if isWhole {
        WholeExpanded(d, buffers, old(areas.used), start, pageCount, PageSize(capacity));
      }
      if isPacked {
        PackedKept(h, heads, chains, chains, capacity);
      }
    }

    /** Makes the first free page come after `last`. */
    method LinkLast(last: Ptr)
      requires pfreePages == NULL || pfreePages in heads
      modifies this`heads
      ensures pfreePages == NULL || pfreePages in old(heads)
      ensures heads == PagesLinked(old(heads), pfreePages, last)
    {
      if pfreePages != NULL {
        heads := heads[pfreePages := heads[pfreePages].(prev := last)];
      }
    }

    /** Puts the pages from start on in front of the free list. */
    method LinkPageArea(start: Ptr, pageCount: nat, ghost used: seq<Area>)
      requires
        && Paged(heads, buffers, free, chains, owner, pfreePages, capacity, used) && EndBy(used, start) && 0 < pageCount
        && 0 < start && 0 < capacity
      requires Texts(store, heads, buffers, chains)
      modifies this`heads, this`buffers, this`pfreePages, this`freePageCount, this`free
      ensures Paged(heads, buffers, free, chains, owner, pfreePages, capacity,
          used + [Area(PAGE, start, Room(PageSize(capacity), pageCount))])
      ensures Texts(store, heads, buffers, chains)
      ensures freePageCount == old(freePageCount) + pageCount && |free| == |old(free)| + pageCount
      ensures SameLengths(old(heads), heads) && forall p | p in old(buffers) :: p in buffers
      ensures forall p | p in Pages(start, pageCount, PageSize(capacity)) :: p in buffers
    {
      ghost var more, h, d := Pages(start, pageCount, PageSize(capacity)), heads, buffers;
      FreshPages(h, d, free, chains, owner, pfreePages, capacity, used, start, pageCount);
      InitializePageArray(start, pageCount, pfreePages);
      AreaMadeIn(h, d, heads, buffers, more, pfreePages, capacity);
      PagedExpanded(h, d, heads, buffers, free, chains, owner, pfreePages, capacity, used, start, pageCount, more);
      TextsExpanded(h, d, heads, buffers, free, chains, owner, pfreePages, capacity, used, start, pageCount, more,
        store);
      ghost var h' := PagesLinked(heads, pfreePages, start + Room(PageSize(capacity), pageCount - 1));
      LinkLast(start + Room(PageSize(capacity), pageCount - 1));
      assert heads == h';
      pfreePages := start;
      freePageCount := freePageCount + pageCount;
      free := more + free;
    }

    /**
     Takes enough pages for length bytes, and no more, off the free list as a chain that stores
     nothing; null when an area is needed for that and cannot be added.
     */
    method ReservePages(length: nat, areaPages: nat) returns (page: Ptr)
      requires Valid() && 0 < length && 0 < areaPages
      modifies this, areas, areas.table
      ensures Valid() && old(areas.used) <= areas.used
      ensures page == NULL ==> store == old(store) && areas.count == MAX_K2HAREA_COUNT
      ensures page != NULL ==>
        && page !in old(store) && store == old(store)[page := []]
        && page in chains && Takes(capacity, length, |chains[page]|) && chains == old(chains)[page := chains[page]]
      ensures page == NULL ==> chains == old(chains)
      ensures SameLengths(old(heads), heads) && areas.count <= old(areas.count) + length
      ensures isPacked == old(isPacked) && isWhole == old(isWhole)
    {
      while Room(capacity, freePageCount) < length
        invariant Valid() && store == old(store) && chains == old(chains) && old(areas.used) <= areas.used
        invariant SameLengths(old(heads), heads) && isPacked == old(isPacked) && isWhole == old(isWhole)
        invariant
          && old(areas.count) <= areas.count <= old(areas.count) + length
          && areas.count - old(areas.count) <= Room(capacity, freePageCount)
        decreases length - Room(capacity, freePageCount)
      {
        ghost var count := freePageCount;
        var ok := ExpandPageArea(areaPages);
        if !ok {
          return NULL;
        }
        MoreRoom(capacity, count, freePageCount);
      }
      page := TakePages(length);
    }

    /** The free page that completes length bytes, counted from the top of the free list. */
    method WalkFree(length: nat) returns (last: Ptr, rpageCount: nat)
      requires Valid() && 0 < length <= Room(capacity, freePageCount)
      ensures rpageCount <= freePageCount && Takes(capacity, length, rpageCount)
      ensures last == free[rpageCount - 1]
    {
      FreeNext(heads, buffers, free, chains, owner, pfreePages, capacity, areas.used);
      last, rpageCount := pfreePages, 1;
      assert freePageCount > 0 && PageAt(heads, free, 0, NULL);
      while Room(capacity, rpageCount) < length
        invariant 1 <= rpageCount <= freePageCount && last == free[rpageCount - 1] && last in heads
        invariant Room(capacity, rpageCount - 1) < length
        decreases freePageCount - rpageCount
      {
        FewerPages(capacity, rpageCount, freePageCount);
        assert PageAt(heads, free, rpageCount - 1, NULL) && PageAt(heads, free, rpageCount, NULL);
        last := heads[last].next;
        rpageCount := rpageCount + 1;
      }
    }

    /** Cuts the free list behind its page `last`, the one with number n - 1. */
    method CutBehind(last: Ptr, n: nat)
      requires Valid() && 0 < n <= freePageCount && last == free[n - 1] && last in heads
      modifies this`heads, this`pfreePages, this`freePageCount
      ensures last in old(heads) && (n < |free| ==> free[n] in old(heads))
      ensures heads == CutFree(old(heads), free, n) && pfreePages == (if n == |free| then NULL else free[n])
      ensures freePageCount <= |free| - n && SameLengths(old(heads), heads)
    {
      ghost var h := heads;
      FreeNext(h, buffers, free, chains, owner, pfreePages, capacity, areas.used);
      NextInFree(h, free, n);
      var next := heads[last].next;
      if next != NULL {
        heads := heads[next := heads[next].(prev := NULL)];
        pfreePages := next;
        freePageCount := freePageCount - n;
        heads := heads[last := heads[last].(next := NULL)];
      } else {
        pfreePages := NULL;
        freePageCount := 0;
      }
    }

    /** The list part of ReservePages. */
    method TakePages(length: nat) returns (page: Ptr)
      requires Valid() && 0 < length <= Room(capacity, freePageCount)
      modifies this`heads, this`pfreePages, this`freePageCount, this`free, this`chains, this`owner, this`store
      ensures Valid()
      ensures page != NULL && page !in old(store) && store == old(store)[page := []]
      ensures page in chains && Takes(capacity, length, |chains[page]|) && chains == old(chains)[page := chains[page]]
      ensures SameLengths(old(heads), heads)
    {
      page := pfreePages;
      var last, rpageCount := WalkFree(length);
      ChainTaken(heads, buffers, free, chains, owner, pfreePages, capacity, areas.used, rpageCount, store, isPacked);
      ghost var h' := CutFree(heads, free, rpageCount);
      ghost var free', chains', owner', store' := free[rpageCount..], chains[page := free[..rpageCount]], Owned(owner,
        free[..rpageCount], page), store[page := []];
      CutBehind(last, rpageCount);
      assert heads == h';
      Settle(free', chains', owner', store');
    }

    // ---------------------------------------------------------------- writing a chain

    /**
     Overwrites the chain from its first page on, one full page after the other; pages that are not
     reached stay as they are.  Fails when the chain is too short, after filling it.
     */
    method SetData(head: Ptr, bytes: Bytes) returns (ok: bool, ghost used: nat)
      requires Valid() && head in chains
      modifies this`heads, this`buffers, this`store, this`isPacked
      ensures Valid() && head in old(store) && isPacked == (old(isPacked) && old(store)[head] == [])
      ensures ok <==> |bytes| <= Room(capacity, |chains[head]|)
      ensures used <= |chains[head]|
      ensures ok ==> if bytes == [] then used == 0 else Takes(capacity, |bytes|, used)
      ensures ok ==> store == old(store)[head := bytes + Contents(old(heads), old(buffers), chains[head][used..])]
      ensures ok && bytes != [] ==> AllFull(heads, chains[head][..used - 1], capacity)
    {
      ghost var chain, h0, d0 := chains[head], heads, buffers;
      WritingStarts(heads, buffers, free, chains, owner, pfreePages, capacity, areas.used, head);
      var rest;
      rest, used := WriteChain(head, bytes, chain);
      ok := |rest| == 0;
      FillingEnds(capacity, bytes, rest, used, |chain|);
      ChainFilled(h0, d0, heads, buffers, free, chains, owner, pfreePages, capacity, areas.used, head, used,
        Done(bytes, rest), rest, store, isPacked);
      if isWhole {
        ChainWhole(d0, h0, buffers, heads, owner, head, chain, capacity, used, Done(bytes, rest), areas.used);
      }
      isPacked := isPacked && store[head] == [];
      store := store[head := Contents(heads, buffers, chain)];
    }

    /** The loop of SetData over the pages. */
    method WriteChain(head: Ptr, bytes: Bytes, ghost chain: seq<Ptr>) returns (rest: Bytes, ghost used: nat)
      requires
        && 0 < capacity && chain != [] && chain[0] == head
        && WritingAt(heads, buffers, heads, buffers, owner, head, chain, capacity, 0, [])
      modifies this`heads, this`buffers
      ensures used <= |chain| && Filling(capacity, bytes, rest, used) && (rest == [] || used == |chain|)
      ensures WritingAt(old(heads), old(buffers), heads, buffers, owner, head, chain, capacity, used, Done(bytes, rest))
      ensures AllFull(heads, chain[..FullCount(rest, used)], capacity)
    {
      ghost var h0, d0 := heads, buffers;
      var page := head;
      rest, used := bytes, 0;
      while 0 < |rest| && page != NULL
        invariant used <= |chain| && page == if used < |chain| then chain[used] else NULL
        invariant WritingAt(h0, d0, heads, buffers, owner, head, chain, capacity, used, Done(bytes, rest))
        invariant Filling(capacity, bytes, rest, used)
        invariant AllFull(heads, chain[..FullCount(rest, used)], capacity)
        decreases |rest|
      {
        var one := if |rest| < capacity then |rest| else capacity;
        FillingStep(capacity, bytes, rest, used, one);
        WritingIs(h0, d0, heads, buffers, owner, head, chain, capacity, used, Done(bytes, rest));
        FullStep(heads, chain, capacity, rest, used, one);
        page := FillPage(page, rest[..one], h0, d0, head, chain, used, Done(bytes, rest));
        rest := rest[one..];
        used := used + 1;
      }
      WritingIs(h0, d0, heads, buffers, owner, head, chain, capacity, used, Done(bytes, rest));
    }

    /** Stores `piece` in one page of a chain; its successor is the next to be written. */
    method FillPage(page: Ptr, piece: Bytes, ghost h0: Heads, ghost d0: Buffers, ghost head: Ptr, ghost chain: seq<Ptr>,
                    ghost i: nat, ghost done: Bytes)
      returns (next: Ptr)
      requires i < |chain| && page == chain[i] && |piece| <= capacity
      requires WritingAt(h0, d0, heads, buffers, owner, head, chain, capacity, i, done)
      modifies this`heads, this`buffers
      ensures WritingAt(h0, d0, heads, buffers, owner, head, chain, capacity, i + 1, done + piece)
      ensures next == if i + 1 < |chain| then chain[i + 1] else NULL
      ensures page in old(heads) && heads == old(heads)[page := old(heads)[page].(length := |piece|)]
    {
      WritingPage(h0, d0, heads, buffers, owner, head, chain, capacity, i, done);
      var buffer := piece + buffers[page][|piece|..];
      WritingStep(h0, d0, heads, buffers, owner, head, chain, capacity, i, done, |piece|, buffer);
      assert buffer[..|piece|] == piece;
      heads := heads[page := heads[page].(length := |piece|)];
      buffers := buffers[page := buffer];
      next := heads[page].next;
    }

    // ---------------------------------------------------------------- reading a chain

    /** All bytes of a chain. */
    method LoadData(head: Ptr) returns (data: Bytes)
      requires Valid() && head in chains
      ensures data == store[head]
    {
      ghost var chain := chains[head];
      TextAt(store, heads, buffers, chains, head);
      ChainedIn(heads, buffers, free, chains, owner, pfreePages, capacity, areas.used, head);
      ChainStep(heads, chain, 0);
      data := buffers[head][..heads[head].length];
      var next := heads[head].next;
      ghost var i := 1;
      ContentsSplit(heads, buffers, chain, 0);
      assert chain[..0] == [];
      while next != NULL
        invariant 1 <= i <= |chain| && next == if i < |chain| then chain[i] else NULL
        invariant data == Contents(heads, buffers, chain[..i])
        decreases |chain| - i
      {
        ChainStep(heads, chain, i);
        ContentsSplit(heads, buffers, chain, i);
        data := data + buffers[next][..heads[next].length];
        next := heads[next].next;
        i := i + 1;
      }
      assert chain[..i] == chain;
    }

    /**
     At most length bytes from offset on, with the page and the position in it from which reading
     goes on.
     */
    method LoadDataAt(head: Ptr, offset: nat, length: nat)
      returns (data: Bytes, page: Ptr, nextReadPos: nat, ghost i: nat)
      requires Valid() && head in chains
      ensures data == Clip(store[head], offset, length)
      ensures i < |chains[head]| && page == chains[head][i]
      ensures Drop(Contents(heads, buffers, chains[head][i..]), nextReadPos) == Drop(store[head], offset + |data|)
    {
      TextAt(store, heads, buffers, chains, head);
      ChainedIn(heads, buffers, free, chains, owner, pfreePages, capacity, areas.used, head);
      ghost var left;
      data, page, nextReadPos, left, i := ReadChain(head, offset, length, chains[head]);
      ReadingDone(store[head], offset, length, data, Contents(heads, buffers, chains[head][i..]), nextReadPos, left);
    }

    /** The loop of LoadDataAt over the pages. */
    method ReadChain(head: Ptr, offset: nat, length: nat, ghost chain: seq<Ptr>)
    returns (data: Bytes, page: Ptr, nextReadPos: nat, left: nat, ghost i: nat)
      requires PageList(heads, chain) && chain != [] && chain[0] == head
      requires forall p | p in chain :: p in heads && p in buffers && heads[p].length <= |buffers[p]|
      ensures i < |chain| && page == chain[i]
      ensures Reading(Contents(heads, buffers, chain), offset, length, data, Contents(heads, buffers, chain[i..]),
          nextReadPos, left)
      ensures left == 0 || Drop(Contents(heads, buffers, chain[i..]), nextReadPos) == []
    {
      ghost var whole := Contents(heads, buffers, chain);
      data, page, nextReadPos, left, i := [], head, offset, length, 0;
      assert chain[0..] == chain;
      while true
        invariant i < |chain| && page == chain[i]
        invariant Reading(whole, offset, length, data, Contents(heads, buffers, chain[i..]), nextReadPos, left)
        decreases |chain| - i
      {
        ChainStep(heads, chain, i);
        var piece, at, nextOffset := ReadPage(page, nextReadPos, left);
        ReadingStep(heads, buffers, chain, i, whole, offset, length, data, nextReadPos, left, piece, at, nextOffset);
        data, left, nextReadPos := data + piece, left - |piece|, at;
        if left == 0 || heads[page].next == NULL {
          return;
        }
        page, nextReadPos, i := heads[page].next, nextOffset, i + 1;
      }
    }

    /** The part of LoadDataAt within one page. */
    method ReadPage(page: Ptr, at: nat, left: nat) returns (piece: Bytes, newPos: nat, nextOffset: nat)
      requires page in heads && page in buffers && heads[page].length <= |buffers[page]|
      ensures PageRead(PageBytes(heads, buffers, page), at, left, piece, newPos, nextOffset)
    {
      if heads[page].length <= at {
        return [], at, at - heads[page].length;
      }
      var n := if heads[page].length - at < left then heads[page].length - at else left;
      return buffers[page][at..at + n], at + n, 0;
    }

    // ---------------------------------------------------------------- giving chains back and extending them

    /** Frees a chain: its pages store nothing any more and come first in the free list. */
    method Free(head: Ptr)
      requires Valid() && head in chains
      modifies this`heads, this`pfreePages, this`freePageCount, this`free, this`chains, this`owner, this`store
      ensures Valid()
      ensures store == old(store) - {head} && chains == old(chains) - {head}
      ensures free == old(chains)[head] + old(free)
    {
      var last, pageCount := ClearLengths(head);
      EmptyChain(heads, buffers, free, chains, owner, pfreePages, capacity, areas.used, head);
      PutBackPages(head, last, pageCount);
      assert store == old(store) - {head};
    }

    /** Sets every length of a chain to zero and counts its pages. */
    method ClearLengths(head: Ptr) returns (last: Ptr, pageCount: nat)
      requires Valid() && head in chains
      modifies this`heads, this`store
      ensures Valid() && chains[head] != []
      ensures store == old(store)[head := []] && Contents(heads, buffers, chains[head]) == []
      ensures pageCount == |chains[head]| && last == chains[head][pageCount - 1]
    {
      ghost var chain, h0 := chains[head], heads;
      WritingStarts(heads, buffers, free, chains, owner, pfreePages, capacity, areas.used, head);
      var page := head;
      last, pageCount := head, 0;
      while page != NULL
        invariant pageCount <= |chain| && page == if pageCount < |chain| then chain[pageCount] else NULL
        invariant WritingAt(h0, buffers, heads, buffers, owner, head, chain, capacity, pageCount, [])
        invariant 0 < pageCount ==> last == chain[pageCount - 1]
        invariant Texts(store, h0, buffers, chains) && store == old(store)
        decreases |chain| - pageCount
      {
        WritingPage(h0, buffers, heads, buffers, owner, head, chain, capacity, pageCount, []);
        WritingStep(h0, buffers, heads, buffers, owner, head, chain, capacity, pageCount, [], 0, buffers[page]);
        assert buffers[page := buffers[page]] == buffers && [] + buffers[page][..0] == [];
        heads := heads[page := heads[page].(length := 0)];
        last := page;
        page := heads[page].next;
        pageCount := pageCount + 1;
      }
      WritingEnds(h0, buffers, heads, buffers, owner, head, chain, capacity, pageCount, []);
      assert Contents(h0, buffers, chain[pageCount..]) == [];
      PagedWritten(h0, buffers, heads, buffers, free, chains, owner, pfreePages, capacity, areas.used, head);
      TextsWritten(h0, buffers, heads, buffers, free, chains, owner, pfreePages, capacity, areas.used, head, store);
      store := store[head := Contents(heads, buffers, chain)];
      if isPacked {
        PackedCleared(h0, heads, buffers, free, chains, owner, pfreePages, capacity, areas.used, head);
      }
    }

    /**
     Links a chain whose pages store nothing in front of the free list.  The counter follows only as
     long as it does not have fewer pages than come back; otherwise it starts again from zero.
     */
    method PutBackPages(top: Ptr, last: Ptr, pageCount: nat)
      requires
        && Valid() && top in chains && chains[top] != [] && last == chains[top][|chains[top]| - 1]
        && pageCount == |chains[top]|
      requires forall p | p in chains[top] && p in heads :: heads[p].length == 0
      modifies this`heads, this`pfreePages, this`freePageCount, this`free, this`chains, this`owner, this`store
      ensures Valid()
      ensures store == old(store) - {top} && free == old(chains)[top] + old(free) && chains == old(chains) - {top}
      ensures freePageCount == if pageCount <= old(freePageCount) then old(freePageCount) + pageCount else 0
    {
      ChainFreed(heads, buffers, free, chains, owner, pfreePages, capacity, areas.used, top, store, isPacked);
      ghost var h', free', chains', owner', store' := GivenBack(heads, chains[top], pfreePages), chains[top] + free,
        chains - {top}, Disowned(owner, chains[top]), store - {top};
      LinkFree(last, chains[top]);
      freePageCount := if pageCount <= freePageCount then freePageCount + pageCount else 0;
      pfreePages := top;
      assert heads == h';
      Settle(free', chains', owner', store');
    }

    /** Makes the page `last` lead on to the free list. */
    method LinkFree(last: Ptr, ghost chain: seq<Ptr>)
      requires
        && chain != [] && last == chain[|chain| - 1] && last in heads && (pfreePages != NULL ==> pfreePages in heads)
      modifies this`heads
      ensures last in old(heads) && heads == GivenBack(old(heads), chain, pfreePages)
    {
      heads := heads[last := heads[last].(next := pfreePages)];
      if pfreePages != NULL {
        heads := heads[pfreePages := heads[pfreePages].(prev := last)];
      }
    }

    /** Links enough pages for length bytes, which store nothing, behind the last page of a chain. */
    method ExpandPages(last: Ptr, length: nat, areaPages: nat, ghost head: Ptr) returns (ok: bool)
      requires Valid() && 0 < length && 0 < areaPages
      requires head in chains && chains[head] != [] && last == chains[head][|chains[head]| - 1]
      modifies this, areas, areas.table
      ensures Valid() && old(areas.used) <= areas.used
      ensures store == old(store) && head in chains
      ensures !ok ==> areas.count == MAX_K2HAREA_COUNT && chains == old(chains)
      ensures ok ==>
        && |chains[head]| > |old(chains)[head]| && chains[head][..|old(chains)[head]|] == old(chains)[head]
        && Takes(capacity, length, |chains[head]| - |old(chains)[head]|)
        && Contents(heads, buffers, chains[head][|old(chains)[head]|..]) == []
        && SameLengths(old(heads), heads)
      ensures isPacked == old(isPacked) && isWhole == old(isWhole)
    {
      ghost var chain, before := chains[head], store;
      var newPages := ReservePages(length, areaPages);
      if newPages == NULL {
        return false;
      }
      LinkBehind(last, newPages, head);
      assert before[newPages := []] - {newPages} == before;
      return true;
    }

    /** The two link writes of ExpandPages. */
    method JoinHeads(last: Ptr, newPages: Ptr, ghost l1: seq<Ptr>, ghost l2: seq<Ptr>)
      requires
        && l1 != [] && l2 != [] && last == l1[|l1| - 1] && newPages == l2[0] && last in heads && newPages in heads
        && last != newPages
      modifies this`heads
      ensures last in old(heads) && newPages in old(heads) && heads == Joined(old(heads), l1, l2)
    {
      heads := heads[newPages := heads[newPages].(prev := last)];
      heads := heads[last := heads[last].(next := newPages)];
    }

    /** Links a chain that stores nothing behind another one. */
    method LinkBehind(last: Ptr, newPages: Ptr, ghost head: Ptr)
      requires Valid() && head in chains && chains[head] != [] && last == chains[head][|chains[head]| - 1]
      requires newPages in chains && newPages != head && store[newPages] == []
      modifies this`heads, this`free, this`chains, this`owner, this`store
      ensures Valid() && free == old(free)
      ensures store == old(store) - {newPages}
      ensures chains == (old(chains) - {newPages})[head := old(chains)[head] + old(chains)[newPages]]
      ensures Contents(heads, buffers, old(chains)[newPages]) == [] && SameLengths(old(heads), heads)
    {
      ghost var h, l1, l2 := heads, chains[head], chains[newPages];
      ChainsJoined(h, buffers, free, chains, owner, pfreePages, capacity, areas.used, head, newPages, store);
      if isPacked {
        PackedJoined(h, buffers, free, chains, owner, pfreePages, capacity, areas.used, head, newPages, store);
      }
      ghost var h', chains', owner' := Joined(h, l1, l2), (chains - {newPages})[head := l1 + l2],
        Owned(owner, l2, head);
      JoinHeads(last, newPages, l1, l2);
      assert heads == h';
      Settle(free, chains', owner', store - {newPages});
    }

    /** A new chain that stores the given bytes; no chain, and null, for no bytes. */
    method ReserveData(bytes: Bytes, areaPages: nat) returns (ok: bool, page: Ptr)
      requires Valid() && 0 < areaPages
      modifies this, areas, areas.table
      ensures Valid() && old(areas.used) <= areas.used
      ensures !ok ==> areas.count == MAX_K2HAREA_COUNT && page == NULL && store == old(store)
      ensures ok && bytes == [] ==> page == NULL && store == old(store)
      ensures ok && bytes != [] ==>
        && page != NULL && page !in old(store) && store == old(store)[page := bytes] && page in chains
        && Packed(heads, chains[page], capacity)
      ensures areas.count <= old(areas.count) + |bytes| && isPacked == old(isPacked) && isWhole == old(isWhole)
    {
      ok, page := true, NULL;
      if 0 < |bytes| {
        page := ReservePages(|bytes|, areaPages);
        if page == NULL {
          return false, NULL;
        }
        TakesAtMost(capacity, |bytes|, |chains[page]|, |chains[page]|);
        ghost var h, d := heads, buffers;
        ghost var used;
        ok, used := SetData(page, bytes);
        TakesUnique(capacity, |bytes|, |chains[page]|, used);
        assert bytes + Contents(h, d, chains[page][used..]) == bytes;
        PackedBehindFull(heads, chains[page], used - 1, capacity);
        assert old(store)[page := []][page := bytes] == old(store)[page := bytes];
      }
    }

    // ---------------------------------------------------------------- writing at an offset

    /** Writes `piece` at `at` into page i of a chain, which grows as far as needed. */
    method PutInPage(page: Ptr, at: nat, piece: Bytes, ghost head: Ptr, ghost i: nat) returns (isGrown: bool)
      requires Valid() && head in chains && i < |chains[head]| && page == chains[head][i] && at + |piece| <= capacity
      requires page in heads && page in buffers && |buffers[page]| == capacity && heads[page].length <= capacity
      requires Packed(HeadsPut(heads, page, at, piece), chains[head], capacity)
      modifies this`heads, this`buffers, this`store
      ensures Valid() && store == old(store)[head := Contents(heads, buffers, chains[head])]
      ensures Contents(heads, buffers, chains[head][..i]) == Contents(old(heads), old(buffers), chains[head][..i])
      ensures Contents(heads, buffers, chains[head][i + 1..]) ==
        Contents(old(heads), old(buffers), chains[head][i + 1..])
      ensures PageBytes(heads, buffers, page) ==
        Patched(old(buffers)[page], at, piece)[..Grown(old(heads)[page].length, at, piece)]
      ensures heads == HeadsPut(old(heads), page, at, piece) && buffers.Keys == old(buffers.Keys)
      ensures isGrown <==> old(heads)[page].length < at + |piece|
    {
      PagePut(heads, buffers, free, chains, owner, pfreePages, capacity, areas.used, head, i, at, piece, store);
      if isPacked {
        PagePutPacked(heads, buffers, free, chains, owner, pfreePages, capacity, areas.used, head, i, at, piece);
      }
      isGrown := heads[page].length < at + |piece|;
      if isGrown {
        heads := heads[page := heads[page].(length := at + |piece|)];
      }
      assert heads == HeadsPut(old(heads), page, at, piece);
      buffers := buffers[page := Patched(buffers[page], at, piece)];
      if isWhole {
        WholeWritten(old(buffers), buffers, areas.used, PageSize(capacity));
      }
      store := store[head := Contents(heads, buffers, chains[head])];
    }

    /** Writes what page i takes of a write that goes on with it. */
    method PatchPage(head: Ptr, page: Ptr, at: nat, rest: Bytes, ghost i: nat, ghost a: Bytes, ghost offset: nat,
                     ghost bytes: Bytes)
      returns (isGrown: bool, n: nat)
      requires Valid() && head in chains && i < |chains[head]| && page == chains[head][i]
      requires PatchingAt(a, offset, bytes, heads, buffers, chains[head], capacity, i, at, rest)
      modifies this`heads, this`buffers, this`store
      ensures
        && Valid() && store == old(store)[head := Contents(heads, buffers, chains[head])]
        && buffers.Keys == old(buffers.Keys)
      ensures n == PutLength(capacity, at, |rest|) && n <= |rest|
      ensures isGrown ==> |a| < offset + |bytes|
      ensures n == |rest| && !isGrown ==> offset + |bytes| <= |a|
      ensures n == |rest| ==>
        && Overwritten(a, Contents(heads, buffers, chains[head]), offset, bytes)
        && Room(capacity, i) + at + |rest| == offset + |bytes|
        && Packed(heads, chains[head], capacity)
      ensures n < |rest| ==>
        PatchingAt(a, offset, bytes, heads, buffers, chains[head], capacity, i + 1,
          if capacity <= at then at - capacity else 0, rest[n..])
    {
      ghost var h, d, chain := heads, buffers, chains[head];
      ChainPage(h, d, free, chains, owner, pfreePages, capacity, areas.used, head, i);
      n := PutLength(capacity, at, |rest|);
      PatchingPacked(a, offset, bytes, h, d, chain, capacity, i, at, rest);
      GrowsBeyond(a, offset, bytes, h, d, chain, capacity, i, at, rest);
      isGrown := PutInPage(page, PutPos(capacity, at), rest[..n], head, i);
      if n == |rest| {
        assert rest[..n] == rest;
        PatchingIs(a, offset, bytes, h, d, chain, capacity, i, at, rest);
        PatchingFinished(a, offset, bytes, h, d, heads, buffers, chain, capacity, i, at, rest);
      } else {
        PatchingPage(a, offset, bytes, h, d, heads, buffers, chain, capacity, i, at, rest, n, page);
      }
    }

    /** The page behind page i, new when there was none. */
    method NextPage(head: Ptr, page: Ptr, at: nat, rest: Bytes, areaPages: nat, ghost i: nat, ghost a: Bytes,
                    ghost offset: nat, ghost bytes: Bytes)
      returns (ok: bool, next: Ptr, isExpanded: bool)
      requires Valid() && head in chains && i < |chains[head]| && page == chains[head][i] && 0 < areaPages && 0 < |rest|
      requires PatchingAt(a, offset, bytes, heads, buffers, chains[head], capacity, i + 1, at, rest)
      modifies this, areas, areas.table
      ensures Valid() && old(areas.used) <= areas.used
      ensures store == old(store) && head in chains
      ensures isPacked == old(isPacked) && isWhole == old(isWhole) && (!ok ==> areas.count == MAX_K2HAREA_COUNT)
      ensures !ok || isExpanded ==> |a| < offset + |bytes|
      ensures !ok ==> head in store && |store[head]| == Room(capacity, |chains[head]|) && chains == old(chains)
      ensures i + 1 < |old(chains)[head]| ==>
        ok && buffers == old(buffers) && chains == old(chains) && areas.View() == old(areas.View())
      ensures ok ==>
        && i + 1 < |chains[head]| && next == chains[head][i + 1]
        && PatchingAt(a, offset, bytes, heads, buffers, chains[head], capacity, i + 1, at, rest)
    {
      ghost var h, d, chain := heads, buffers, chains[head];
      ChainPage(h, d, free, chains, owner, pfreePages, capacity, areas.used, head, i);
      TextAt(store, h, d, chains, head);
      ok, next, isExpanded := true, heads[page].next, false;
      if next == NULL {
        assert i + 1 == |chain|;
        NoPageLeft(a, offset, bytes, h, d, chain, capacity, at, rest);
        ChainedIn(h, d, free, chains, owner, pfreePages, capacity, areas.used, head);
        FullContents(h, d, chain, capacity);
        ok := ExpandPages(page, |rest|, areaPages, head);
        if !ok {
          return;
        }
        isExpanded := true;
        ChainPage(heads, buffers, free, chains, owner, pfreePages, capacity, areas.used, head, i);
        TextAt(store, heads, buffers, chains, head);
        PatchingLonger(a, offset, bytes, h, d, chain, heads, buffers, chains[head], capacity, at, rest);
        assert page == chains[head][i];
        next := heads[page].next;
      }
    }

    /** Writes what page i takes; what is left of the bytes is for the page behind it. */
    method PatchOne(head: Ptr, page: Ptr, at: nat, rest: Bytes, ghost i: nat, ghost a: Bytes, ghost offset: nat,
                    ghost bytes: Bytes)
      returns (at': nat, rest': Bytes, changed: bool)
      requires Valid() && head in chains && i < |chains[head]| && page == chains[head][i] && rest != []
      requires PatchingAt(a, offset, bytes, heads, buffers, chains[head], capacity, i, at, rest)
      modifies this`heads, this`buffers, this`store
      ensures Valid() && Rewritten(old(store), store, head) && buffers.Keys == old(buffers.Keys)
      ensures changed ==> |a| < offset + |bytes|
      ensures rest' == [] ==>
        && (!changed ==> offset + |bytes| <= |a|)
        && Overwritten(a, store[head], offset, bytes) && Room(capacity, i) + at + |rest| == offset + |bytes|
        && Packed(heads, chains[head], capacity)
      ensures rest' != [] ==>
        && |rest'| + at' < |rest| + at
        && PatchingAt(a, offset, bytes, heads, buffers, chains[head], capacity, i + 1, at', rest')
        && (offset + |bytes| <= Room(capacity, |chains[head]|) ==> i + 1 < |chains[head]|)
    {
      ghost var before := store;
      var n;
      changed, n := PatchPage(head, page, at, rest, i, a, offset, bytes);
      RewrittenOnce(before, head, store[head]);
      TextAt(store, heads, buffers, chains, head);
      at', rest' := if capacity <= at then at - capacity else 0, rest[n..];
      if n < |rest| && offset + |bytes| <= Room(capacity, |chains[head]|) {
        PatchingRoom(a, offset, bytes, heads, buffers, chains[head], capacity, i + 1, at', rest');
      }
    }

    /** Writes what page i takes and goes on to the next page, unless all is written. */
    method PatchStep(head: Ptr, page: Ptr, at: nat, rest: Bytes, areaPages: nat, ghost i: nat, ghost a: Bytes,
                     ghost offset: nat, ghost bytes: Bytes)
      returns (ok: bool, next: Ptr, at': nat, rest': Bytes, changed: bool)
      requires Valid() && head in chains && i < |chains[head]| && page == chains[head][i] && 0 < areaPages
      requires PatchingAt(a, offset, bytes, heads, buffers, chains[head], capacity, i, at, rest)
      modifies this, areas, areas.table
      ensures Valid() && old(areas.used) <= areas.used && head in chains && Rewritten(old(store), store, head)
      ensures isPacked == old(isPacked) && isWhole == old(isWhole) && (!ok ==> areas.count == MAX_K2HAREA_COUNT)
      ensures changed || !ok ==> |a| < offset + |bytes|
      ensures ok && rest' == [] && !changed ==> offset + |bytes| <= |a|
      ensures !ok ==> |store[head]| == Room(capacity, |chains[head]|)
      ensures offset + |bytes| <= Room(capacity, |old(chains)[head]|) ==>
        ok && buffers.Keys == old(buffers.Keys) && chains == old(chains) && areas.View() == old(areas.View())
      ensures ok && rest' == [] ==>
        && next == page && i < |chains[head]| && page == chains[head][i]
        && Overwritten(a, store[head], offset, bytes) && Room(capacity, i) + at + |rest| == offset + |bytes|
        && Packed(heads, chains[head], capacity)
      ensures ok && rest' != [] ==>
        && i + 1 < |chains[head]| && next == chains[head][i + 1] && |rest'| + at' < |rest| + at
        && PatchingAt(a, offset, bytes, heads, buffers, chains[head], capacity, i + 1, at', rest')
    {
      PatchingIs(a, offset, bytes, heads, buffers, chains[head], capacity, i, at, rest);
      at', rest', changed := PatchOne(head, page, at, rest, i, a, offset, bytes);
      if rest' == [] {
        return true, page, at', [], changed;
      }
      var expanded;
      ok, next, expanded := NextPage(head, page, at', rest', areaPages, i, a, offset, bytes);
      changed := changed || expanded;
    }

    /**
     Writes bytes into a chain from offset on, adding pages where it ends too early.  Bytes between
     the old end and the offset are whatever the pages hold.
     */
    method SetDataAt(head: Ptr, bytes: Bytes, offset: nat, areaPages: nat)
      returns (ok: bool, page: Ptr, isChangeSize: bool, nextWritePos: nat, ghost i: nat)
      requires Valid() && head in chains && 0 < |bytes| && 0 < areaPages
      requires Packed(heads, chains[head], capacity)
      modifies this, areas, areas.table
      ensures Valid() && old(areas.used) <= areas.used
      ensures head in chains && Rewritten(old(store), store, head)
      ensures isPacked == old(isPacked) && isWhole == old(isWhole) && (!ok ==> areas.count == MAX_K2HAREA_COUNT)
      ensures ok ==> (isChangeSize <==> |old(store)[head]| < offset + |bytes|)
      ensures !ok ==> |old(store)[head]| < offset + |bytes| && |store[head]| == Room(capacity, |chains[head]|)
      ensures offset + |bytes| <= Room(capacity, |old(chains)[head]|) ==>
        ok && buffers.Keys == old(buffers.Keys) && chains == old(chains) && areas.View() == old(areas.View())
      ensures ok ==>
        && Overwritten(old(store)[head], store[head], offset, bytes) && Packed(heads, chains[head], capacity)
        && i < |chains[head]| && page == chains[head][i] && Room(capacity, i) + nextWritePos == offset + |bytes|
    {
      ghost var a, store0 := store[head], store;
      TextAt(store, heads, buffers, chains, head);
      WritingStarts(heads, buffers, free, chains, owner, pfreePages, capacity, areas.used, head);
      PatchingStarts(a, offset, bytes, heads, buffers, chains[head], capacity);
      page, isChangeSize, nextWritePos, i := head, false, offset + |bytes|, 0;
      var at, rest := offset, bytes;
      RewrittenOnce(store0, head, a);
      while true
        invariant Valid() && old(areas.used) <= areas.used && head in chains && Rewritten(store0, store, head)
        invariant isChangeSize ==> |a| < offset + |bytes|
        invariant
          && i < |chains[head]| && page == chains[head][i] && at >= 0 && isPacked == old(isPacked)
          && isWhole == old(isWhole)
        invariant PatchingAt(a, offset, bytes, heads, buffers, chains[head], capacity, i, at, rest)
        invariant offset + |bytes| <= Room(capacity, |old(chains)[head]|) ==>
          buffers.Keys == old(buffers.Keys) && chains == old(chains) && areas.View() == old(areas.View())
        decreases |rest| + at
      {
        nextWritePos := at + |rest|;
        ghost var before := store;
        var next, changed;
        ok, next, at, rest, changed := PatchStep(head, page, at, rest, areaPages, i, a, offset, bytes);
        isChangeSize := isChangeSize || changed;
        RewrittenTwice(store0, before, store, head);
        if !ok || rest == [] {
          return;
        }
        page, i := next, i + 1;
      }
    }
  }
}
