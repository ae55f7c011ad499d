/**
 Making a chain longer without writing to it (K2HPageMem::Truncate), as a direct access does when it is set behind
 the end of a value: it arrives at the length asked for exactly when the first page was not full.
 */
module PageTruncate {
  import opened Layout
  import opened AreaLayout
  import opened PageStore
  import opened PageWrites
  import opened PagePacking
  import opened PageArena

  /** A packed chain whose first i pages are full, seen from its page i. */
  lemma LengthFrom(h: Heads, d: Buffers, chain: seq<Ptr>, cap: nat, i: nat)
    requires i < |chain| && AllFull(h, chain[..i], cap) && Packed(h, chain, cap)
    requires forall p | p in chain :: p in h && p in d && |d[p]| == cap && h[p].length <= cap
    ensures |Contents(h, d, chain[..i])| == Room(cap, i)
    ensures Contents(h, d, chain) ==
      Contents(h, d, chain[..i]) + (PageBytes(h, d, chain[i]) + Contents(h, d, chain[i + 1..]))
    ensures h[chain[i]].length == cap || Contents(h, d, chain[i + 1..]) == []
  {
    ContentsSplit(h, d, chain, i);
    assert forall p | p in chain[..i] :: p in chain;
    FullContents(h, d, chain[..i], cap);
    PackedTail(h, chain, cap, i);
    BehindPartial(h, d, chain, cap, i);
  }

  lemma PackedTail(h: Heads, chain: seq<Ptr>, cap: nat, i: nat)
    requires i <= |chain| && Packed(h, chain, cap)
    ensures Packed(h, chain[i..], cap)
  {
    forall j, k | 0 <= j < k < |chain[i..]| && chain[i..][j] in h && chain[i..][k] in h
      ensures h[chain[i..][j]].length == cap || h[chain[i..][k]].length == 0
    {
      assert chain[i..][j] == chain[i + j] && chain[i..][k] == chain[i + k];
    }
  }

  /** Page i of a chain, which is to get a length. */
  lemma ToGrow(arena: Arena, head: Ptr, one: nat, i: nat)
    requires arena.Valid() && head in arena.chains && i < |arena.chains[head]| && one <= arena.capacity
    requires Packed(arena.heads, arena.chains[head], arena.capacity)
    requires AllFull(arena.heads, arena.chains[head][..i], arena.capacity)
    ensures
      var h, d, chain := arena.heads, arena.buffers, arena.chains[head];
      && chain[i] in h && chain[i] in d && |d[chain[i]]| == arena.capacity && h[chain[i]].length <= arena.capacity
      && Packed(HeadsPut(h, chain[i], one, []), chain, arena.capacity)
      && |Contents(h, d, chain[..i])| == Room(arena.capacity, i)
      && arena.store[head] == Contents(h, d, chain[..i]) + (PageBytes(h, d, chain[i]) + Contents(h, d, chain[i + 1..]))
      && (h[chain[i]].length == arena.capacity || Contents(h, d, chain[i + 1..]) == [])
      && (forall p | p in chain[..i] :: p in h && p != chain[i])
  {
    var h, d, chain := arena.heads, arena.buffers, arena.chains[head];
    ChainPage(h, d, arena.free, arena.chains, arena.owner, arena.pfreePages, arena.capacity, arena.areas.used, head, i);
    ChainedIn(h, d, arena.free, arena.chains, arena.owner, arena.pfreePages, arena.capacity, arena.areas.used, head);
    TextAt(arena.store, h, d, arena.chains, head);
    PackedGrown(h, chain, i, arena.capacity, one, []);
    LengthFrom(h, d, chain, arena.capacity, i);
  }

  /** Gives page i of a chain a length, when all pages before it are full. */
  method GrowPage(arena: Arena, head: Ptr, page: Ptr, one: nat, ghost i: nat)
    requires arena.Valid() && head in arena.chains && i < |arena.chains[head]| && page == arena.chains[head][i]
    requires one <= arena.capacity && Packed(arena.heads, arena.chains[head], arena.capacity)
    requires AllFull(arena.heads, arena.chains[head][..i], arena.capacity)
    requires page in arena.heads && arena.heads[page].length <= one
    modifies arena`heads, arena`buffers, arena`store
    ensures arena.Valid() && Rewritten(old(arena.store), arena.store, head)
    ensures old(arena.store)[head] <= arena.store[head]
    ensures Packed(arena.heads, arena.chains[head], arena.capacity)
    ensures AllFull(arena.heads, arena.chains[head][..i], arena.capacity)
    ensures
      && page in arena.heads && arena.heads[page].length == one && arena.heads[page].next == old(arena.heads)[page].next
    ensures
      |arena.store[head]| == if Room(arena.capacity, i) + one < |old(arena.store)[head]| then |old(arena.store)[head]|
        else Room(arena.capacity, i) + one
  {
    ghost var h, d, chain := arena.heads, arena.buffers, arena.chains[head];
    ToGrow(arena, head, one, i);
    GrownBytes(Contents(h, d, chain[..i]), d[page], h[page].length, one, Contents(h, d, chain[i + 1..]));
    var isGrown := arena.PutInPage(page, one, [], head, i);
    ContentsSplit(arena.heads, arena.buffers, chain, i);
  }

  /** A page that gets a longer length shows more of its buffer, at the end of the bytes. */
  lemma GrownBytes(pre: Bytes, buf: Bytes, len: nat, one: nat, tail: Bytes)
    requires len <= one <= |buf| && (len == |buf| || tail == [])
    ensures
      var a, b := pre + (buf[..len] + tail), pre + (Patched(buf, one, [])[..Grown(len, one, [])] + tail);
      a <= b && |b| == if |pre| + one < |a| then |a| else |pre| + one
  {
    assert Patched(buf, one, []) == buf;
  }

  /** What Truncate makes of a chain: a first page that is full is not counted. */
  function Reached(cap: nat, had: nat, length: nat): nat
  {
    if had < cap then length else cap + length
  }

  /** The first page, and how much is to come behind it. */
  method GrowFirst(arena: Arena, head: Ptr, length: nat) returns (rest: nat)
    requires arena.Valid() && arena.isPacked && head in arena.chains && |arena.store[head]| < length
    modifies arena`heads, arena`buffers, arena`store
    ensures arena.Valid() && Rewritten(old(arena.store), arena.store, head)
    ensures old(arena.store)[head] <= arena.store[head]
    ensures
      var reached := Reached(arena.capacity, |old(arena.store)[head]|, length);
      if rest == 0 then |arena.store[head]| == reached
      else Growing(arena.heads, arena.chains[head], arena.capacity, 1, rest, |arena.store[head]|, reached)
    ensures rest == 0 ==> |old(arena.store)[head]| < arena.capacity && length <= arena.capacity
  {
    ghost var chain := arena.chains[head];
    PackedAt(arena.heads, arena.chains, arena.capacity, head);
    ChainedIn(arena.heads, arena.buffers, arena.free, arena.chains, arena.owner, arena.pfreePages, arena.capacity,
      arena.areas.used, head);
    ChainPage(arena.heads, arena.buffers, arena.free, arena.chains, arena.owner, arena.pfreePages, arena.capacity,
      arena.areas.used, head, 0);
    TextAt(arena.store, arena.heads, arena.buffers, arena.chains, head);
    assert chain[..0] == [];
    LengthFrom(arena.heads, arena.buffers, chain, arena.capacity, 0);
    rest := length;
    if arena.heads[head].length < arena.capacity {
      var one := if length < arena.capacity then length else arena.capacity;
      GrowPage(arena, head, head, one, 0);
      rest := length - one;
    }
    assert chain[..1] == [head];
  }

  /** The pages before page i are full, and the chain is to reach a length it does not have. */
  ghost predicate Growing(h: Heads, chain: seq<Ptr>, cap: nat, i: nat, rest: nat, had: nat, reached: nat)
  {
    i <= |chain| && AllFull(h, chain[..i], cap) && Room(cap, i) + rest == reached && had < reached
  }

  /** One page behind the first. */
  method GrowNext(arena: Arena, head: Ptr, page: Ptr, rest: nat, ghost i: nat, ghost reached: nat)
    returns (next: Ptr, rest': nat)
    requires arena.Valid() && arena.isPacked && head in arena.chains && i < |arena.chains[head]| && 0 < rest
    requires page == arena.chains[head][i]
    requires Growing(arena.heads, arena.chains[head], arena.capacity, i, rest, |arena.store[head]|, reached)
    modifies arena`heads, arena`buffers, arena`store
    ensures arena.Valid() && Rewritten(old(arena.store), arena.store, head) && rest' < rest
    ensures old(arena.store)[head] <= arena.store[head]
    ensures next == if i + 1 < |arena.chains[head]| then arena.chains[head][i + 1] else NULL
    ensures
      if rest' == 0 then |arena.store[head]| == reached && reached <= Room(arena.capacity, i + 1)
      else Growing(arena.heads, arena.chains[head], arena.capacity, i + 1, rest', |arena.store[head]|, reached)
  {
    ghost var chain := arena.chains[head];
    PackedAt(arena.heads, arena.chains, arena.capacity, head);
    ChainPage(arena.heads, arena.buffers, arena.free, arena.chains, arena.owner, arena.pfreePages, arena.capacity,
      arena.areas.used, head, i);
    ChainedIn(arena.heads, arena.buffers, arena.free, arena.chains, arena.owner, arena.pfreePages, arena.capacity,
      arena.areas.used, head);
    TextAt(arena.store, arena.heads, arena.buffers, arena.chains, head);
    LengthFrom(arena.heads, arena.buffers, chain, arena.capacity, i);
    var one := if rest < arena.capacity then rest else arena.capacity;
    next := arena.heads[page].next;
    GrowPage(arena, head, page, one, i);
    rest' := rest - one;
    assert chain[..i + 1] == chain[..i] + [page];
  }

  lemma {:induction false} RoomSum(cap: nat, m: nat, n: nat)
    ensures Room(cap, m + n) == Room(cap, m) + Room(cap, n)
  {
    if 0 < m {
      RoomSum(cap, m - 1, n);
    }
  }

  /** The pages that a value of more than one page takes have no room for it and a page more. */
  lemma NeverReached(cap: nat, had: nat, length: nat, n: nat)
    requires Takes(cap, had, n) && had < length
    ensures (1 < n <==> cap < had) && (1 < n ==> Room(cap, n) < Reached(cap, had, length))
  {
    if 2 < n {
      MoreRoom(cap, 1, n - 1);
    }
  }

  /** The loop over the pages behind the first. */
  method GrowPages(arena: Arena, head: Ptr, page: Ptr, rest: nat, ghost reached: nat) returns (ok: bool)
    requires arena.Valid() && arena.isPacked && head in arena.chains && 0 < rest
    requires 1 < |arena.chains[head]| && page == arena.chains[head][1]
    requires Growing(arena.heads, arena.chains[head], arena.capacity, 1, rest, |arena.store[head]|, reached)
    modifies arena`heads, arena`buffers, arena`store
    ensures arena.Valid() && Rewritten(old(arena.store), arena.store, head)
    ensures old(arena.store)[head] <= arena.store[head]
    ensures ok ==> |arena.store[head]| == reached
    ensures ok <==> reached <= Room(arena.capacity, |arena.chains[head]|)
  {
    var next, left := page, rest;
    ghost var i := 1;
    RewrittenOnce(arena.store, head, arena.store[head]);
    while next != NULL && 0 < left
      invariant arena.Valid() && Rewritten(old(arena.store), arena.store, head)
      invariant old(arena.store)[head] <= arena.store[head]
      invariant i <= |arena.chains[head]| && next == if i < |arena.chains[head]| then arena.chains[head][i] else NULL
      invariant
        if left == 0 then |arena.store[head]| == reached && reached <= Room(arena.capacity, i)
        else Growing(arena.heads, arena.chains[head], arena.capacity, i, left, |arena.store[head]|, reached)
      decreases left
    {
      ghost var before := arena.store;
      next, left := GrowNext(arena, head, next, left, i, reached);
      RewrittenTwice(old(arena.store), before, arena.store, head);
      i := i + 1;
    }
    ChainPage(arena.heads, arena.buffers, arena.free, arena.chains, arena.owner, arena.pfreePages, arena.capacity,
      arena.areas.used, head, 0);
    assert i < |arena.chains[head]| ==> arena.chains[head][i] in arena.chains[head];
    if i < |arena.chains[head]| {
      MoreRoom(arena.capacity, i, |arena.chains[head]|);
    }
    ok := left == 0;
  }

  /** The pages behind the first, new ones if there are none. */
  method GrowBehind(arena: Arena, head: Ptr, rest: nat, areaPages: nat, ghost reached: nat) returns (ok: bool)
    requires arena.Valid() && arena.isPacked && head in arena.chains && 0 < rest && 0 < areaPages
    requires Growing(arena.heads, arena.chains[head], arena.capacity, 1, rest, |arena.store[head]|, reached)
    modifies arena, arena.areas, arena.areas.table
    ensures arena.Valid() && arena.isPacked && old(arena.areas.used) <= arena.areas.used
    ensures head in arena.chains && Rewritten(old(arena.store), arena.store, head)
    ensures old(arena.store)[head] <= arena.store[head]
    ensures ok ==> |arena.store[head]| == reached
    ensures
      1 < |old(arena.chains)[head]| ==> (ok <==> reached <= Room(arena.capacity, |old(arena.chains)[head]|))
    ensures !ok && |old(arena.chains)[head]| == 1 ==> arena.areas.count == MAX_K2HAREA_COUNT
  {
    ghost var chain := arena.chains[head];
    ChainedIn(arena.heads, arena.buffers, arena.free, arena.chains, arena.owner, arena.pfreePages, arena.capacity,
      arena.areas.used, head);
    ChainPage(arena.heads, arena.buffers, arena.free, arena.chains, arena.owner, arena.pfreePages, arena.capacity,
      arena.areas.used, head, 0);
    if arena.heads[head].next == NULL {
      ok := arena.ExpandPages(head, rest, areaPages, head);
      if !ok {
        RewrittenOnce(arena.store, head, arena.store[head]);
        return;
      }
      RoomSum(arena.capacity, 1, |arena.chains[head]| - 1);
      ChainPage(arena.heads, arena.buffers, arena.free, arena.chains, arena.owner, arena.pfreePages, arena.capacity,
        arena.areas.used, head, 0);
      assert arena.chains[head][..1] == chain[..1];
    }
    ok := GrowPages(arena, head, arena.heads[head].next, rest, reached);
  }

  /**
   Makes a chain longer.  It fails when pages behind the first, if there are any, do not take what is left, or
   when none are there and no area can be added for them.
   */
  method Truncate(arena: Arena, head: Ptr, length: nat, areaPages: nat) returns (ok: bool)
    requires arena.Valid() && arena.isPacked && head in arena.chains && |arena.store[head]| < length && 0 < areaPages
    modifies arena, arena.areas, arena.areas.table
    ensures arena.Valid() && arena.isPacked && old(arena.areas.used) <= arena.areas.used
    ensures head in arena.chains && Rewritten(old(arena.store), arena.store, head)
    ensures old(arena.store)[head] <= arena.store[head]
    ensures ok ==> |arena.store[head]| == Reached(arena.capacity, |old(arena.store)[head]|, length)
    ensures ok ==> (|arena.store[head]| == length <==> |old(arena.store)[head]| < arena.capacity)
    ensures
      var n, reached := |old(arena.chains)[head]|, Reached(arena.capacity, |old(arena.store)[head]|, length);
      1 < n ==> (ok <==> reached <= Room(arena.capacity, n))
    ensures !ok && |old(arena.chains)[head]| == 1 ==> arena.areas.count == MAX_K2HAREA_COUNT
    ensures Takes(arena.capacity, |old(arena.store)[head]|, |old(arena.chains)[head]|) ==>
      if arena.capacity < |old(arena.store)[head]| then !ok
      else if |old(arena.store)[head]| == arena.capacity then ok ==> |arena.store[head]| == arena.capacity + length
      else ok ==> |arena.store[head]| == length
  {
    if Takes(arena.capacity, |arena.store[head]|, |arena.chains[head]|) {
      NeverReached(arena.capacity, |arena.store[head]|, length, |arena.chains[head]|);
    }
    ghost var reached := Reached(arena.capacity, |arena.store[head]|, length);
    ChainedIn(arena.heads, arena.buffers, arena.free, arena.chains, arena.owner, arena.pfreePages, arena.capacity,
      arena.areas.used, head);
    var rest := GrowFirst(arena, head, length);
    if 1 < |arena.chains[head]| {
      MoreRoom(arena.capacity, 1, |arena.chains[head]|);
    }
    if rest == 0 {
      return true;
    }
    ok := GrowBehind(arena, head, rest, areaPages, reached);
  }
}
