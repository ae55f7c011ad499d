/**
 What writing at an offset (K2HPage::SetData with an offset) relies on: in every chain a page is filled up before a
 page behind it stores something.
 */
module PagePacking {
  import opened Layout
  import opened AreaLayout
  import opened PageStore
  import opened PageWrites

  /** The pages are there and packed. */
  ghost predicate ChainPacked(h: Heads, list: seq<Ptr>, cap: nat)
  {
    (forall p | p in list :: p in h) && Packed(h, list, cap)
  }

  ghost predicate AllPacked(h: Heads, chains: Chains, cap: nat)
  {
    forall u: nat {:trigger Look(ALL_PACKED, u)} :: Look(ALL_PACKED, u) ==>
      forall head | head in chains :: ChainPacked(h, chains[head], cap)
  }

  lemma NonePacked(h: Heads, cap: nat)
    ensures AllPacked(h, map[], cap)
  {
  }

  lemma PackedAt(h: Heads, chains: Chains, cap: nat, head: Ptr)
    requires AllPacked(h, chains, cap) && head in chains
    ensures ChainPacked(h, chains[head], cap)
  {
    assert Look(ALL_PACKED, 0);
  }

  lemma ChainPackedFrame(h: Heads, h': Heads, list: seq<Ptr>, cap: nat)
    requires ChainPacked(h, list, cap) && SameLengths(h, h')
    ensures ChainPacked(h', list, cap)
  {
    PackedFrame(h, h', list, cap);
  }

  /** Writing links, and letting chains go, packs nothing worse. */
  lemma PackedKept(h: Heads, h': Heads, chains: Chains, chains': Chains, cap: nat)
    requires AllPacked(h, chains, cap) && SameLengths(h, h')
    requires forall q | q in chains' :: q in chains && chains'[q] == chains[q]
    ensures AllPacked(h', chains', cap)
  {
    forall q | q in chains'
      ensures ChainPacked(h', chains'[q], cap)
    {
      PackedAt(h, chains, cap, q);
      ChainPackedFrame(h, h', chains[q], cap);
    }
  }

  /** One chain is new, or another one than before. */
  lemma PackedAlso(h: Heads, h': Heads, chains: Chains, chains': Chains, cap: nat, head: Ptr)
    requires AllPacked(h, chains, cap) && SameLengths(h, h')
    requires forall q | q in chains' && q != head :: q in chains && chains'[q] == chains[q]
    requires head in chains' ==> ChainPacked(h', chains'[head], cap)
    ensures AllPacked(h', chains', cap)
  {
    forall q | q in chains'
      ensures ChainPacked(h', chains'[q], cap)
    {
      if q != head {
        PackedAt(h, chains, cap, q);
        ChainPackedFrame(h, h', chains[q], cap);
      }
    }
  }

  /** A write to one chain leaves the others alone. */
  lemma PackedWritten(h: Heads, d: Buffers, h': Heads, d': Buffers, free: seq<Ptr>, chains: Chains, owner: Owners,
                      top: Ptr, cap: nat, used: seq<Area>, head: Ptr)
    requires Paged(h, d, free, chains, owner, top, cap, used) && head in chains && AllPacked(h, chains, cap)
    requires Written(h, d, h', d', owner, head, cap) && Packed(h', chains[head], cap)
    ensures AllPacked(h', chains, cap)
  {
    forall q | q in chains
      ensures ChainPacked(h', chains[q], cap)
    {
      ChainedIn(h, d, free, chains, owner, top, cap, used, q);
      if q != head {
        PackedAt(h, chains, cap, q);
        PackedFrame(h, h', chains[q], cap);
      }
    }
  }

  /** A page that was a chain of its own is no page any more. */
  lemma PackedDropped(h: Heads, d: Buffers, free: seq<Ptr>, chains: Chains, owner: Owners, top: Ptr, cap: nat,
                      used: seq<Area>, p: Ptr)
    requires Paged(h, d, free, chains, owner, top, cap, used) && AllPacked(h, chains, cap) && p in chains
    ensures AllPacked(h - {p}, chains - {p}, cap)
  {
    ChainedIn(h, d, free, chains, owner, top, cap, used, p);
    forall q | q in chains && q != p
      ensures ChainPacked(h - {p}, chains[q], cap)
    {
      ChainedIn(h, d, free, chains, owner, top, cap, used, q);
      PackedAt(h, chains, cap, q);
      PackedFrame(h, h - {p}, chains[q], cap);
    }
  }

  lemma EmptyChainPacked(h: Heads, d: Buffers, free: seq<Ptr>, chains: Chains, owner: Owners, top: Ptr, cap: nat,
                         used: seq<Area>, store: map<Ptr, Bytes>, head: Ptr)
    requires Paged(h, d, free, chains, owner, top, cap, used) && Texts(store, h, d, chains)
    requires head in chains && head in store && store[head] == []
    ensures ChainPacked(h, chains[head], cap)
  {
    ChainedIn(h, d, free, chains, owner, top, cap, used, head);
    TextAt(store, h, d, chains, head);
    EmptyPacked(h, d, chains[head], cap);
  }

  /** Pages from the free list are a new chain that stores nothing. */
  lemma ChainTaken(h: Heads, d: Buffers, free: seq<Ptr>, chains: Chains, owner: Owners, top: Ptr, cap: nat,
                   used: seq<Area>, n: nat, store: map<Ptr, Bytes>, isPacked: bool)
    requires Paged(h, d, free, chains, owner, top, cap, used) && Texts(store, h, d, chains) && 0 < n <= |free|
    requires isPacked ==> AllPacked(h, chains, cap)
    ensures free[n - 1] in h && (n < |free| ==> free[n] in h) && top == free[0] && top != NULL && top !in chains
    ensures
      var h', chains' := CutFree(h, free, n), chains[top := free[..n]];
      && Paged(h', d, free[n..], chains', Owned(owner, free[..n], top), if n == |free| then NULL else free[n], cap,
           used)
      && Texts(store[top := []], h', d, chains') && (isPacked ==> AllPacked(h', chains', cap))
  {
    PagedReserved(h, d, free, chains, owner, top, cap, used, n);
    TextsReserved(h, d, free, chains, owner, top, cap, used, n, store);
    var h', chains', owner' := CutFree(h, free, n), chains[top := free[..n]], Owned(owner, free[..n], top);
    if isPacked {
      EmptyChainPacked(h', d, free[n..], chains', owner', if n == |free| then NULL else free[n], cap, used,
        store[top := []], top);
      PackedAlso(h, h', chains, chains', cap, top);
    }
  }

  /** A chain stores nothing any more. */
  lemma PackedCleared(h: Heads, h': Heads, d: Buffers, free: seq<Ptr>, chains: Chains, owner: Owners, top: Ptr,
                      cap: nat, used: seq<Area>, head: Ptr)
    requires Paged(h, d, free, chains, owner, top, cap, used) && head in chains && AllPacked(h, chains, cap)
    requires Written(h, d, h', d, owner, head, cap) && Contents(h', d, chains[head]) == []
    ensures AllPacked(h', chains, cap)
  {
    ChainedIn(h, d, free, chains, owner, top, cap, used, head);
    EmptyPacked(h', d, chains[head], cap);
    PackedWritten(h, d, h', d, free, chains, owner, top, cap, used, head);
  }

  /** A chain goes to the free list. */
  lemma ChainFreed(h: Heads, d: Buffers, free: seq<Ptr>, chains: Chains, owner: Owners, top: Ptr, cap: nat,
                   used: seq<Area>, head: Ptr, store: map<Ptr, Bytes>, isPacked: bool)
    requires Paged(h, d, free, chains, owner, top, cap, used) && head in chains && Texts(store, h, d, chains)
    requires forall p | p in chains[head] && p in h :: h[p].length == 0
    requires isPacked ==> AllPacked(h, chains, cap)
    ensures chains[head] != [] && chains[head][|chains[head]| - 1] in h && (top != NULL ==> top in h)
    ensures
      var h', chains' := GivenBack(h, chains[head], top), chains - {head};
      && Paged(h', d, chains[head] + free, chains', Disowned(owner, chains[head]), head, cap, used)
      && Texts(store - {head}, h', d, chains') && (isPacked ==> AllPacked(h', chains', cap))
  {
    PagedFreed(h, d, free, chains, owner, top, cap, used, head);
    TextsFreed(h, d, free, chains, owner, top, cap, used, head, store);
    if isPacked {
      PackedKept(h, GivenBack(h, chains[head], top), chains, chains - {head}, cap);
    }
  }

  /** Pages that store nothing may follow. */
  lemma PackedLonger(h: Heads, d: Buffers, l1: seq<Ptr>, l2: seq<Ptr>, cap: nat)
    requires ChainPacked(h, l1, cap) && Contents(h, d, l2) == []
    requires forall p | p in l2 :: p in h && p in d && h[p].length <= |d[p]|
    ensures ChainPacked(h, l1 + l2, cap)
  {
    var l := l1 + l2;
    EmptyContents(h, d, l2);
    forall i, j | 0 <= i < j < |l|
      ensures h[l[i]].length == cap || h[l[j]].length == 0
    {
      if |l1| <= j {
        assert l[j] == l2[j - |l1|] && l2[j - |l1|] in l2;
      } else {
        assert l[i] == l1[i] && l[j] == l1[j] && l1[i] in l1 && l1[j] in l1;
      }
    }
  }

  /** Full pages, and then pages of which only the first may store something. */
  lemma FilledPacked(h: Heads, d: Buffers, chain: seq<Ptr>, n: nat, cap: nat)
    requires n < |chain| && AllFull(h, chain[..n], cap) && Contents(h, d, chain[n + 1..]) == []
    requires forall p | p in chain :: p in h && p in d && h[p].length <= |d[p]|
    ensures Packed(h, chain, cap)
  {
    EmptyContents(h, d, chain[n + 1..]);
    forall j, k | 0 <= j < k < |chain|
      ensures h[chain[j]].length == cap || h[chain[k]].length == 0
    {
      if j < n {
        assert chain[j] == chain[..n][j] && chain[..n][j] in chain[..n];
      } else {
        assert chain[k] == chain[n + 1..][k - n - 1] && chain[n + 1..][k - n - 1] in chain[n + 1..];
      }
    }
  }

  /** Writing from the front into a chain that stored nothing packs it. */
  lemma WrittenPacked(h0: Heads, d0: Buffers, h: Heads, d: Buffers, owner: Owners, head: Ptr, chain: seq<Ptr>, cap: nat,
                      used: nat, done: Bytes, rest: Bytes)
    requires used <= |chain| && WritingAt(h0, d0, h, d, owner, head, chain, cap, used, done)
    requires Contents(h0, d0, chain) == [] && (rest == [] || used == |chain|) && chain != []
    requires AllFull(h, chain[..FullCount(rest, used)], cap)
    ensures Packed(h, chain, cap)
  {
    NothingBehind(h0, d0, h, d, owner, head, chain, cap, used, done);
    PagesWritten(h0, d0, h, d, owner, head, chain, cap, used, done);
    if used == 0 {
      assert chain[0..] == chain;
      EmptyPacked(h, d, chain, cap);
    } else if rest == [] {
      FilledPacked(h, d, chain, used - 1, cap);
    } else {
      assert chain[..used] == chain && chain[used..] == [];
      PackedBehindFull(h, chain, used, cap);
    }
  }

  /** A chain was written from the front. */
  lemma ChainFilled(h0: Heads, d0: Buffers, h: Heads, d: Buffers, free: seq<Ptr>, chains: Chains, owner: Owners,
                    top: Ptr, cap: nat, areas: seq<Area>, head: Ptr, used: nat, done: Bytes, rest: Bytes,
                    store: map<Ptr, Bytes>, isPacked: bool)
    requires Paged(h0, d0, free, chains, owner, top, cap, areas) && head in chains && Texts(store, h0, d0, chains)
    requires used <= |chains[head]| && WritingAt(h0, d0, h, d, owner, head, chains[head], cap, used, done)
    requires isPacked ==> AllPacked(h0, chains, cap)
    requires (rest == [] || used == |chains[head]|) && AllFull(h, chains[head][..FullCount(rest, used)], cap)
    ensures head in store && Contents(h, d, chains[head]) == done + Contents(h0, d0, chains[head][used..])
    ensures Paged(h, d, free, chains, owner, top, cap, areas)
    ensures Texts(store[head := Contents(h, d, chains[head])], h, d, chains)
    ensures isPacked && store[head] == [] ==> AllPacked(h, chains, cap)
  {
    WritingEnds(h0, d0, h, d, owner, head, chains[head], cap, used, done);
    PagedWritten(h0, d0, h, d, free, chains, owner, top, cap, areas, head);
    TextsWritten(h0, d0, h, d, free, chains, owner, top, cap, areas, head, store);
    TextAt(store, h0, d0, chains, head);
    if isPacked && store[head] == [] {
      ChainedIn(h0, d0, free, chains, owner, top, cap, areas, head);
      WrittenPacked(h0, d0, h, d, owner, head, chains[head], cap, used, done, rest);
      PackedWritten(h0, d0, h, d, free, chains, owner, top, cap, areas, head);
    }
  }

  lemma NothingBehind(h0: Heads, d0: Buffers, h: Heads, d: Buffers, owner: Owners, head: Ptr, chain: seq<Ptr>, cap: nat,
                      used: nat, done: Bytes)
    requires used <= |chain| && WritingAt(h0, d0, h, d, owner, head, chain, cap, used, done)
    requires Contents(h0, d0, chain) == []
    ensures Contents(h, d, chain[used..]) == []
  {
    NothingIn(h0, d0, chain, used);
    WritingIs(h0, d0, h, d, owner, head, chain, cap, used, done);
    ContentsFrame(h0, d0, h, d, chain[used..]);
  }

  lemma NothingIn(h: Heads, d: Buffers, chain: seq<Ptr>, n: nat)
    requires n <= |chain| && Contents(h, d, chain) == []
    ensures Contents(h, d, chain[n..]) == []
  {
    assert chain == chain[..n] + chain[n..];
    ContentsAppend(h, d, chain[..n], chain[n..]);
  }

  lemma PagesWritten(h0: Heads, d0: Buffers, h: Heads, d: Buffers, owner: Owners, head: Ptr, chain: seq<Ptr>, cap: nat,
                     used: nat, done: Bytes)
    requires used <= |chain| && WritingAt(h0, d0, h, d, owner, head, chain, cap, used, done)
    ensures forall p | p in chain :: p in h && p in d && h[p].length <= |d[p]|
  {
    WritingIs(h0, d0, h, d, owner, head, chain, cap, used, done);
  }

  /** A chain that stores nothing was linked behind another one. */
  lemma PackedJoined(h: Heads, d: Buffers, free: seq<Ptr>, chains: Chains, owner: Owners, top: Ptr, cap: nat,
                     used: seq<Area>, head: Ptr, more: Ptr, store: map<Ptr, Bytes>)
    requires Paged(h, d, free, chains, owner, top, cap, used) && Texts(store, h, d, chains) && AllPacked(h, chains, cap)
    requires head in chains && more in chains && head != more && more in store && store[more] == []
    requires chains[head] != [] && chains[more] != []
    requires
      && chains[head][|chains[head]| - 1] in h && chains[more][0] in h
      && chains[head][|chains[head]| - 1] != chains[more][0]
    ensures AllPacked(Joined(h, chains[head], chains[more]), (chains - {more})[head := chains[head] + chains[more]],
      cap)
  {
    ChainsJoined(h, d, free, chains, owner, top, cap, used, head, more, store);
    TextAt(store, h, d, chains, more);
    ChainedIn(h, d, free, chains, owner, top, cap, used, more);
    PackedAt(h, chains, cap, head);
    PackedLonger(h, d, chains[head], chains[more], cap);
    var h' := Joined(h, chains[head], chains[more]);
    ChainPackedFrame(h, h', chains[head] + chains[more], cap);
    PackedAlso(h, h', chains, (chains - {more})[head := chains[head] + chains[more]], cap, head);
  }

  /** One page written so that its chain stays packed. */
  lemma PagePutPacked(h: Heads, d: Buffers, free: seq<Ptr>, chains: Chains, owner: Owners, top: Ptr, cap: nat,
                      used: seq<Area>, head: Ptr, i: nat, at: nat, piece: Bytes)
    requires
      && Paged(h, d, free, chains, owner, top, cap, used) && head in chains && i < |chains[head]| && at + |piece| <= cap
    requires chains[head][i] in h && chains[head][i] in d && |d[chains[head][i]]| == cap && AllPacked(h, chains, cap)
    requires Packed(HeadsPut(h, chains[head][i], at, piece), chains[head], cap)
    ensures AllPacked(HeadsPut(h, chains[head][i], at, piece), chains, cap)
  {
    ChainedIn(h, d, free, chains, owner, top, cap, used, head);
    PagedIs(h, d, free, chains, owner, top, cap, used);
    assert chains[head][i] in chains[head];
    PackedWritten(h, d, HeadsPut(h, chains[head][i], at, piece), BuffersPut(d, chains[head][i], at, piece), free,
      chains, owner, top, cap, used, head);
  }

  /** A write under way keeps its chain packed. */
  lemma PatchingPacked(a: Bytes, offset: nat, bytes: Bytes, h: Heads, d: Buffers, chain: seq<Ptr>, cap: nat, i: nat,
                       at: nat, rest: Bytes)
    requires i < |chain| && PatchingAt(a, offset, bytes, h, d, chain, cap, i, at, rest)
    requires chain[i] in h && h[chain[i]].length <= cap && 0 < cap
    requires forall j | 0 <= j < |chain| && j != i :: chain[j] != chain[i]
    ensures Packed(HeadsPut(h, chain[i], PutPos(cap, at), rest[..PutLength(cap, at, |rest|)]), chain, cap)
  {
    PatchingIs(a, offset, bytes, h, d, chain, cap, i, at, rest);
    PackedBehindFull(h, chain, i, cap);
    PackedGrown(h, chain, i, cap, PutPos(cap, at), rest[..PutLength(cap, at, |rest|)]);
  }

  /**
   A page that grows under a write stores the last of the bytes, and the write goes beyond them; one that the write
   ends in without growing does not.
   */
  lemma GrowsBeyond(a: Bytes, offset: nat, bytes: Bytes, h: Heads, d: Buffers, chain: seq<Ptr>, cap: nat, i: nat,
                    at: nat, rest: Bytes)
    requires i < |chain| && PatchingAt(a, offset, bytes, h, d, chain, cap, i, at, rest) && 0 < cap
    requires forall p | p in chain :: p in h
    requires chain[i] in d && |d[chain[i]]| == cap && h[chain[i]].length <= cap
    ensures
      var end := PutPos(cap, at) + PutLength(cap, at, |rest|);
      && (h[chain[i]].length < end ==> |a| < offset + |bytes|)
      && (PutLength(cap, at, |rest|) == |rest| && end <= h[chain[i]].length ==> offset + |bytes| <= |a|)
  {
    PatchingIs(a, offset, bytes, h, d, chain, cap, i, at, rest);
    BehindPartial(h, d, chain, cap, i);
    assert chain[i..][1..] == chain[i + 1..];
    assert |Contents(h, d, chain[i..])| == h[chain[i]].length + |Contents(h, d, chain[i + 1..])|;
  }

  /** A write that needs a page behind the last one goes beyond the bytes. */
  lemma NoPageLeft(a: Bytes, offset: nat, bytes: Bytes, h: Heads, d: Buffers, chain: seq<Ptr>, cap: nat, at: nat,
                   rest: Bytes)
    requires PatchingAt(a, offset, bytes, h, d, chain, cap, |chain|, at, rest)
    ensures |a| < offset + |bytes|
    ensures AllFull(h, chain, cap)
  {
    PatchingIs(a, offset, bytes, h, d, chain, cap, |chain|, at, rest);
    assert chain[|chain|..] == [] && chain[..|chain|] == chain;
  }

  /** Full pages store all they can. */
  lemma {:induction false} FullContents(h: Heads, d: Buffers, list: seq<Ptr>, cap: nat)
    requires AllFull(h, list, cap) && forall p | p in list :: p in h && p in d && |d[p]| == cap
    ensures |Contents(h, d, list)| == Room(cap, |list|)
  {
    if list != [] {
      FullContents(h, d, list[1..], cap);
      assert list[0] in list;
    }
  }
}
