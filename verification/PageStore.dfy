/**
 Pages and the lists they form: the free list, and one chain for every byte string that an
 ELEMENT owns.  Every page is in exactly one of them.
 */
module PageStore {
  import opened Layout
  import opened AreaLayout

  /** The PAGEHEAD members before the data. */
  datatype Head = Head(prev: Ptr, next: Ptr, length: nat)

  type Heads = map<Ptr, Head>

  /** The data bytes of each page, all of them, whatever the length member says. */
  type Buffers = map<Ptr, Bytes>

  /** The pages of each chain, under its first page. */
  type Chains = map<Ptr, seq<Ptr>>

  /** The first page of the chain that each used page is in. */
  type Owners = map<Ptr, Ptr>

  const PAGEHEAD_SIZE := 24

  const PAGE_CNT_RATIO := 2

  const MAX_EXPAND_PAGE_CNT := 1024 * 1024

  /** The bytes that n pages hold: cap * n. */
  function Room(cap: nat, n: nat): nat
  {
    if n == 0 then 0 else cap + Room(cap, n - 1)
  }

  /** n pages are what length bytes take, and not one more. */
  predicate Takes(cap: nat, length: nat, n: nat)
  {
    0 < n && Room(cap, n - 1) < length <= Room(cap, n)
  }

  lemma {:induction false} RoomIs(cap: nat, n: nat)
    ensures Room(cap, n) == cap * n
  {
    if n > 0 {
      RoomIs(cap, n - 1);
      assert cap * n == cap * (n - 1) + cap;
    }
  }

  lemma {:induction false} MoreRoom(cap: nat, m: nat, n: nat)
    requires 0 < cap && m < n
    ensures Room(cap, m) < Room(cap, n)
  {
    if m < n - 1 {
      MoreRoom(cap, m, n - 1);
    }
  }

  lemma QuotientRoom(cap: nat, x: nat)
    requires 0 < cap
    ensures Room(cap, x / cap) <= x < Room(cap, x / cap) + cap
  {
    RoomIs(cap, x / cap);
    assert x == cap * (x / cap) + x % cap;
  }

  /** The number of pages that bytes take is their number divided by what a page holds, rounded up. */
  lemma TakesCeil(cap: nat, length: nat, n: nat)
    requires 0 < cap
    ensures Takes(cap, length, n) <==> 0 < length && n == (length + cap - 1) / cap
  {
    var q := (length + cap - 1) / cap;
    QuotientRoom(cap, length + cap - 1);
    assert Room(cap, 0) == 0;
    if 0 < length {
      assert 0 < q && Room(cap, q) == cap + Room(cap, q - 1);
    }
    if 0 < length && 0 < n && n < q && n != q - 1 {
      MoreRoom(cap, n, q - 1);
    }
    if 0 < n && q < n && q != n - 1 {
      MoreRoom(cap, q, n - 1);
    }
  }

  lemma FewerPages(cap: nat, m: nat, n: nat)
    requires 0 < cap && Room(cap, m) < Room(cap, n)
    ensures m < n
  {
    if n < m {
      MoreRoom(cap, n, m);
    }
  }

  /** The size of a page of `cap` data bytes. */
  function PageSize(cap: nat): nat
  {
    PAGEHEAD_SIZE + cap
  }

  /** Page i of a list that leads on to `rest`. */
  ghost predicate PageAt(h: Heads, list: seq<Ptr>, i: int, rest: Ptr)
    requires 0 <= i < |list|
  {
    && list[i] in h
    && h[list[i]].prev == (if i == 0 then NULL else list[i - 1])
    && h[list[i]].next == (if i + 1 < |list| then list[i + 1] else rest)
  }

  /** A list whose pages are linked both ways. */
  ghost predicate PageList(h: Heads, list: seq<Ptr>)
  {
    && Distinct(list) && NULL !in list
    && (forall i | 0 <= i < |list| :: PageAt(h, list, i, NULL))
  }

  /** No page of h got another length. */
  ghost predicate SameLengths(h: Heads, h': Heads)
  {
    forall p | p in h :: p in h' && h'[p].length == h[p].length
  }

  /** The bytes stored in the pages of a list. */
  function Contents(h: Heads, d: Buffers, list: seq<Ptr>): Bytes
  {
    if list == [] then [] else PageBytes(h, d, list[0]) + Contents(h, d, list[1..])
  }

  /** The bytes stored in one page. */
  function PageBytes(h: Heads, d: Buffers, p: Ptr): Bytes
  {
    if p in h && p in d && h[p].length <= |d[p]| then d[p][..h[p].length] else []
  }

  lemma {:induction false} ContentsAppend(h: Heads, d: Buffers, l1: seq<Ptr>, l2: seq<Ptr>)
    ensures Contents(h, d, l1 + l2) == Contents(h, d, l1) + Contents(h, d, l2)
  {
    if l1 == [] {
      assert l1 + l2 == l2;
    } else {
      ContentsAppend(h, d, l1[1..], l2);
      assert (l1 + l2)[1..] == l1[1..] + l2;
    }
  }

  lemma {:induction false} ContentsFrame(h: Heads, d: Buffers, h': Heads, d': Buffers, list: seq<Ptr>)
    requires forall p | p in list :: p in h && p in h' && h'[p].length == h[p].length
    requires forall p | p in list :: p in d && p in d' && d'[p] == d[p]
    ensures Contents(h', d', list) == Contents(h, d, list)
  {
    if list != [] {
      ContentsFrame(h, d, h', d', list[1..]);
    }
  }

  /** Pages of length zero store nothing. */
  lemma {:induction false} ContentsEmpty(h: Heads, d: Buffers, list: seq<Ptr>)
    requires forall p | p in list :: p in h && h[p].length == 0
    ensures Contents(h, d, list) == []
  {
    if list != [] {
      ContentsEmpty(h, d, list[1..]);
      assert PageBytes(h, d, list[0]) == [];
    }
  }

  // ---------------------------------------------------------------- all pages

  /** Every page is free or in one chain; free pages store nothing. */
  ghost predicate Shared(h: Heads, d: Buffers, free: seq<Ptr>, owner: Owners, cap: nat)
  {
    && (forall p :: p in h <==> p in d)
    && (forall p :: p in h <==> p in free || p in owner)
    && (forall p | p in owner :: p !in free)
    && (forall p | p in free && p in h :: h[p].length == 0)
    && (forall p | p in h && p in d :: |d[p]| == cap && h[p].length <= cap)
  }

  /** The chain under `head`: a linked list of exactly the pages it owns. */
  ghost predicate Chained(h: Heads, owner: Owners, head: Ptr, chain: seq<Ptr>)
  {
    && |chain| > 0 && chain[0] == head && PageList(h, chain)
    && (forall p :: p in chain <==> p in owner && owner[p] == head)
  }

  ghost predicate AllChained(h: Heads, owner: Owners, chains: Chains, depth: nat := DEPTH)
    decreases depth
  {
    if depth == 0 then (
      && (forall head | head in chains :: Chained(h, owner, head, chains[head]))
      && (forall p | p in owner :: owner[p] in chains))
    else AllChained(h, owner, chains, depth - 1)
  }

  lemma {:induction false} AllChainedIs(h: Heads, owner: Owners, chains: Chains, depth: nat := DEPTH)
    ensures AllChained(h, owner, chains, depth) <==>
      && (forall head | head in chains :: Chained(h, owner, head, chains[head]))
      && (forall p | p in owner :: owner[p] in chains)
    decreases depth
  {
    if depth > 0 {
      AllChainedIs(h, owner, chains, depth - 1);
    }
  }

  /** One chain is put in or replaced: its pages are new in `owner`, or were its own before. */
  lemma ChainAdded(h: Heads, owner: Owners, chains: Chains, h': Heads, owner': Owners, head: Ptr, chain: seq<Ptr>)
    requires AllChained(h, owner, chains) && Chained(h', owner', head, chain)
    requires forall p | p in owner && owner[p] != head ::
      p in owner' && owner'[p] == owner[p] && p in h' && (p in h ==> h'[p].prev == h[p].prev && h'[p].next == h[p].next)
    requires forall p | p in owner' && owner'[p] != head :: p in owner && owner[p] == owner'[p]
    ensures AllChained(h', owner', chains[head := chain])
  {
    AllChainedIs(h, owner, chains);
    forall k | k in chains && k != head
      ensures Chained(h', owner', k, chains[k])
    {
      assert Chained(h, owner, k, chains[k]);
      ChainedFrame(h, h', owner, owner', k, chains[k]);
    }
    AllChainedIs(h', owner', chains[head := chain]);
  }

  /** One chain is given up. */
  lemma ChainRemoved(h: Heads, owner: Owners, chains: Chains, h': Heads, owner': Owners, head: Ptr)
    requires AllChained(h, owner, chains)
    requires forall p | p in owner && owner[p] != head ::
      p in owner' && owner'[p] == owner[p] && p in h' && (p in h ==> h'[p].prev == h[p].prev && h'[p].next == h[p].next)
    requires forall p | p in owner' :: p in owner && owner[p] == owner'[p] && owner[p] != head
    ensures AllChained(h', owner', chains - {head})
  {
    AllChainedIs(h, owner, chains);
    forall k | k in chains && k != head
      ensures Chained(h', owner', k, chains[k])
    {
      assert Chained(h, owner, k, chains[k]);
      ChainedFrame(h, h', owner, owner', k, chains[k]);
    }
    AllChainedIs(h', owner', chains - {head});
  }

  /** Page p is one of the n pages that the area is made of. */
  ghost predicate SlotIn(a: Area, n: nat, size: nat, p: Ptr)
  {
    a.areaType == PAGE && 0 < a.fileOffset && a.length == Room(size, n) && p in Pages(a.fileOffset, n, size)
  }

  ghost predicate PageIn(used: seq<Area>, p: Ptr, size: nat)
  {
    forall u: nat {:trigger Look(PAGE_IN, u)} ::
      Look(PAGE_IN, u) ==> exists i: nat, n: nat :: i < |used| && SlotIn(used[i], n, size, p)
  }

  /** Every page lies in an area for pages. */
  ghost predicate Housed(h: Heads, cap: nat, used: seq<Area>)
  {
    forall p | p in h :: PageIn(used, p, PageSize(cap))
  }

  /** The area has room for a page with number k. */
  predicate HasSlot(a: Area, k: nat, size: nat)
  {
    Room(size, k + 1) <= a.length
  }

  function SlotAt(a: Area, k: nat, size: nat): Ptr
  {
    a.fileOffset + Room(size, k)
  }

  /** Areas for pages are made of pages: where there is room for one there is one. */
  ghost predicate AreasWhole(d: Buffers, used: seq<Area>, size: nat)
  {
    forall u: nat {:trigger Look(AREAS_WHOLE, u)} :: Look(AREAS_WHOLE, u) ==>
      forall i, k: nat | 0 <= i < |used| && used[i].areaType == PAGE && HasSlot(used[i], k, size) ::
        SlotAt(used[i], k, size) in d
  }

  /** The area of a page, and how many pages it is made of. */
  lemma PageArea(used: seq<Area>, p: Ptr, size: nat) returns (i: nat, n: nat)
    requires PageIn(used, p, size) && 0 < size
    ensures
      && i < |used| && SlotIn(used[i], n, size, p) && used[i].fileOffset <= p
      && p + size <= used[i].fileOffset + used[i].length
  {
    assert Look(PAGE_IN, 0);
    i, n :| i < |used| && SlotIn(used[i], n, size, p);
    PagesDistinct(used[i].fileOffset, n, size);
  }

  lemma HousedEnds(h: Heads, cap: nat, used: seq<Area>, offset: nat)
    requires Housed(h, cap, used) && EndBy(used, offset)
    ensures forall p | p in h :: p + PageSize(cap) <= offset
  {
    forall p | p in h
      ensures p + PageSize(cap) <= offset
    {
      var i, n := PageArea(used, p, PageSize(cap));
    }
  }

  ghost predicate Paged(h: Heads, d: Buffers, free: seq<Ptr>, chains: Chains, owner: Owners, top: Ptr, cap: nat,
                        used: seq<Area>, depth: nat := DEPTH)
    decreases depth
  {
    if depth == 0 then PagedFacts(h, d, free, chains, owner, top, cap, used)
    else Paged(h, d, free, chains, owner, top, cap, used, depth - 1)
  }

  ghost predicate PagedFacts(h: Heads, d: Buffers, free: seq<Ptr>, chains: Chains, owner: Owners, top: Ptr, cap: nat,
                             used: seq<Area>)
  {
    && Shared(h, d, free, owner, cap) && PageList(h, free) && top == (if free == [] then NULL else free[0])
    && AllChained(h, owner, chains)
    && 0 < cap && Housed(h, cap, used)
  }

  lemma {:induction false} PagedIs(h: Heads, d: Buffers, free: seq<Ptr>, chains: Chains, owner: Owners, top: Ptr,
                                   cap: nat, used: seq<Area>, depth: nat := DEPTH)
    ensures Paged(h, d, free, chains, owner, top, cap, used, depth) <==>
      PagedFacts(h, d, free, chains, owner, top, cap, used)
    decreases depth
  {
    if depth > 0 {
      PagedIs(h, d, free, chains, owner, top, cap, used, depth - 1);
    }
  }

  lemma PagedWider(h: Heads, d: Buffers, free: seq<Ptr>, chains: Chains, owner: Owners, top: Ptr, cap: nat,
                   used: seq<Area>, used': seq<Area>)
    requires Paged(h, d, free, chains, owner, top, cap, used) && used <= used'
    ensures Paged(h, d, free, chains, owner, top, cap, used')
  {
    PagedIs(h, d, free, chains, owner, top, cap, used);
    HousedLonger(h, cap, used, used');
    PagedIs(h, d, free, chains, owner, top, cap, used');
  }

  lemma PageListFrame(h: Heads, h': Heads, list: seq<Ptr>)
    requires PageList(h, list)
    requires forall p | p in list :: p in h' && (p in h ==> h'[p].prev == h[p].prev && h'[p].next == h[p].next)
    ensures PageList(h', list)
  {
    forall i | 0 <= i < |list|
      ensures PageAt(h', list, i, NULL)
    {
      assert PageAt(h, list, i, NULL) && list[i] in list;
    }
  }

  lemma ChainedFrame(h: Heads, h': Heads, owner: Owners, owner': Owners, head: Ptr, chain: seq<Ptr>)
    requires Chained(h, owner, head, chain)
    requires forall p | p in chain :: p in h' && (p in h ==> h'[p].prev == h[p].prev && h'[p].next == h[p].next)
    requires forall p :: p in owner && owner[p] == head <==> p in owner' && owner'[p] == head
    ensures Chained(h', owner', head, chain)
  {
    PageListFrame(h, h', chain);
  }

  lemma ChainedIn(h: Heads, d: Buffers, free: seq<Ptr>, chains: Chains, owner: Owners, top: Ptr, cap: nat,
                  used: seq<Area>, head: Ptr)
    requires Paged(h, d, free, chains, owner, top, cap, used) && head in chains
    ensures Chained(h, owner, head, chains[head])
    ensures forall p | p in chains[head] :: p in h && p in d && |d[p]| == cap && h[p].length <= cap
    ensures head != NULL && head in owner && owner[head] == head
  {
    PagedIs(h, d, free, chains, owner, top, cap, used);
    AllChainedIs(h, owner, chains);
    assert Chained(h, owner, head, chains[head]) && chains[head][0] in chains[head];
  }

  // ---------------------------------------------------------------- lists cut and joined

  /** A list cut behind page n: the page behind the cut has no predecessor, the page before it no successor. */
  lemma ListCut(h: Heads, h': Heads, list: seq<Ptr>, n: nat)
    requires PageList(h, list) && 0 < n <= |list|
    requires forall p | p in list :: p in h && p in h'
    requires forall i | 0 <= i < |list| ::
      && h'[list[i]].prev == (if i == n then NULL else h[list[i]].prev)
      && h'[list[i]].next == (if i == n - 1 then NULL else h[list[i]].next)
    ensures PageList(h', list[..n]) && PageList(h', list[n..])
  {
    forall i | 0 <= i < n
      ensures PageAt(h', list[..n], i, NULL)
    {
      assert PageAt(h, list, i, NULL);
    }
    forall i | 0 <= i < |list| - n
      ensures PageAt(h', list[n..], i, NULL)
    {
      assert PageAt(h, list, i + n, NULL);
    }
  }

  /** Two lists joined by the successor of the last page of one and the predecessor of the first of the other. */
  lemma ListsJoined(h: Heads, h': Heads, l1: seq<Ptr>, l2: seq<Ptr>)
    requires PageList(h, l1) && PageList(h, l2) && l1 != []
    requires forall p | p in l1 :: p !in l2
    requires forall p | p in l1 || p in l2 :: p in h && p in h'
    requires forall i | 0 <= i < |l1| ::
      && h'[l1[i]].prev == h[l1[i]].prev
      && h'[l1[i]].next == (if i == |l1| - 1 then (if l2 == [] then NULL else l2[0]) else h[l1[i]].next)
    requires forall i | 0 <= i < |l2| ::
      h'[l2[i]].next == h[l2[i]].next && h'[l2[i]].prev == (if i == 0 then l1[|l1| - 1] else h[l2[i]].prev)
    ensures PageList(h', l1 + l2)
  {
    var l := l1 + l2;
    forall i | 0 <= i < |l|
      ensures PageAt(h', l, i, NULL)
    {
      if i < |l1| {
        assert PageAt(h, l1, i, NULL) && l[i] == l1[i] && l1[i] in l1;
        assert i + 1 == |l1| && l2 != [] ==> l[i + 1] == l2[0];
      } else {
        var j := i - |l1|;
        assert PageAt(h, l2, j, NULL) && l[i] == l2[j] && l2[j] in l2;
      }
    }
    forall i, j | 0 <= i < j < |l|
      ensures l[i] != l[j]
    {
      if i < |l1| <= j {
        assert l[i] in l1 && l[j] in l2;
      }
    }
  }

  // ---------------------------------------------------------------- what is stored

  /** The byte string of every chain. */
  function StoreOf(h: Heads, d: Buffers, chains: Chains): map<Ptr, Bytes>
  {
    map head | head in chains :: Contents(h, d, chains[head])
  }

  /** The store has the byte string of every chain. */
  ghost predicate Texts(store: map<Ptr, Bytes>, h: Heads, d: Buffers, chains: Chains, depth: nat := DEPTH)
    decreases depth
  {
    if depth == 0 then store == StoreOf(h, d, chains)
    else Texts(store, h, d, chains, depth - 1)
  }

  lemma {:induction false} TextsAre(store: map<Ptr, Bytes>, h: Heads, d: Buffers, chains: Chains, depth: nat := DEPTH)
    ensures Texts(store, h, d, chains, depth) <==> store == StoreOf(h, d, chains)
    decreases depth
  {
    if depth > 0 {
      TextsAre(store, h, d, chains, depth - 1);
    }
  }

  lemma TextAt(store: map<Ptr, Bytes>, h: Heads, d: Buffers, chains: Chains, head: Ptr)
    requires Texts(store, h, d, chains) && head in chains
    ensures head in store && store[head] == Contents(h, d, chains[head])
  {
    TextsAre(store, h, d, chains);
  }

  function Owned(owner: Owners, list: seq<Ptr>, head: Ptr): Owners
  {
    owner + map p | p in list :: head
  }

  function Disowned(owner: Owners, list: seq<Ptr>): Owners
  {
    map p | p in owner && p !in list :: owner[p]
  }

  lemma ChainedApart(h: Heads, owner: Owners, chains: Chains, head: Ptr, p: Ptr)
    requires AllChained(h, owner, chains) && head in chains
    ensures Chained(h, owner, head, chains[head])
    ensures p in chains[head] <==> p in owner && owner[p] == head
  {
    AllChainedIs(h, owner, chains);
  }

  /** What one chain stores is the same when its pages keep their bytes. */
  lemma ContentsKept(h: Heads, d: Buffers, h': Heads, d': Buffers, owner: Owners, chains: Chains, head: Ptr, k: Ptr)
    requires AllChained(h, owner, chains) && forall p | p in owner :: p in h && p in d
    requires forall p | p in owner && owner[p] != head ::
      p in h' && h'[p].length == h[p].length && p in d' && d'[p] == d[p]
    requires k in chains && k != head
    ensures Contents(h', d', chains[k]) == Contents(h, d, chains[k])
  {
    ChainedApart(h, owner, chains, k, k);
    ContentsFrame(h, d, h', d', chains[k]);
  }

  /** The store with one chain written, put in or replaced. */
  lemma StoreUpdated(h: Heads, d: Buffers, h': Heads, d': Buffers, owner: Owners, chains: Chains, head: Ptr,
                     chain: seq<Ptr>)
    requires AllChained(h, owner, chains) && forall p | p in owner :: p in h && p in d
    requires forall p | p in owner && owner[p] != head ::
      p in h' && h'[p].length == h[p].length && p in d' && d'[p] == d[p]
    ensures StoreOf(h', d', chains[head := chain]) == StoreOf(h, d, chains)[head := Contents(h', d', chain)]
  {
    var s, s' := StoreOf(h, d, chains)[head := Contents(h', d', chain)], StoreOf(h', d', chains[head := chain]);
    assert s.Keys == s'.Keys;
    forall k | k in s
      ensures s[k] == s'[k]
    {
      if k != head {
        ContentsKept(h, d, h', d', owner, chains, head, k);
      }
    }
  }

  /** The store without one chain. */
  lemma StoreReduced(h: Heads, d: Buffers, h': Heads, d': Buffers, owner: Owners, chains: Chains, head: Ptr)
    requires AllChained(h, owner, chains) && forall p | p in owner :: p in h && p in d
    requires forall p | p in owner && owner[p] != head ::
      p in h' && h'[p].length == h[p].length && p in d' && d'[p] == d[p]
    ensures StoreOf(h', d', chains - {head}) == StoreOf(h, d, chains) - {head}
  {
    var s, s' := StoreOf(h, d, chains) - {head}, StoreOf(h', d', chains - {head});
    assert s.Keys == s'.Keys;
    forall k | k in s
      ensures s[k] == s'[k]
    {
      ContentsKept(h, d, h', d', owner, chains, head, k);
    }
  }

  // ---------------------------------------------------------------- reserving

  /** The heads after the free list is cut behind its first n pages. */
  function CutFree(h: Heads, free: seq<Ptr>, n: nat): Heads
    requires 0 < n <= |free|
    requires free[n - 1] in h && (n < |free| ==> free[n] in h)
  {
    if n == |free| then h
    else h[free[n] := h[free[n]].(prev := NULL)][free[n - 1] := h[free[n - 1]].(next := NULL)]
  }

  lemma CutFreeLists(h: Heads, free: seq<Ptr>, n: nat)
    requires PageList(h, free) && 0 < n <= |free|
    ensures free[n - 1] in h && (n < |free| ==> free[n] in h)
    ensures PageList(CutFree(h, free, n), free[..n]) && PageList(CutFree(h, free, n), free[n..])
    ensures forall p :: p in CutFree(h, free, n) <==> p in h
    ensures forall p | p in h :: CutFree(h, free, n)[p].length == h[p].length
    ensures forall p | p in h && p !in free :: CutFree(h, free, n)[p] == h[p]
  {
    assert forall i | 0 <= i < |free| :: PageAt(h, free, i, NULL);
    assert PageAt(h, free, n - 1, NULL) && (n < |free| ==> PageAt(h, free, n, NULL));
    var h' := CutFree(h, free, n);
    forall p | p in free
      ensures p in h && p in h'
    {
      var i :| 0 <= i < |free| && free[i] == p;
      assert PageAt(h, free, i, NULL);
    }
    assert PageAt(h, free, |free| - 1, NULL);
    ListCut(h, h', free, n);
  }

  /** The first n free pages become a chain that stores nothing; the other chains keep what they store. */
  lemma PagedReserved(h: Heads, d: Buffers, free: seq<Ptr>, chains: Chains, owner: Owners, top: Ptr, cap: nat,
                      used: seq<Area>, n: nat)
    requires Paged(h, d, free, chains, owner, top, cap, used) && 0 < n <= |free|
    ensures free[n - 1] in h && (n < |free| ==> free[n] in h) && top == free[0] && top != NULL
    ensures
      var h' := CutFree(h, free, n);
      && Paged(h', d, free[n..], chains[top := free[..n]], Owned(owner, free[..n], top),
           if n == |free| then NULL else free[n], cap, used)
    ensures top !in chains
  {
    PagedIs(h, d, free, chains, owner, top, cap, used);
    assert free == free[..n] + free[n..];
    CutFreeLists(h, free, n);
    var h', list, rest := CutFree(h, free, n), free[..n], free[n..];
    var owner' := Owned(owner, list, top);
    SharedReserved(h, d, free, owner, cap, h', list, rest, top);
    ReservedChains(h, free, chains, owner, n);
    PagedIs(h', d, rest, chains[top := list], owner', if n == |free| then NULL else free[n], cap, used);
  }

  lemma ReservedChains(h: Heads, free: seq<Ptr>, chains: Chains, owner: Owners, n: nat)
    requires
      && PageList(h, free) && AllChained(h, owner, chains) && 0 < n <= |free|
      && forall p | p in owner :: p in h && p !in free
    ensures free[n - 1] in h && (n < |free| ==> free[n] in h) && free[0] !in chains
    ensures AllChained(CutFree(h, free, n), Owned(owner, free[..n], free[0]), chains[free[0] := free[..n]])
  {
    CutFreeLists(h, free, n);
    TopUnused(h, owner, chains, free);
    var h', owner', top, list := CutFree(h, free, n), Owned(owner, free[..n], free[0]), free[0], free[..n];
    assert forall p | p in list :: p in free;
    assert Chained(h', owner', top, list);
    ChainAdded(h, owner, chains, h', owner', top, list);
  }

  lemma TextsReserved(h: Heads, d: Buffers, free: seq<Ptr>, chains: Chains, owner: Owners, top: Ptr, cap: nat,
                      used: seq<Area>, n: nat, store: map<Ptr, Bytes>)
    requires Paged(h, d, free, chains, owner, top, cap, used) && 0 < n <= |free| && Texts(store, h, d, chains)
    requires free[n - 1] in h && (n < |free| ==> free[n] in h)
    ensures Texts(store[top := []], CutFree(h, free, n), d, chains[top := free[..n]])
  {
    PagedIs(h, d, free, chains, owner, top, cap, used);
    CutFreeLists(h, free, n);
    var h' := CutFree(h, free, n);
    StoreUpdated(h, d, h', d, owner, chains, top, free[..n]);
    assert forall p | p in free[..n] :: p in free;
    ContentsEmpty(h', d, free[..n]);
    TextsAre(store, h, d, chains);
    TextsAre(store[top := []], h', d, chains[top := free[..n]]);
  }

  lemma HeadOwned(h: Heads, owner: Owners, chains: Chains, head: Ptr)
    requires AllChained(h, owner, chains) && head in chains
    ensures head in owner
  {
    ChainedApart(h, owner, chains, head, head);
  }

  lemma OwnerChained(h: Heads, owner: Owners, chains: Chains, p: Ptr)
    requires AllChained(h, owner, chains) && p in owner
    ensures owner[p] in chains && owner[p] in owner
  {
    AllChainedIs(h, owner, chains);
    HeadOwned(h, owner, chains, owner[p]);
  }

  lemma TopUnused(h: Heads, owner: Owners, chains: Chains, free: seq<Ptr>)
    requires AllChained(h, owner, chains) && free != [] && forall p | p in owner :: p !in free
    ensures free[0] !in chains && forall p | p in owner :: owner[p] != free[0]
  {
    forall p | p in owner
      ensures owner[p] != free[0]
    {
      OwnerChained(h, owner, chains, p);
    }
    if free[0] in chains {
      HeadOwned(h, owner, chains, free[0]);
      assert false;
    }
  }

  lemma SharedReserved(h: Heads, d: Buffers, free: seq<Ptr>, owner: Owners, cap: nat, h': Heads, list: seq<Ptr>,
                       rest: seq<Ptr>, head: Ptr)
    requires Shared(h, d, free, owner, cap) && Distinct(free) && free == list + rest
    requires forall p :: p in h' <==> p in h
    requires forall p | p in h && p in h' :: h'[p].length == h[p].length
    ensures Shared(h', d, rest, Owned(owner, list, head), cap)
    ensures forall p :: p in free <==> p in list || p in rest
    ensures forall p | p in list :: p !in rest && p !in owner
  {
    assert forall p :: p in free <==> p in list || p in rest;
    forall p | p in list
      ensures p !in rest
    {
      var i :| 0 <= i < |list| && list[i] == p;
      assert free[i] == p && forall j | 0 <= j < |rest| :: rest[j] == free[|list| + j];
    }
  }

  // ---------------------------------------------------------------- writing

  /** Heads and buffers that differ only in what the pages of one chain store. */
  ghost predicate Written(h: Heads, d: Buffers, h': Heads, d': Buffers, owner: Owners, head: Ptr, cap: nat)
  {
    && (forall p :: p in h' <==> p in h)
    && (forall p :: p in d' <==> p in d)
    && (forall p | p in h :: h'[p].prev == h[p].prev && h'[p].next == h[p].next)
    && (forall p | p in h && (p !in owner || owner[p] != head) :: h'[p].length == h[p].length)
    && (forall p | p in d && (p !in owner || owner[p] != head) :: d'[p] == d[p])
    && (forall p | p in h && p in d :: |d'[p]| == cap && h'[p].length <= cap)
  }

  lemma PagedWritten(h: Heads, d: Buffers, h': Heads, d': Buffers, free: seq<Ptr>, chains: Chains, owner: Owners,
                     top: Ptr, cap: nat, used: seq<Area>, head: Ptr)
    requires Paged(h, d, free, chains, owner, top, cap, used) && head in chains
    requires Written(h, d, h', d', owner, head, cap)
    ensures Paged(h', d', free, chains, owner, top, cap, used)
  {
    PagedIs(h, d, free, chains, owner, top, cap, used);
    ChainedApart(h, owner, chains, head, head);
    assert PageList(h', free) by {
      PageListFrame(h, h', free);
    }
    assert AllChained(h', owner, chains) by {
      ChainedFrame(h, h', owner, owner, head, chains[head]);
      ChainAdded(h, owner, chains, h', owner, head, chains[head]);
      assert chains[head := chains[head]] == chains;
    }
    assert Shared(h', d', free, owner, cap);
    PagedIs(h', d', free, chains, owner, top, cap, used);
  }

  lemma TextsWritten(h: Heads, d: Buffers, h': Heads, d': Buffers, free: seq<Ptr>, chains: Chains, owner: Owners,
                     top: Ptr, cap: nat, used: seq<Area>, head: Ptr, store: map<Ptr, Bytes>)
    requires Paged(h, d, free, chains, owner, top, cap, used) && head in chains && Texts(store, h, d, chains)
    requires Written(h, d, h', d', owner, head, cap)
    ensures Texts(store[head := Contents(h', d', chains[head])], h', d', chains)
  {
    PagedIs(h, d, free, chains, owner, top, cap, used);
    StoreUpdated(h, d, h', d', owner, chains, head, chains[head]);
    assert chains[head := chains[head]] == chains;
    TextsAre(store, h, d, chains);
    TextsAre(store[head := Contents(h', d', chains[head])], h', d', chains);
  }

  // ---------------------------------------------------------------- extending a chain

  /** The heads after the chain l2 is linked behind the chain l1. */
  function Joined(h: Heads, l1: seq<Ptr>, l2: seq<Ptr>): Heads
    requires l1 != [] && l2 != [] && l1[|l1| - 1] in h && l2[0] in h
  {
    h[l2[0] := h[l2[0]].(prev := l1[|l1| - 1])][l1[|l1| - 1] := h[l1[|l1| - 1]].(next := l2[0])]
  }

  lemma JoinedLists(h: Heads, l1: seq<Ptr>, l2: seq<Ptr>)
    requires PageList(h, l1) && PageList(h, l2) && l1 != [] && l2 != []
    requires forall p | p in l1 :: p !in l2
    ensures l1[|l1| - 1] in h && l2[0] in h && l1[|l1| - 1] in l1 && l2[0] in l2
    ensures PageList(Joined(h, l1, l2), l1 + l2)
    ensures forall p :: p in Joined(h, l1, l2) <==> p in h
    ensures forall p | p in h :: Joined(h, l1, l2)[p].length == h[p].length
    ensures forall p | p in h && p !in l1 && p !in l2 :: Joined(h, l1, l2)[p] == h[p]
  {
    assert forall i | 0 <= i < |l1| :: PageAt(h, l1, i, NULL);
    assert forall i | 0 <= i < |l2| :: PageAt(h, l2, i, NULL);
    assert PageAt(h, l1, |l1| - 1, NULL) && PageAt(h, l2, 0, NULL);
    var h' := Joined(h, l1, l2);
    forall p | p in l1 || p in l2
      ensures p in h && p in h'
    {
      if p in l1 {
        var i :| 0 <= i < |l1| && l1[i] == p;
        assert PageAt(h, l1, i, NULL);
      } else {
        var i :| 0 <= i < |l2| && l2[i] == p;
        assert PageAt(h, l2, i, NULL);
      }
    }
    assert forall i | 0 <= i < |l1| :: l1[i] in l1;
    assert forall i | 0 <= i < |l2| :: l2[i] in l2;
    ListsJoined(h, h', l1, l2);
  }

  /** The chain under `more`, which stores nothing, is linked behind the chain under `head`. */
  lemma PagedExtended(h: Heads, d: Buffers, free: seq<Ptr>, chains: Chains, owner: Owners, top: Ptr, cap: nat,
                      used: seq<Area>, head: Ptr, more: Ptr)
    requires Paged(h, d, free, chains, owner, top, cap, used) && head in chains && more in chains && head != more
    requires forall p | p in chains[more] && p in h :: h[p].length == 0
    ensures chains[head] != [] && chains[more] != [] && chains[head][|chains[head]| - 1] in h && chains[more][0] in h
    ensures
      var h' := Joined(h, chains[head], chains[more]);
      var chains' := (chains - {more})[head := chains[head] + chains[more]];
      && Paged(h', d, free, chains', Owned(owner, chains[more], head), top, cap, used)
  {
    PagedIs(h, d, free, chains, owner, top, cap, used);
    var l1, l2 := chains[head], chains[more];
    ChainedApart(h, owner, chains, head, head);
    ChainedApart(h, owner, chains, more, more);
    JoinedLists(h, l1, l2);
    var h', owner' := Joined(h, l1, l2), Owned(owner, l2, head);
    assert PageList(h', free) by {
      PageListFrame(h, h', free);
    }
    assert AllChained(h', owner', (chains - {more})[head := l1 + l2]) by {
      ChainRemoved(h, owner, chains, h, Disowned(owner, l2), more);
      assert Chained(h', owner', head, l1 + l2);
      ChainAdded(h, Disowned(owner, l2), chains - {more}, h', owner', head, l1 + l2);
    }
    assert Shared(h', d, free, owner', cap);
    PagedIs(h', d, free, (chains - {more})[head := l1 + l2], owner', top, cap, used);
  }

  lemma TextsExtended(h: Heads, d: Buffers, free: seq<Ptr>, chains: Chains, owner: Owners, top: Ptr, cap: nat,
                      used: seq<Area>, head: Ptr, more: Ptr, store: map<Ptr, Bytes>)
    requires
      && Paged(h, d, free, chains, owner, top, cap, used) && head in chains && more in chains && head != more
      && Texts(store, h, d, chains)
    requires forall p | p in chains[more] && p in h :: h[p].length == 0
    requires chains[head] != [] && chains[more] != [] && chains[head][|chains[head]| - 1] in h && chains[more][0] in h
    ensures Texts(store - {more}, Joined(h, chains[head], chains[more]), d,
        (chains - {more})[head := chains[head] + chains[more]])
  {
    PagedIs(h, d, free, chains, owner, top, cap, used);
    ExtendedStore(h, d, Joined(h, chains[head], chains[more]), owner, chains, head, more);
    TextsAre(store, h, d, chains);
    TextsAre(store - {more}, Joined(h, chains[head], chains[more]), d,
      (chains - {more})[head := chains[head] + chains[more]]);
  }

  lemma ExtendedStore(h: Heads, d: Buffers, h': Heads, owner: Owners, chains: Chains, head: Ptr, more: Ptr)
    requires AllChained(h, owner, chains) && head in chains && more in chains && head != more
    requires forall p | p in owner :: p in h && p in d && p in h' && h'[p].length == h[p].length
    requires forall p | p in chains[more] && p in h :: h[p].length == 0
    ensures StoreOf(h', d, (chains - {more})[head := chains[head] + chains[more]]) == StoreOf(h, d, chains) - {more}
  {
    var l1, l2 := chains[head], chains[more];
    ChainedApart(h, owner, chains, head, head);
    ChainedApart(h, owner, chains, more, more);
    StoreUpdated(h, d, h', d, owner, chains, head, l1 + l2);
    ContentsAppend(h', d, l1, l2);
    ContentsFrame(h, d, h', d, l1);
    ContentsEmpty(h', d, l2);
    assert Contents(h', d, l1 + l2) == Contents(h, d, l1);
    assert StoreOf(h, d, chains)[head := Contents(h, d, l1)] == StoreOf(h, d, chains);
    assert StoreOf(h', d, chains[head := l1 + l2]) == StoreOf(h, d, chains);
    assert (chains - {more})[head := l1 + l2] == chains[head := l1 + l2] - {more};
    assert StoreOf(h', d, chains[head := l1 + l2] - {more}) == StoreOf(h', d, chains[head := l1 + l2]) - {more};
  }

  // ---------------------------------------------------------------- giving pages back

  /** The heads after a chain, whose pages have length zero, is linked in front of the free list. */
  function GivenBack(h: Heads, chain: seq<Ptr>, top: Ptr): Heads
    requires chain != [] && chain[|chain| - 1] in h && (top != NULL ==> top in h)
  {
    var h1 := h[chain[|chain| - 1] := h[chain[|chain| - 1]].(next := top)];
    if top != NULL then h1[top := h1[top].(prev := chain[|chain| - 1])] else h1
  }

  /** A chain whose pages all have length zero is freed. */
  lemma PagedFreed(h: Heads, d: Buffers, free: seq<Ptr>, chains: Chains, owner: Owners, top: Ptr, cap: nat,
                   used: seq<Area>, head: Ptr)
    requires Paged(h, d, free, chains, owner, top, cap, used) && head in chains
    requires forall p | p in chains[head] && p in h :: h[p].length == 0
    ensures chains[head] != [] && chains[head][|chains[head]| - 1] in h && (top != NULL ==> top in h)
    ensures
      var h' := GivenBack(h, chains[head], top);
      && Paged(h', d, chains[head] + free, chains - {head}, Disowned(owner, chains[head]), head, cap, used)
  {
    PagedIs(h, d, free, chains, owner, top, cap, used);
    var l := chains[head];
    ChainedApart(h, owner, chains, head, head);
    assert PageAt(h, l, |l| - 1, NULL) && (free != [] ==> PageAt(h, free, 0, NULL));
    var h', owner' := GivenBack(h, l, top), Disowned(owner, l);
    GivenBackLists(h, l, free, top);
    assert AllChained(h', owner', chains - {head}) by {
      ChainRemoved(h, owner, chains, h', owner', head);
    }
    assert Shared(h', d, l + free, owner', cap) by {
      assert forall p :: p in l + free <==> p in l || p in free;
    }
    PagedIs(h', d, l + free, chains - {head}, owner', head, cap, used);
  }

  lemma TextsFreed(h: Heads, d: Buffers, free: seq<Ptr>, chains: Chains, owner: Owners, top: Ptr, cap: nat,
                   used: seq<Area>, head: Ptr, store: map<Ptr, Bytes>)
    requires Paged(h, d, free, chains, owner, top, cap, used) && head in chains && Texts(store, h, d, chains)
    requires chains[head] != [] && chains[head][|chains[head]| - 1] in h && (top != NULL ==> top in h)
    ensures Texts(store - {head}, GivenBack(h, chains[head], top), d, chains - {head})
  {
    PagedIs(h, d, free, chains, owner, top, cap, used);
    StoreReduced(h, d, GivenBack(h, chains[head], top), d, owner, chains, head);
    TextsAre(store, h, d, chains);
    TextsAre(store - {head}, GivenBack(h, chains[head], top), d, chains - {head});
  }

  lemma GivenBackLists(h: Heads, l: seq<Ptr>, free: seq<Ptr>, top: Ptr)
    requires PageList(h, l) && PageList(h, free) && l != [] && top == (if free == [] then NULL else free[0])
    requires forall p | p in l :: p !in free
    ensures l[|l| - 1] in h && (top != NULL ==> top in h)
    ensures PageList(GivenBack(h, l, top), l + free)
    ensures forall p :: p in GivenBack(h, l, top) <==> p in h
    ensures forall p | p in h :: GivenBack(h, l, top)[p].length == h[p].length
    ensures forall p | p in h && p !in l && p !in free :: GivenBack(h, l, top)[p] == h[p]
  {
    assert PageAt(h, l, |l| - 1, NULL) && (free != [] ==> PageAt(h, free, 0, NULL));
    if free == [] {
      assert GivenBack(h, l, top) == h by {
        assert h[l[|l| - 1]].next == NULL;
      }
      assert l + free == l;
    } else {
      JoinedLists(h, l, free);
      assert free[0] != l[|l| - 1];
      assert GivenBack(h, l, top) == Joined(h, l, free);
    }
  }

  // ---------------------------------------------------------------- a new area

  /** Addresses of the pages of an area. */
  function Pages(start: Ptr, count: nat, size: nat): (r: seq<Ptr>)
    ensures |r| == count
    decreases count
  {
    if count == 0 then [] else [start] + Pages(start + size, count - 1, size)
  }

  lemma {:induction false} PagesAt(start: Ptr, count: nat, size: nat, i: nat)
    requires i < count
    ensures i == 0 ==> Pages(start, count, size)[i] == start
    ensures i + 1 < count ==> Pages(start, count, size)[i + 1] == Pages(start, count, size)[i] + size
    decreases count
  {
    if i > 0 {
      PagesAt(start + size, count - 1, size, i - 1);
    }
  }

  lemma {:induction false} PageNumber(start: Ptr, count: nat, size: nat, k: nat)
    requires k < count
    ensures Pages(start, count, size)[k] == start + Room(size, k)
    decreases count
  {
    if k > 0 {
      PageNumber(start + size, count - 1, size, k - 1);
    }
  }

  /** A slot of an area that is made of n pages is one of them. */
  lemma SlotIsPage(a: Area, n: nat, size: nat, k: nat)
    requires 0 < size && a.length == Room(size, n) && HasSlot(a, k, size)
    ensures SlotAt(a, k, size) in Pages(a.fileOffset, n, size)
  {
    if n < k + 1 {
      MoreRoom(size, n, k + 1);
    }
    PageNumber(a.fileOffset, n, size, k);
  }

  lemma {:induction false} PagesDistinct(start: Ptr, count: nat, size: nat)
    requires 0 < size && 0 < start
    ensures Distinct(Pages(start, count, size)) && NULL !in Pages(start, count, size)
    ensures forall p | p in Pages(start, count, size) :: start <= p && p + size <= start + Room(size, count)
    decreases count
  {
    if count > 0 {
      var rest := Pages(start + size, count - 1, size);
      PagesDistinct(start + size, count - 1, size);
      assert start !in rest;
      assert forall i | 0 < i < count :: Pages(start, count, size)[i] == rest[i - 1] && rest[i - 1] in rest;
    }
  }

  lemma HousedLonger(h: Heads, cap: nat, used: seq<Area>, used': seq<Area>)
    requires Housed(h, cap, used) && used <= used'
    ensures Housed(h, cap, used')
  {
    forall p | p in h
      ensures PageIn(used', p, PageSize(cap))
    {
      var i, n := PageArea(used, p, PageSize(cap));
      assert used'[i] == used[i] && SlotIn(used'[i], n, PageSize(cap), p);
    }
  }

  lemma HousedMore(h: Heads, h': Heads, cap: nat, used: seq<Area>, start: Ptr, count: nat)
    requires
      && Housed(h, cap, used) && 0 < start && forall p | p in h' :: p in h || p in Pages(start, count, PageSize(cap))
    ensures Housed(h', cap, used + [Area(PAGE, start, Room(PageSize(cap), count))])
  {
    var used' := used + [Area(PAGE, start, Room(PageSize(cap), count))];
    HousedLonger(h, cap, used, used');
    forall p | p in h'
      ensures PageIn(used', p, PageSize(cap))
    {
      if p !in h {
        assert SlotIn(used'[|used|], count, PageSize(cap), p);
      }
    }
  }

  /** The heads once the area's pages, linked to each other in h1, precede the old free list. */
  function PagesLinked(h1: Heads, top: Ptr, last: Ptr): Heads
    requires top == NULL || top in h1
  {
    if top == NULL then h1 else h1[top := h1[top].(prev := last)]
  }

  /** The pages `more`, which lead on to `rest` and store nothing, were added to those of h and d. */
  ghost predicate AreaMade(h: Heads, d: Buffers, h': Heads, d': Buffers, more: seq<Ptr>, rest: Ptr, cap: nat)
  {
    forall u: nat {:trigger Look(AREA_MADE, u)} :: Look(AREA_MADE, u) ==>
      && (forall p :: p in h' <==> p in h || p in more)
      && (forall p :: p in h' <==> p in d')
      && (forall p | p in h && p in h' :: h'[p] == h[p])
      && (forall p | p in d && p in d' :: d'[p] == d[p])
      && (forall i | 0 <= i < |more| :: PageAt(h', more, i, rest))
      && (forall p | p in more && p in h' && p in d' :: h'[p].length == 0 && |d'[p]| == cap)
  }

  lemma {:induction false} PagesLast(start: Ptr, count: nat, size: nat)
    requires 0 < count
    ensures Pages(start, count, size)[count - 1] == start + Room(size, count - 1)
    ensures Pages(start, count, size)[0] == start
    decreases count
  {
    if count > 1 {
      PagesLast(start + size, count - 1, size);
    }
  }

  /** The pages of a new area are free. */
  lemma PagedExpanded(h: Heads, d: Buffers, h1: Heads, d': Buffers, free: seq<Ptr>, chains: Chains, owner: Owners,
                      top: Ptr, cap: nat, used: seq<Area>,
                      start: Ptr, count: nat, more: seq<Ptr>)
    requires Paged(h, d, free, chains, owner, top, cap, used) && EndBy(used, start) && 0 < start
    requires 0 < count && more == Pages(start, count, PageSize(cap)) && AreaMade(h, d, h1, d', more, top, cap)
    ensures top == NULL || top in h1
    ensures
      var h' := PagesLinked(h1, top, start + Room(PageSize(cap), count - 1));
      && Paged(h', d', more + free, chains, owner, start, cap, used + [Area(PAGE, start, Room(PageSize(cap), count))])
      && SameLengths(h, h')
  {
    var size := PageSize(cap);
    PagedIs(h, d, free, chains, owner, top, cap, used);
    PagesDistinct(start, count, size);
    PagesLast(start, count, size);
    HousedEnds(h, cap, used, start);
    AreaSame(h, d, h1, d', free, owner, top, cap, more);
    var h' := PagesLinked(h1, top, start + Room(size, count - 1));
    assert h' == PagesLinked(h1, top, more[|more| - 1]);
    AreaStore(h, d, h', d', owner, chains);
    HousedMore(h, h', cap, used, start, count);
    PagedIs(h', d', more + free, chains, owner, start, cap, used + [Area(PAGE, start, Room(size, count))]);
  }

  lemma TextsExpanded(h: Heads, d: Buffers, h1: Heads, d': Buffers, free: seq<Ptr>, chains: Chains, owner: Owners,
                      top: Ptr, cap: nat, used: seq<Area>,
                      start: Ptr, count: nat, more: seq<Ptr>, store: map<Ptr, Bytes>)
    requires
      && Paged(h, d, free, chains, owner, top, cap, used) && EndBy(used, start) && 0 < start
      && Texts(store, h, d, chains)
    requires 0 < count && more == Pages(start, count, PageSize(cap)) && AreaMade(h, d, h1, d', more, top, cap)
    requires top == NULL || top in h1
    ensures Texts(store, PagesLinked(h1, top, start + Room(PageSize(cap), count - 1)), d', chains)
  {
    PagedIs(h, d, free, chains, owner, top, cap, used);
    PagesDistinct(start, count, PageSize(cap));
    PagesLast(start, count, PageSize(cap));
    HousedEnds(h, cap, used, start);
    AreaSame(h, d, h1, d', free, owner, top, cap, more);
    AreaStore(h, d, PagesLinked(h1, top, more[|more| - 1]), d', owner, chains);
    TextsAre(store, h, d, chains);
    TextsAre(store, PagesLinked(h1, top, more[|more| - 1]), d', chains);
  }

  /** The pages there were before keep their bytes, and the free list is longer by the new ones. */
  lemma AreaSame(h: Heads, d: Buffers, h1: Heads, d': Buffers, free: seq<Ptr>, owner: Owners, top: Ptr, cap: nat,
                 more: seq<Ptr>)
    requires PageList(h, free) && top == (if free == [] then NULL else free[0]) && Shared(h, d, free, owner, cap)
    requires
      && more != [] && Distinct(more) && NULL !in more && (forall p | p in h :: p !in more)
      && AreaMade(h, d, h1, d', more, top, cap)
    ensures top == NULL || top in h1
    ensures
      var h' := PagesLinked(h1, top, more[|more| - 1]);
      && PageList(h', more + free) && Shared(h', d', more + free, owner, cap) && SameLengths(h, h')
      && (forall p :: p in h' <==> p in h || p in more)
      && (forall p | p in owner :: p in h && p in h' && h'[p] == h[p] && p in d && p in d' && d'[p] == d[p])
  {
    assert Look(AREA_MADE, 0);
    assert free != [] ==> PageAt(h, free, 0, NULL) && free[0] in free;
    AreaLists(h, h1, free, top, more);
    assert forall p :: p in more + free <==> p in more || p in free;
  }

  lemma AreaLists(h: Heads, h1: Heads, free: seq<Ptr>, top: Ptr, more: seq<Ptr>)
    requires PageList(h, free) && top == (if free == [] then NULL else free[0]) && (top == NULL || top in h1)
    requires more != [] && Distinct(more) && NULL !in more && forall p | p in more :: p !in free
    requires forall p | p in free && p in h :: p in h1 && h1[p] == h[p]
    requires forall i | 0 <= i < |more| :: PageAt(h1, more, i, top)
    ensures PageList(PagesLinked(h1, top, more[|more| - 1]), more + free)
    ensures forall p :: p in PagesLinked(h1, top, more[|more| - 1]) <==> p in h1
    ensures forall p | p in h1 :: PagesLinked(h1, top, more[|more| - 1])[p].length == h1[p].length
    ensures forall p | p in h1 && p !in free :: PagesLinked(h1, top, more[|more| - 1])[p] == h1[p]
  {
    assert top != NULL ==> top in free;
    var h', l := PagesLinked(h1, top, more[|more| - 1]), more + free;
    forall i | 0 <= i < |l|
      ensures PageAt(h', l, i, NULL)
    {
      if i < |more| {
        assert PageAt(h1, more, i, top) && l[i] == more[i] && more[i] in more;
        assert top != NULL ==> free[0] in free;
        assert i + 1 == |more| && free != [] ==> l[i + 1] == free[0];
      } else {
        var j := i - |more|;
        assert PageAt(h, free, j, NULL) && l[i] == free[j] && free[j] in free;
        assert j > 0 ==> free[j] != free[0];
      }
    }
    forall i, j | 0 <= i < j < |l|
      ensures l[i] != l[j]
    {
      if i < |more| <= j {
        assert l[i] in more && l[j] in free;
      }
    }
  }

  /** Chains are not reached by writes to pages that no chain owns. */
  lemma AreaStore(h: Heads, d: Buffers, h': Heads, d': Buffers, owner: Owners, chains: Chains)
    requires AllChained(h, owner, chains)
    requires forall p | p in owner :: p in h && p in h' && h'[p] == h[p] && p in d && p in d' && d'[p] == d[p]
    ensures AllChained(h', owner, chains) && StoreOf(h', d', chains) == StoreOf(h, d, chains)
  {
    AllChainedIs(h, owner, chains);
    forall k | k in chains
      ensures Chained(h', owner, k, chains[k]) && Contents(h', d', chains[k]) == Contents(h, d, chains[k])
    {
      assert Chained(h, owner, k, chains[k]);
      ChainedFrame(h, h', owner, owner, k, chains[k]);
      ContentsFrame(h, d, h', d', chains[k]);
    }
    AllChainedIs(h', owner, chains);
  }

  // ---------------------------------------------------------------- areas are made of pages

  lemma NoneWhole(d: Buffers, used: seq<Area>, size: nat)
    requires forall i | 0 <= i < |used| :: used[i].areaType != PAGE
    ensures AreasWhole(d, used, size)
  {
  }

  lemma WholeWider(d: Buffers, used: seq<Area>, used': seq<Area>, size: nat)
    requires AreasWhole(d, used, size) && NoPagesAdded(used, used')
    ensures AreasWhole(d, used', size)
  {
    assert Look(AREAS_WHOLE, 0);
  }

  /** Writing into pages leaves them pages. */
  lemma WholeWritten(d: Buffers, d': Buffers, used: seq<Area>, size: nat)
    requires AreasWhole(d, used, size) && forall p | p in d :: p in d'
    ensures AreasWhole(d', used, size)
  {
    assert Look(AREAS_WHOLE, 0);
  }

  lemma AreaMadeIn(h: Heads, d: Buffers, h': Heads, d': Buffers, more: seq<Ptr>, rest: Ptr, cap: nat)
    requires AreaMade(h, d, h', d', more, rest, cap) && forall p :: p in h <==> p in d
    ensures (forall p | p in d :: p in d') && forall p | p in more :: p in d'
  {
    assert Look(AREA_MADE, 0);
  }

  lemma WholeExpanded(d: Buffers, d': Buffers, used: seq<Area>, start: Ptr, count: nat, size: nat)
    requires AreasWhole(d, used, size) && 0 < size
    requires (forall p | p in d :: p in d') && forall p | p in Pages(start, count, size) :: p in d'
    ensures AreasWhole(d', used + [Area(PAGE, start, Room(size, count))], size)
  {
    assert Look(AREAS_WHOLE, 0);
    var used' := used + [Area(PAGE, start, Room(size, count))];
    forall i, k: nat | 0 <= i < |used'| && used'[i].areaType == PAGE && HasSlot(used'[i], k, size)
      ensures SlotAt(used'[i], k, size) in d'
    {
      if i < |used| {
        assert used'[i] == used[i];
      } else {
        SlotIsPage(used'[i], count, size, k);
      }
    }
  }
}
