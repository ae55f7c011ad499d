/**
 Reading and writing the byte string of a page chain piece by piece, and the arithmetic of
 page counts.
 */
module PageWrites {
  import opened Layout
  import opened AreaLayout
  import opened PageStore

  lemma TakesAtMost(cap: nat, length: nat, n: nat, m: nat)
    requires 0 < cap && Takes(cap, length, n) && n <= m
    ensures length <= Room(cap, m)
  {
    if n < m {
      MoreRoom(cap, n, m);
    }
  }

  lemma OneMorePage(h: Heads, h': Heads, more: seq<Ptr>, n: nat, last: Ptr)
    requires n < |more| && Distinct(more)
    requires forall i | 0 <= i < n :: PageAt(h, more, i, last)
    requires more[n] in h' && forall p | p in h && p != more[n] :: p in h' && h'[p] == h[p]
    requires PageAt(h', more, n, last)
    ensures forall i | 0 <= i < n + 1 :: PageAt(h', more, i, last)
    ensures more[..n + 1] == more[..n] + [more[n]]
  {
    forall i | 0 <= i < n + 1
      ensures PageAt(h', more, i, last)
    {
      if i < n {
        assert PageAt(h, more, i, last) && more[i] != more[n];
      }
    }
  }

  lemma FreshPages(h: Heads, d: Buffers, free: seq<Ptr>, chains: Chains, owner: Owners, top: Ptr, cap: nat,
                   used: seq<Area>, start: Ptr, count: nat)
    requires Paged(h, d, free, chains, owner, top, cap, used) && EndBy(used, start) && 0 < start
    ensures Distinct(Pages(start, count, PageSize(cap)))
    ensures forall p | p in h :: p !in Pages(start, count, PageSize(cap))
    ensures forall p :: p in h <==> p in d
  {
    PagedIs(h, d, free, chains, owner, top, cap, used);
    HousedEnds(h, cap, used, start);
    PagesDistinct(start, count, PageSize(cap));
  }

  lemma FreeNext(h: Heads, d: Buffers, free: seq<Ptr>, chains: Chains, owner: Owners, top: Ptr, cap: nat,
                 used: seq<Area>)
    requires Paged(h, d, free, chains, owner, top, cap, used)
    ensures forall i | 0 <= i < |free| :: PageAt(h, free, i, NULL)
    ensures NULL !in free && Distinct(free) && top == (if free == [] then NULL else free[0])
  {
    PagedIs(h, d, free, chains, owner, top, cap, used);
  }

  lemma NextInFree(h: Heads, free: seq<Ptr>, n: nat)
    requires 0 < n <= |free| && NULL !in free && Distinct(free)
    requires forall i | 0 <= i < |free| :: PageAt(h, free, i, NULL)
    ensures free[n - 1] in h
    ensures h[free[n - 1]].next == if n < |free| then free[n] else NULL
    ensures n < |free| ==> free[n] in h && free[n] != NULL && free[n] != free[n - 1]
  {
    assert PageAt(h, free, n - 1, NULL);
    assert n < |free| ==> PageAt(h, free, n, NULL);
  }

  // ---------------------------------------------------------------- one page of a chain

  lemma ContentsSplit(h: Heads, d: Buffers, list: seq<Ptr>, i: nat)
    requires i < |list|
    ensures Contents(h, d, list) ==
      Contents(h, d, list[..i]) + (PageBytes(h, d, list[i]) + Contents(h, d, list[i + 1..]))
    ensures Contents(h, d, list[..i + 1]) == Contents(h, d, list[..i]) + PageBytes(h, d, list[i])
    ensures Contents(h, d, list[i..]) == PageBytes(h, d, list[i]) + Contents(h, d, list[i + 1..])
  {
    ContentsAppend(h, d, list[..i], list[i..]);
    assert list == list[..i] + list[i..];
    assert list[i..][1..] == list[i + 1..];
    ContentsAppend(h, d, list[..i], [list[i]]);
    assert list[..i + 1] == list[..i] + [list[i]];
    assert Contents(h, d, [list[i]]) == PageBytes(h, d, list[i]) + Contents(h, d, []);
  }

  /** What a chain's pages hold and where they lead, as far as page i. */
  lemma ChainStep(h: Heads, chain: seq<Ptr>, i: nat)
    requires PageList(h, chain) && i < |chain|
    ensures chain[i] in h && chain[i] != NULL
    ensures h[chain[i]].next == if i + 1 < |chain| then chain[i + 1] else NULL
  {
    assert PageAt(h, chain, i, NULL);
  }

  /**
   The chain while it is written page by page: pages before i store `done`, pages from i on are as
   they were in h0 and d0, and so is everything outside the chain.
   */
  ghost predicate WritingAt(h0: Heads, d0: Buffers, h: Heads, d: Buffers, owner: Owners, head: Ptr, chain: seq<Ptr>,
                            cap: nat, i: nat, done: Bytes)
    requires i <= |chain|
  {
    forall u: nat {:trigger Look(WRITING_AT, u)} ::
      Look(WRITING_AT, u) ==> WritingFacts(h0, d0, h, d, owner, head, chain, cap, i, done)
  }

  ghost predicate WritingFacts(h0: Heads, d0: Buffers, h: Heads, d: Buffers, owner: Owners, head: Ptr, chain: seq<Ptr>,
                               cap: nat, i: nat, done: Bytes)
    requires i <= |chain|
  {
    && Written(h0, d0, h, d, owner, head, cap)
    && PageList(h0, chain) && PageList(h, chain)
    && (forall p | p in chain :: p in owner && owner[p] == head && p in h && p in d && p in h0 && p in d0)
    && Contents(h, d, chain[..i]) == done
    && (forall j | i <= j < |chain| :: h[chain[j]] == h0[chain[j]] && d[chain[j]] == d0[chain[j]])
  }

  lemma WritingIs(h0: Heads, d0: Buffers, h: Heads, d: Buffers, owner: Owners, head: Ptr, chain: seq<Ptr>, cap: nat,
                  i: nat, done: Bytes)
    requires i <= |chain|
    ensures WritingAt(h0, d0, h, d, owner, head, chain, cap, i, done) <==>
      WritingFacts(h0, d0, h, d, owner, head, chain, cap, i, done)
  {
    assert Look(WRITING_AT, 0);
  }

  lemma ChainWhole(d0: Buffers, h0: Heads, d: Buffers, h: Heads, owner: Owners, head: Ptr, chain: seq<Ptr>, cap: nat,
                   i: nat, done: Bytes, used: seq<Area>)
    requires i <= |chain| && WritingAt(h0, d0, h, d, owner, head, chain, cap, i, done)
    requires AreasWhole(d0, used, PageSize(cap))
    ensures AreasWhole(d, used, PageSize(cap))
  {
    WritingIs(h0, d0, h, d, owner, head, chain, cap, i, done);
    WholeWritten(d0, d, used, PageSize(cap));
  }

  /** The page that is next to be written. */
  lemma WritingPage(h0: Heads, d0: Buffers, h: Heads, d: Buffers, owner: Owners, head: Ptr, chain: seq<Ptr>, cap: nat,
                    i: nat, done: Bytes)
    requires i < |chain| && WritingAt(h0, d0, h, d, owner, head, chain, cap, i, done)
    ensures chain[i] in h && chain[i] in d && chain[i] != NULL && |d[chain[i]]| == cap && h[chain[i]].length <= cap
    ensures h[chain[i]].next == if i + 1 < |chain| then chain[i + 1] else NULL
    ensures Contents(h0, d0, chain[i..]) == PageBytes(h, d, chain[i]) + Contents(h0, d0, chain[i + 1..])
  {
    WritingIs(h0, d0, h, d, owner, head, chain, cap, i, done);
    ChainStep(h, chain, i);
    ContentsSplit(h0, d0, chain, i);
    assert chain[i] in chain;
  }

  lemma WritingStarts(h: Heads, d: Buffers, free: seq<Ptr>, chains: Chains, owner: Owners, top: Ptr, cap: nat,
                      used: seq<Area>, head: Ptr)
    requires Paged(h, d, free, chains, owner, top, cap, used) && head in chains
    ensures WritingAt(h, d, h, d, owner, head, chains[head], cap, 0, [])
    ensures |chains[head]| > 0 && chains[head][0] == head && NULL !in chains[head]
  {
    PagedIs(h, d, free, chains, owner, top, cap, used);
    ChainedApart(h, owner, chains, head, head);
    WritingIs(h, d, h, d, owner, head, chains[head], cap, 0, []);
  }

  /** Page i gets the length len and the buffer buf. */
  lemma WritingStep(h0: Heads, d0: Buffers, h: Heads, d: Buffers, owner: Owners, head: Ptr, chain: seq<Ptr>, cap: nat,
                    i: nat, done: Bytes, len: nat, buf: Bytes)
    requires i < |chain| && WritingAt(h0, d0, h, d, owner, head, chain, cap, i, done)
    requires len <= cap && |buf| == cap && chain[i] in h
    ensures WritingAt(h0, d0, h[chain[i] := h[chain[i]].(length := len)], d[chain[i] := buf], owner, head, chain, cap,
        i + 1, done + buf[..len])
  {
    WritingIs(h0, d0, h, d, owner, head, chain, cap, i, done);
    var p := chain[i];
    var h', d' := h[p := h[p].(length := len)], d[p := buf];
    assert p in chain;
    PageListFrame(h, h', chain);
    ContentsFrame(h, d, h', d', chain[..i]);
    ContentsSplit(h', d', chain, i);
    assert PageBytes(h', d', p) == buf[..len];
    assert Written(h0, d0, h', d', owner, head, cap);
    WritingIs(h0, d0, h', d', owner, head, chain, cap, i + 1, done + buf[..len]);
  }

  /** What the whole chain stores when its pages from i on are still as they were. */
  lemma WritingEnds(h0: Heads, d0: Buffers, h: Heads, d: Buffers, owner: Owners, head: Ptr, chain: seq<Ptr>, cap: nat,
                    i: nat, done: Bytes)
    requires i <= |chain| && WritingAt(h0, d0, h, d, owner, head, chain, cap, i, done)
    ensures Contents(h, d, chain) == done + Contents(h0, d0, chain[i..])
    ensures Written(h0, d0, h, d, owner, head, cap)
  {
    WritingIs(h0, d0, h, d, owner, head, chain, cap, i, done);
    assert chain == chain[..i] + chain[i..];
    ContentsAppend(h, d, chain[..i], chain[i..]);
    ContentsFrame(h0, d0, h, d, chain[i..]);
  }

  /** After `used` pages, full ones but for the last, `rest` is what remains of bytes. */
  ghost predicate Filling(cap: nat, bytes: Bytes, rest: Bytes, used: nat)
  {
    && |rest| <= |bytes| && rest == bytes[|bytes| - |rest|..]
    && (if |rest| > 0 then |bytes| - |rest| == Room(cap, used)
        else if bytes == [] then used == 0
        else Takes(cap, |bytes|, used))
  }

  /** The part of bytes that is written when `rest` remains. */
  function Done(bytes: Bytes, rest: Bytes): Bytes
  {
    if |rest| <= |bytes| then bytes[..|bytes| - |rest|] else []
  }

  lemma FillingStep(cap: nat, bytes: Bytes, rest: Bytes, used: nat, one: nat)
    requires 0 < cap && Filling(cap, bytes, rest, used) && 0 < |rest|
    requires one == if |rest| < cap then |rest| else cap
    ensures Filling(cap, bytes, rest[one..], used + 1)
    ensures Done(bytes, rest[one..]) == Done(bytes, rest) + rest[..one]
  {
  }

  /** The pages that are full when `used` pages were written and `rest` remains: all but a last one. */
  function FullCount(rest: Bytes, used: nat): nat
  {
    if |rest| == 0 && used > 0 then used - 1 else used
  }

  lemma FullStep(h: Heads, chain: seq<Ptr>, cap: nat, rest: Bytes, used: nat, one: nat)
    requires used < |chain| && Distinct(chain) && 0 < |rest| && one == if |rest| < cap then |rest| else cap
    requires chain[used] in h && AllFull(h, chain[..FullCount(rest, used)], cap)
    ensures
      var h' := h[chain[used] := h[chain[used]].(length := one)];
      AllFull(h', chain[..FullCount(rest[one..], used + 1)], cap)
  {
    var h' := h[chain[used] := h[chain[used]].(length := one)];
    var full := chain[..FullCount(rest[one..], used + 1)];
    forall p | p in full && p in h'
      ensures h'[p].length == cap
    {
      var j :| 0 <= j < |full| && full[j] == p;
      if j < used {
        assert chain[..used][j] == p && p in chain[..used] && chain[j] != chain[used];
      }
    }
  }

  /** Whether the chain was long enough, told from what remains. */
  lemma FillingEnds(cap: nat, bytes: Bytes, rest: Bytes, used: nat, pages: nat)
    requires 0 < cap && Filling(cap, bytes, rest, used) && used <= pages && (0 < |rest| ==> used == pages)
    ensures |rest| == 0 <==> |bytes| <= Room(cap, pages)
    ensures |rest| == 0 ==> Done(bytes, rest) == bytes
  {
    if |rest| == 0 && bytes != [] {
      TakesAtMost(cap, |bytes|, used, pages);
    }
  }

  // ---------------------------------------------------------------- reading

  /** The bytes of s from n on. */
  function Drop(s: Bytes, n: nat): Bytes
  {
    if n <= |s| then s[n..] else []
  }

  /** At most n bytes of s from offset on. */
  function Clip(s: Bytes, offset: nat, n: nat): Bytes
  {
    var rest := Drop(s, offset);
    if n <= |rest| then rest[..n] else rest
  }

  lemma DropAppend(s: Bytes, t: Bytes, n: nat)
    ensures Drop(s + t, n) == if n <= |s| then s[n..] + t else Drop(t, n - |s|)
  {
  }

  /**
   Reading `length` bytes from `offset` on, page by page: `got` was read from the pages before i, and
   what remains to be read is `left` bytes from offset `at` on in the pages from i on.
   */
  ghost predicate Reading(whole: Bytes, offset: nat, length: nat, got: Bytes, tail: Bytes, at: nat, left: nat)
  {
    && |got| + left == length
    && Drop(whole, offset) == got + Drop(tail, at)
    && (got != [] ==> at <= |tail|)
  }

  /** A page that lies before the offset is passed over. */
  lemma ReadingSkips(whole: Bytes, offset: nat, length: nat, got: Bytes, page: Bytes, tail: Bytes, at: nat, left: nat)
    requires Reading(whole, offset, length, got, page + tail, at, left) && |page| <= at
    ensures Reading(whole, offset, length, got, tail, at - |page|, left)
  {
    DropAppend(page, tail, at);
  }

  /** A page that the offset lies in is read as far as wanted. */
  lemma ReadingTakes(whole: Bytes, offset: nat, length: nat, got: Bytes, page: Bytes, tail: Bytes, at: nat, left: nat,
                     n: nat)
    requires Reading(whole, offset, length, got, page + tail, at, left) && at < |page|
    requires n == if |page| - at < left then |page| - at else left
    ensures Reading(whole, offset, length, got + page[at..at + n], page + tail, at + n, left - n)
    ensures left - n > 0 ==> Reading(whole, offset, length, got + page[at..at + n], tail, 0, left - n)
  {
    DropAppend(page, tail, at);
    DropAppend(page, tail, at + n);
    PieceTaken(got, page, tail, at, n);
    assert left - n > 0 ==> page[at + n..] == [] && Drop(tail, 0) == tail;
  }

  lemma PieceTaken(got: Bytes, page: Bytes, tail: Bytes, at: nat, n: nat)
    requires at + n <= |page|
    ensures got + (page[at..] + tail) == got + page[at..at + n] + (page[at + n..] + tail)
  {
  }

  /**
   What one page gives: a piece of at most `left` bytes, the position behind it, and the position in the next page.
   */
  predicate PageRead(page: Bytes, at: nat, left: nat, piece: Bytes, at': nat, next: nat)
  {
    if |page| <= at then piece == [] && at' == at && next == at - |page|
    else piece == Clip(page, at, left) && at' == at + |piece| && next == 0
  }

  lemma ReadingPage(whole: Bytes, offset: nat, length: nat, got: Bytes, page: Bytes, tail: Bytes, at: nat, left: nat,
                    piece: Bytes, at': nat, next: nat)
    requires Reading(whole, offset, length, got, page + tail, at, left) && PageRead(page, at, left, piece, at', next)
    ensures |piece| <= left && Reading(whole, offset, length, got + piece, page + tail, at', left - |piece|)
    ensures |piece| < left ==> Reading(whole, offset, length, got + piece, tail, next, left - |piece|) && |page| <= at'
  {
    if |page| <= at {
      assert got + piece == got;
      ReadingSkips(whole, offset, length, got, page, tail, at, left);
    } else {
      var n := if |page| - at < left then |page| - at else left;
      assert piece == page[at..at + n];
      ReadingTakes(whole, offset, length, got, page, tail, at, left, n);
    }
  }

  /** One page of a chain was read. */
  lemma ReadingStep(h: Heads, d: Buffers, chain: seq<Ptr>, i: nat, whole: Bytes, offset: nat, length: nat, data: Bytes,
                    at: nat, left: nat, piece: Bytes, at': nat, next: nat)
    requires i < |chain| && Reading(whole, offset, length, data, Contents(h, d, chain[i..]), at, left)
    requires PageRead(PageBytes(h, d, chain[i]), at, left, piece, at', next)
    ensures
      && |piece| <= left
      && Reading(whole, offset, length, data + piece, Contents(h, d, chain[i..]), at', left - |piece|)
    ensures |piece| < left ==>
      Reading(whole, offset, length, data + piece, Contents(h, d, chain[i + 1..]), next, left - |piece|)
    ensures |piece| < left && i + 1 == |chain| ==> Drop(Contents(h, d, chain[i..]), at') == []
  {
    assert chain[i..][1..] == chain[i + 1..];
    ReadingPage(whole, offset, length, data, PageBytes(h, d, chain[i]), Contents(h, d, chain[i + 1..]), at, left, piece,
      at', next);
  }

  lemma ReadingDone(whole: Bytes, offset: nat, length: nat, got: Bytes, tail: Bytes, at: nat, left: nat)
    requires Reading(whole, offset, length, got, tail, at, left) && (left == 0 || Drop(tail, at) == [])
    ensures got == Clip(whole, offset, length)
    ensures Drop(tail, at) == Drop(whole, offset + |got|)
  {
    assert Drop(whole, offset + |got|) == Drop(Drop(whole, offset), |got|);
  }

  // ---------------------------------------------------------------- writing at an offset

  /** b is a with `bytes` written from `offset` on; what lies between the end of a and the offset is not said. */
  ghost predicate Overwritten(a: Bytes, b: Bytes, offset: nat, bytes: Bytes)
  {
    && |b| == (if |a| < offset + |bytes| then offset + |bytes| else |a|)
    && (forall i | offset <= i < offset + |bytes| :: b[i] == bytes[i - offset])
    && (forall i | 0 <= i < |a| && !(offset <= i < offset + |bytes|) :: b[i] == a[i])
  }

  /** A page is filled up before any page behind it stores something. */
  ghost predicate Packed(h: Heads, list: seq<Ptr>, cap: nat)
  {
    forall i, j | 0 <= i < j < |list| && list[i] in h && list[j] in h ::
      h[list[i]].length == cap || h[list[j]].length == 0
  }

  ghost predicate AllFull(h: Heads, list: seq<Ptr>, cap: nat)
  {
    forall p | p in list && p in h :: h[p].length == cap
  }

  /** Full pages and then packed ones are packed. */
  lemma PackedBehindFull(h: Heads, chain: seq<Ptr>, i: nat, cap: nat)
    requires i <= |chain| && AllFull(h, chain[..i], cap) && Packed(h, chain[i..], cap)
    ensures Packed(h, chain, cap)
  {
    forall j, k | 0 <= j < k < |chain| && chain[j] in h && chain[k] in h
      ensures h[chain[j]].length == cap || h[chain[k]].length == 0
    {
      if j < i {
        assert chain[j] == chain[..i][j] && chain[..i][j] in chain[..i];
      } else {
        assert chain[j] == chain[i..][j - i] && chain[k] == chain[i..][k - i];
      }
    }
  }

  /**
   The bytes a being overwritten page by page: the pages done store `pre`, the others still store
   `tail`, and `rest` remains to be written from offset `at` of the others on.
   */
  ghost predicate Patching(a: Bytes, offset: nat, bytes: Bytes, pre: Bytes, tail: Bytes, at: nat, rest: Bytes)
  {
    && |rest| <= |bytes| && rest == bytes[|bytes| - |rest|..]
    && |pre| + at + |rest| == offset + |bytes|
    && (|rest| < |bytes| ==> at == 0)
    && tail == Drop(a, |pre|)
    && (forall i | offset <= i < |pre| :: pre[i] == bytes[i - offset])
    && (forall i | 0 <= i < |pre| && i < |a| && i < offset :: pre[i] == a[i])
  }

  /** The buffer of a page with `piece` written at `at`. */
  function Patched(buf: Bytes, at: nat, piece: Bytes): (r: Bytes)
    requires at + |piece| <= |buf|
    ensures |r| == |buf|
  {
    buf[..at] + piece + buf[at + |piece|..]
  }

  /** The new length of the page. */
  function Grown(len: nat, at: nat, piece: Bytes): nat
  {
    if len < at + |piece| then at + |piece| else len
  }

  /** One page done that the writing does not end in; the pages behind a page that was not full store nothing. */
  lemma PatchingOn(a: Bytes, offset: nat, bytes: Bytes, pre: Bytes, buf: Bytes, len: nat, tail: Bytes, at: nat,
                   rest: Bytes, n: nat)
    requires
      && len <= |buf| && Patching(a, offset, bytes, pre, buf[..len] + tail, at, rest) && (len == |buf| || tail == [])
    requires if |buf| <= at then n == 0 else at + n == |buf| && n < |rest|
    ensures n <= |rest| && (if |buf| <= at then |buf| else at) + n <= |buf|
    ensures
      var at0 := if |buf| <= at then |buf| else at;
      && Grown(len, at0, rest[..n]) == |buf|
      && Patching(a, offset, bytes, pre + Patched(buf, at0, rest[..n]), tail, if |buf| <= at then at - |buf| else 0,
           rest[n..])
  {
    var at0 := if |buf| <= at then |buf| else at;
    var page := Patched(buf, at0, rest[..n]);
    var pre' := pre + page;
    assert Drop(a, |pre'|) == Drop(buf[..len] + tail, |buf|);
    forall i | |pre| <= i < |pre'| && i < |a| && i < offset
      ensures pre'[i] == a[i]
    {
      assert a[i] == Drop(a, |pre|)[i - |pre|] && pre'[i] == page[i - |pre|];
    }
    forall i | offset <= i < |pre'| && |pre| <= i
      ensures pre'[i] == bytes[i - offset]
    {
      assert pre'[i] == page[i - |pre|];
    }
  }

  /** The page that the writing ends in. */
  lemma PatchingEnds(a: Bytes, offset: nat, bytes: Bytes, pre: Bytes, buf: Bytes, len: nat, tail: Bytes, at: nat,
                     rest: Bytes)
    requires
      && len <= |buf| && Patching(a, offset, bytes, pre, buf[..len] + tail, at, rest) && (len == |buf| || tail == [])
    requires at + |rest| <= |buf|
    ensures Overwritten(a, pre + (Patched(buf, at, rest)[..Grown(len, at, rest)] + tail), offset, bytes)
  {
    var page := Patched(buf, at, rest)[..Grown(len, at, rest)];
    var b := pre + (page + tail);
    assert |a| > |pre| ==> |a| == |pre| + len + |tail|;
    forall i | 0 <= i < |a| && !(offset <= i < offset + |bytes|)
      ensures b[i] == a[i]
    {
      if |pre| <= i {
        assert a[i] == Drop(a, |pre|)[i - |pre|];
      }
    }
    forall i | offset <= i < offset + |bytes|
      ensures b[i] == bytes[i - offset]
    {
      if |pre| <= i {
        assert b[i] == page[i - |pre|];
      }
    }
  }

  lemma {:induction false} EmptyContents(h: Heads, d: Buffers, list: seq<Ptr>)
    requires Contents(h, d, list) == []
    requires forall p | p in list :: p in h && p in d && h[p].length <= |d[p]|
    ensures forall p | p in list :: h[p].length == 0
  {
    if list != [] {
      assert |PageBytes(h, d, list[0])| == 0 && Contents(h, d, list[1..]) == [];
      EmptyContents(h, d, list[1..]);
    }
  }

  /** The pages of a chain that stores nothing all have length zero. */
  lemma EmptyChain(h: Heads, d: Buffers, free: seq<Ptr>, chains: Chains, owner: Owners, top: Ptr, cap: nat,
                   used: seq<Area>, head: Ptr)
    requires Paged(h, d, free, chains, owner, top, cap, used) && head in chains && Contents(h, d, chains[head]) == []
    ensures forall p | p in chains[head] :: p in h && h[p].length == 0
  {
    ChainedIn(h, d, free, chains, owner, top, cap, used, head);
    EmptyContents(h, d, chains[head]);
  }

  lemma JoinedLengths(h: Heads, d: Buffers, l1: seq<Ptr>, l2: seq<Ptr>)
    requires l1 != [] && l2 != [] && l1[|l1| - 1] in h && l2[0] in h
    requires forall p | p in l2 :: p in h && h[p].length == 0
    ensures Contents(Joined(h, l1, l2), d, l2) == []
  {
    ContentsEmpty(Joined(h, l1, l2), d, l2);
  }

  /** A chain that stores nothing is linked behind another one: all that changes. */
  lemma ChainsJoined(h: Heads, d: Buffers, free: seq<Ptr>, chains: Chains, owner: Owners, top: Ptr, cap: nat,
                     used: seq<Area>, head: Ptr, more: Ptr, store: map<Ptr, Bytes>)
    requires Paged(h, d, free, chains, owner, top, cap, used) && Texts(store, h, d, chains)
    requires head in chains && more in chains && head != more && more in store && store[more] == []
    ensures chains[head] != [] && chains[more] != [] && chains[more][0] == more
    ensures chains[head][|chains[head]| - 1] in h && more in h && chains[head][|chains[head]| - 1] != more
    ensures
      var h', chains' := Joined(h, chains[head], chains[more]), (chains - {more})[head := chains[head] + chains[more]];
      && Paged(h', d, free, chains', Owned(owner, chains[more], head), top, cap, used)
      && Texts(store - {more}, h', d, chains')
      && Contents(h', d, chains[more]) == [] && SameLengths(h, h')
  {
    TextAt(store, h, d, chains, more);
    EmptyChain(h, d, free, chains, owner, top, cap, used, more);
    PagedExtended(h, d, free, chains, owner, top, cap, used, head, more);
    TextsExtended(h, d, free, chains, owner, top, cap, used, head, more, store);
    ChainedIn(h, d, free, chains, owner, top, cap, used, more);
    ChainedIn(h, d, free, chains, owner, top, cap, used, head);
    assert chains[head][|chains[head]| - 1] in chains[head] && more in chains[more];
    JoinedLengths(h, d, chains[head], chains[more]);
  }

  lemma TakesUnique(cap: nat, length: nat, m: nat, n: nat)
    requires 0 < cap && Takes(cap, length, m) && Takes(cap, length, n)
    ensures m == n
  {
    if m < n {
      TakesAtMost(cap, length, m, n - 1);
    } else if n < m {
      TakesAtMost(cap, length, n, m - 1);
    }
  }

  // ---------------------------------------------------------------- one page written in place

  /** The heads and buffers after `piece` is written at `at` into page p. */
  function HeadsPut(h: Heads, p: Ptr, at: nat, piece: Bytes): Heads
    requires p in h
  {
    h[p := h[p].(length := Grown(h[p].length, at, piece))]
  }

  function BuffersPut(d: Buffers, p: Ptr, at: nat, piece: Bytes): Buffers
    requires p in d && at + |piece| <= |d[p]|
  {
    d[p := Patched(d[p], at, piece)]
  }

  /** One page of a chain is written: the pages around it keep their bytes. */
  lemma PagePut(h: Heads, d: Buffers, free: seq<Ptr>, chains: Chains, owner: Owners, top: Ptr, cap: nat,
                used: seq<Area>, head: Ptr, i: nat, at: nat, piece: Bytes, store: map<Ptr, Bytes>)
    requires
      && Paged(h, d, free, chains, owner, top, cap, used) && head in chains && i < |chains[head]| && at + |piece| <= cap
      && Texts(store, h, d, chains)
    ensures
      && chains[head][i] in h && chains[head][i] in d && |d[chains[head][i]]| == cap && h[chains[head][i]].length <= cap
    ensures
      var chain, h', d' :=
        chains[head], HeadsPut(h, chains[head][i], at, piece), BuffersPut(d, chains[head][i], at, piece);
      && Paged(h', d', free, chains, owner, top, cap, used)
      && Texts(store[head := Contents(h', d', chain)], h', d', chains)
      && Contents(h', d', chain[..i]) == Contents(h, d, chain[..i])
      && Contents(h', d', chain[i + 1..]) == Contents(h, d, chain[i + 1..])
      && PageBytes(h', d', chain[i]) == Patched(d[chain[i]], at, piece)[..Grown(h[chain[i]].length, at, piece)]
      && PageList(h', chain)
  {
    ChainedIn(h, d, free, chains, owner, top, cap, used, head);
    var chain := chains[head];
    assert chain[i] in chain;
    var h', d' := HeadsPut(h, chain[i], at, piece), BuffersPut(d, chain[i], at, piece);
    PagedIs(h, d, free, chains, owner, top, cap, used);
    PagedWritten(h, d, h', d', free, chains, owner, top, cap, used, head);
    TextsWritten(h, d, h', d', free, chains, owner, top, cap, used, head, store);
    ContentsFrame(h, d, h', d', chain[..i]);
    ContentsFrame(h, d, h', d', chain[i + 1..]);
    PageListFrame(h, h', chain);
  }

  /**
   A write of `bytes` from `offset` on into a chain that stored a, about to go on with page i: the pages
   before it are done, and it and the pages behind it store what they did.
   */
  ghost predicate PatchingAt(a: Bytes, offset: nat, bytes: Bytes, h: Heads, d: Buffers, chain: seq<Ptr>, cap: nat,
                             i: nat, at: nat, rest: Bytes)
    requires i <= |chain|
  {
    forall u: nat {:trigger Look(PATCHING_AT, u)} ::
      Look(PATCHING_AT, u) ==> PatchingFacts(a, offset, bytes, h, d, chain, cap, i, at, rest)
  }

  ghost predicate PatchingFacts(a: Bytes, offset: nat, bytes: Bytes, h: Heads, d: Buffers, chain: seq<Ptr>, cap: nat,
                                i: nat, at: nat, rest: Bytes)
    requires i <= |chain|
  {
    && Patching(a, offset, bytes, Contents(h, d, chain[..i]), Contents(h, d, chain[i..]), at, rest)
    && Packed(h, chain[i..], cap) && 0 < |rest| && Room(cap, i) + at + |rest| == offset + |bytes|
    && AllFull(h, chain[..i], cap)
  }

  lemma PatchingIs(a: Bytes, offset: nat, bytes: Bytes, h: Heads, d: Buffers, chain: seq<Ptr>, cap: nat, i: nat,
                   at: nat, rest: Bytes)
    requires i <= |chain|
    ensures PatchingAt(a, offset, bytes, h, d, chain, cap, i, at, rest) <==>
      PatchingFacts(a, offset, bytes, h, d, chain, cap, i, at, rest)
  {
    assert Look(PATCHING_AT, 0);
  }

  lemma PatchingStarts(a: Bytes, offset: nat, bytes: Bytes, h: Heads, d: Buffers, chain: seq<Ptr>, cap: nat)
    requires a == Contents(h, d, chain) && Packed(h, chain, cap) && 0 < |bytes|
    ensures PatchingAt(a, offset, bytes, h, d, chain, cap, 0, offset, bytes)
  {
    assert chain[..0] == [] && chain[0..] == chain;
    PatchingIs(a, offset, bytes, h, d, chain, cap, 0, offset, bytes);
  }

  /** A write that is still under way and fits the pages has not reached their end. */
  lemma PatchingRoom(a: Bytes, offset: nat, bytes: Bytes, h: Heads, d: Buffers, chain: seq<Ptr>, cap: nat, i: nat,
                     at: nat, rest: Bytes)
    requires
      && 0 < cap && i <= |chain| && PatchingAt(a, offset, bytes, h, d, chain, cap, i, at, rest)
      && offset + |bytes| <= Room(cap, |chain|)
    ensures i < |chain|
  {
    PatchingIs(a, offset, bytes, h, d, chain, cap, i, at, rest);
    FewerPages(cap, i, |chain|);
  }

  /** The pages behind a page that is not full store nothing. */
  lemma BehindPartial(h: Heads, d: Buffers, chain: seq<Ptr>, cap: nat, i: nat)
    requires i < |chain| && Packed(h, chain[i..], cap) && forall p | p in chain :: p in h
    ensures h[chain[i]].length == cap || Contents(h, d, chain[i + 1..]) == []
    ensures Packed(h, chain[i + 1..], cap)
  {
    var l := chain[i..];
    assert l[0] == chain[i] && l[1..] == chain[i + 1..];
    if h[chain[i]].length != cap {
      forall p | p in l[1..]
        ensures h[p].length == 0
      {
        var j :| 0 <= j < |l| - 1 && l[1..][j] == p;
        assert l[j + 1] == p;
      }
      ContentsEmpty(h, d, l[1..]);
    }
    forall j, k | 0 <= j < k < |l| - 1
      ensures h[l[1..][j]].length == cap || h[l[1..][k]].length == 0
    {
      assert l[1..][j] == l[j + 1] && l[1..][k] == l[k + 1];
    }
  }

  /** Where in page i the write puts how much. */
  function PutPos(cap: nat, at: nat): nat
  {
    if cap <= at then cap else at
  }

  function PutLength(cap: nat, at: nat, left: nat): nat
  {
    if cap <= at then 0 else if cap - at < left then cap - at else left
  }

  lemma PackedFrame(h: Heads, h': Heads, list: seq<Ptr>, cap: nat)
    requires Packed(h, list, cap) && forall p | p in list && p in h' :: p in h && h'[p].length == h[p].length
    ensures Packed(h', list, cap)
  {
  }

  /** The write of one page within the bytes of the whole chain. */
  lemma PatchingBytes(a: Bytes, offset: nat, bytes: Bytes, pre: Bytes, buf: Bytes, len: nat, tail: Bytes, cap: nat,
                      at: nat, rest: Bytes, page: Bytes)
    requires
      && len <= |buf| == cap && Patching(a, offset, bytes, pre, buf[..len] + tail, at, rest)
      && (len == cap || tail == [])
    requires PutLength(cap, at, |rest|) < |rest|
    requires
      var pos, piece := PutPos(cap, at), rest[..PutLength(cap, at, |rest|)];
      page == Patched(buf, pos, piece)[..Grown(len, pos, piece)]
    ensures Patching(a, offset, bytes, pre + page, tail, if cap <= at then at - cap else 0,
        rest[PutLength(cap, at, |rest|)..])
  {
    var n := PutLength(cap, at, |rest|);
    PatchingOn(a, offset, bytes, pre, buf, len, tail, at, rest, n);
    assert page == Patched(buf, PutPos(cap, at), rest[..n]);
  }

  /** Page i was written and the write goes on behind it. */
  lemma PatchingPage(a: Bytes, offset: nat, bytes: Bytes, h: Heads, d: Buffers, h': Heads, d': Buffers, chain: seq<Ptr>,
                     cap: nat, i: nat, at: nat, rest: Bytes, n: nat, p: Ptr)
    requires i < |chain| && p == chain[i] && PatchingAt(a, offset, bytes, h, d, chain, cap, i, at, rest)
    requires (forall p | p in chain :: p in h) && p in d && |d[p]| == cap && h[p].length <= cap
    requires n == PutLength(cap, at, |rest|) < |rest| && h' == HeadsPut(h, p, PutPos(cap, at), rest[..n])
    requires PageBytes(h', d', p) ==
      Patched(d[p], PutPos(cap, at), rest[..n])[..Grown(h[p].length, PutPos(cap, at), rest[..n])]
    requires forall j | 0 <= j < |chain| && j != i :: chain[j] != p
    requires
      && Contents(h', d', chain[..i]) == Contents(h, d, chain[..i])
      && Contents(h', d', chain[i + 1..]) == Contents(h, d, chain[i + 1..])
    ensures PatchingAt(a, offset, bytes, h', d', chain, cap, i + 1, if cap <= at then at - cap else 0, rest[n..])
  {
    PatchingIs(a, offset, bytes, h, d, chain, cap, i, at, rest);
    BehindPartial(h, d, chain, cap, i);
    var at' := if cap <= at then at - cap else 0;
    assert Patching(a, offset, bytes, Contents(h', d', chain[..i + 1]), Contents(h', d', chain[i + 1..]), at',
      rest[n..])
    by {
      PatchedPage(a, offset, bytes, h, d, h', d', chain, cap, i, at, rest, n, p);
    }
    PackedRest(h, chain, i, cap, PutPos(cap, at), rest[..n]);
    PatchingIs(a, offset, bytes, h', d', chain, cap, i + 1, at', rest[n..]);
  }

  /** The bytes of the pages before and behind, once page i took what it takes. */
  lemma PatchedPage(a: Bytes, offset: nat, bytes: Bytes, h: Heads, d: Buffers, h': Heads, d': Buffers, chain: seq<Ptr>,
                    cap: nat, i: nat, at: nat, rest: Bytes, n: nat, p: Ptr)
    requires i < |chain| && p == chain[i] && p in h && p in d && |d[p]| == cap && h[p].length <= cap
    requires Patching(a, offset, bytes, Contents(h, d, chain[..i]), Contents(h, d, chain[i..]), at, rest)
    requires n == PutLength(cap, at, |rest|) < |rest| && (h[p].length < cap ==> Contents(h, d, chain[i + 1..]) == [])
    requires PageBytes(h', d', p) ==
      Patched(d[p], PutPos(cap, at), rest[..n])[..Grown(h[p].length, PutPos(cap, at), rest[..n])]
    requires
      && Contents(h', d', chain[..i]) == Contents(h, d, chain[..i])
      && Contents(h', d', chain[i + 1..]) == Contents(h, d, chain[i + 1..])
    ensures Patching(a, offset, bytes, Contents(h', d', chain[..i + 1]), Contents(h', d', chain[i + 1..]),
        if cap <= at then at - cap else 0, rest[n..])
  {
    ContentsSplit(h, d, chain, i);
    ContentsSplit(h', d', chain, i);
    PatchingBytes(a, offset, bytes, Contents(h, d, chain[..i]), d[p], h[p].length, Contents(h, d, chain[i + 1..]), cap,
      at, rest, PageBytes(h', d', p));
  }

  /** A page filled to its end joins the full ones; those behind it are as packed as before. */
  lemma PackedRest(h: Heads, chain: seq<Ptr>, i: nat, cap: nat, pos: nat, piece: Bytes)
    requires i < |chain| && AllFull(h, chain[..i], cap) && Packed(h, chain[i + 1..], cap)
    requires chain[i] in h && h[chain[i]].length <= cap && pos + |piece| == cap
    requires forall j | 0 <= j < |chain| && j != i :: chain[j] != chain[i]
    ensures Packed(HeadsPut(h, chain[i], pos, piece), chain[i + 1..], cap)
    ensures AllFull(HeadsPut(h, chain[i], pos, piece), chain[..i + 1], cap)
  {
    PackedFrame(h, HeadsPut(h, chain[i], pos, piece), chain[i + 1..], cap);
    assert forall p | p in chain[..i + 1] :: p == chain[i] || p in chain[..i];
  }

  /** A page that is full stays full, and a page that is not may grow when all before it are full. */
  lemma PackedGrown(h: Heads, chain: seq<Ptr>, i: nat, cap: nat, pos: nat, piece: Bytes)
    requires i < |chain| && AllFull(h, chain[..i], cap) && Packed(h, chain, cap)
    requires chain[i] in h && h[chain[i]].length <= cap && pos + |piece| <= cap
    requires forall j | 0 <= j < |chain| && j != i :: chain[j] != chain[i]
    ensures Packed(HeadsPut(h, chain[i], pos, piece), chain, cap)
  {
    var h' := HeadsPut(h, chain[i], pos, piece);
    forall j, k | 0 <= j < k < |chain| && chain[j] in h' && chain[k] in h'
      ensures h'[chain[j]].length == cap || h'[chain[k]].length == 0
    {
      assert h[chain[j]].length == cap || h[chain[k]].length == 0;
      if j < i {
        assert chain[j] == chain[..i][j] && chain[..i][j] in chain[..i];
      }
    }
  }

  /** Page i was written and the write ends in it. */
  lemma PatchingFinished(a: Bytes, offset: nat, bytes: Bytes, h: Heads, d: Buffers, h': Heads, d': Buffers,
                         chain: seq<Ptr>, cap: nat, i: nat, at: nat, rest: Bytes)
    requires i < |chain| && PatchingAt(a, offset, bytes, h, d, chain, cap, i, at, rest)
    requires forall p | p in chain :: p in h
    requires chain[i] in d && |d[chain[i]]| == cap && h[chain[i]].length <= cap
    requires PutLength(cap, at, |rest|) == |rest|
    requires
      var p, pos := chain[i], PutPos(cap, at);
      && pos + |rest| <= cap
      && h' == HeadsPut(h, p, pos, rest)
      && PageBytes(h', d', p) == Patched(d[p], pos, rest)[..Grown(h[p].length, pos, rest)]
    requires forall j | 0 <= j < |chain| && j != i :: chain[j] != chain[i]
    requires
      && Contents(h', d', chain[..i]) == Contents(h, d, chain[..i])
      && Contents(h', d', chain[i + 1..]) == Contents(h, d, chain[i + 1..])
    ensures Packed(h', chain, cap)
    ensures Overwritten(a, Contents(h', d', chain), offset, bytes)
    ensures Room(cap, i) + at + |rest| == offset + |bytes|
  {
    PatchingIs(a, offset, bytes, h, d, chain, cap, i, at, rest);
    assert Packed(h', chain, cap) by {
      PackedBehindFull(h, chain, i, cap);
      PackedGrown(h, chain, i, cap, PutPos(cap, at), rest);
    }
    BehindPartial(h, d, chain, cap, i);
    ContentsSplit(h, d, chain, i);
    ContentsSplit(h', d', chain, i);
    PatchingEnds(a, offset, bytes, Contents(h, d, chain[..i]), d[chain[i]], h[chain[i]].length,
      Contents(h, d, chain[i + 1..]), at, rest);
  }

  /** Pages that store nothing add nothing. */
  lemma ContentsLonger(h: Heads, d: Buffers, chain: seq<Ptr>, n: nat)
    requires n <= |chain| && Contents(h, d, chain[n..]) == []
    ensures Contents(h, d, chain) == Contents(h, d, chain[..n])
  {
    assert chain == chain[..n] + chain[n..];
    ContentsAppend(h, d, chain[..n], chain[n..]);
  }

  lemma EmptyPacked(h: Heads, d: Buffers, list: seq<Ptr>, cap: nat)
    requires Contents(h, d, list) == []
    requires forall p | p in list :: p in h && p in d && h[p].length <= |d[p]|
    ensures Packed(h, list, cap)
  {
    EmptyContents(h, d, list);
    assert forall j | 0 <= j < |list| :: list[j] in list;
  }

  /** The chain is longer by pages that store nothing. */
  lemma PatchingLonger(a: Bytes, offset: nat, bytes: Bytes, h: Heads, d: Buffers, chain: seq<Ptr>, h': Heads,
                       d': Buffers, chain': seq<Ptr>, cap: nat, at: nat, rest: Bytes)
    requires PatchingAt(a, offset, bytes, h, d, chain, cap, |chain|, at, rest)
    requires |chain| < |chain'| && chain'[..|chain|] == chain
    requires Contents(h', d', chain'[|chain|..]) == [] && Contents(h', d', chain') == Contents(h, d, chain)
    requires forall p | p in chain' :: p in h' && p in d' && h'[p].length <= |d'[p]|
    requires forall p | p in chain && p in h' :: p in h && h'[p].length == h[p].length
    ensures PatchingAt(a, offset, bytes, h', d', chain', cap, |chain|, at, rest)
  {
    PatchingIs(a, offset, bytes, h, d, chain, cap, |chain|, at, rest);
    assert chain[..|chain|] == chain && Contents(h, d, chain[|chain|..]) == [];
    ContentsLonger(h', d', chain', |chain|);
    EmptyPacked(h', d', chain'[|chain|..], cap);
    assert AllFull(h', chain'[..|chain|], cap);
    PatchingIs(a, offset, bytes, h', d', chain', cap, |chain|, at, rest);
  }

  /** Page i of a chain as the write finds it. */
  lemma ChainPage(h: Heads, d: Buffers, free: seq<Ptr>, chains: Chains, owner: Owners, top: Ptr, cap: nat,
                  used: seq<Area>, head: Ptr, i: nat)
    requires Paged(h, d, free, chains, owner, top, cap, used) && head in chains && i < |chains[head]|
    ensures
      && chains[head][i] in h && chains[head][i] in d && |d[chains[head][i]]| == cap && h[chains[head][i]].length <= cap
    ensures h[chains[head][i]].next == if i + 1 < |chains[head]| then chains[head][i + 1] else NULL
    ensures NULL !in chains[head] && forall p | p in chains[head] :: p in h && p in d && h[p].length <= |d[p]|
    ensures forall j | 0 <= j < |chains[head]| && j != i :: chains[head][j] != chains[head][i]
  {
    ChainedIn(h, d, free, chains, owner, top, cap, used, head);
    ChainStep(h, chains[head], i);
    assert chains[head][i] in chains[head];
  }

  // ---------------------------------------------------------------- one chain rewritten

  /** Every chain but one stores what it did. */
  ghost predicate Rewritten(store: map<Ptr, Bytes>, store': map<Ptr, Bytes>, head: Ptr)
  {
    head in store && head in store' && store' == store[head := store'[head]]
  }

  lemma RewrittenOnce(store: map<Ptr, Bytes>, head: Ptr, bytes: Bytes)
    requires head in store
    ensures Rewritten(store, store[head := bytes], head) && store[head := store[head]] == store
  {
  }

  lemma RewrittenTwice(store: map<Ptr, Bytes>, store1: map<Ptr, Bytes>, store2: map<Ptr, Bytes>, head: Ptr)
    requires Rewritten(store, store1, head) && Rewritten(store1, store2, head)
    ensures Rewritten(store, store2, head)
  {
  }
}
