/**
 The ELEMENTs that hold no key: a list doubly linked through `same` and `parent` from
 pfree_elements (K2HShm::ReserveElement, PutBackElement, InitializeElementArray).
 */
module ElementStore {
  import opened Layout
  import opened AreaLayout
  import opened ElementTree
  import opened ElementLinks
  import opened TreeMoves
  import opened Forest

  /** Size of an ELEMENT: fourteen members of eight bytes. */
  const ELEMENT_SIZE := 112

  /** Sizes of a KINDEX and of a CKINDEX. */
  const KINDEX_SIZE := 32
  const CKINDEX_SIZE := 16

  const ELEMENT_CNT_RATIO := 4

  const MAX_EXPAND_ELEMENT_CNT := 1024 * 1024

  const CLEARED_BODY := Body(0, 0, NULL, NULL, NULL, NULL, 0, 0, 0, 0)

  /** Element i of a list that leads on to `rest`: no subtrees, its neighbours through `parent` and `same`. */
  ghost predicate LinkedAt(h: LinkHeap, more: seq<Ptr>, i: int, rest: Ptr)
    requires 0 <= i < |more|
  {
    && more[i] in h
    && h[more[i]] ==
         Links(NULL, NULL, if i == 0 then NULL else more[i - 1], if i + 1 < |more| then more[i + 1] else rest)
  }

  /** The list spelled out by the links from `top`. */
  ghost predicate FreeList(h: LinkHeap, free: seq<Ptr>, top: Ptr)
  {
    && Distinct(free) && NULL !in free
    && top == (if free == [] then NULL else free[0])
    && (forall i | 0 <= i < |free| :: LinkedAt(h, free, i, NULL))
  }

  /**
   Every ELEMENT is live, free, or held by an operation under way, and in only one of these ways; free ones have no
   key.
   */
  ghost predicate Stored(b: BodyHeap, h: LinkHeap, loc: Places, free: seq<Ptr>, held: set<Ptr>)
  {
    && (forall p :: p in h <==> p in b)
    && (forall p :: p in h <==> p in loc || p in free || p in held)
    && (forall p | p in loc :: p !in free && p !in held)
    && (forall p | p in held :: p !in free && p != NULL && p in h && h[p] == CLEARED)
    && (forall p | p in free && p in b :: b[p].key == NULL)
  }

  /** The ELEMENT lies in an area for ELEMENTs. */
  ghost predicate ElementIn(used: seq<Area>, p: Ptr)
  {
    exists i | 0 <= i < |used| ::
      used[i].areaType == PAGELIST && used[i].fileOffset <= p && p + ELEMENT_SIZE <= used[i].fileOffset + used[i].length
  }

  ghost predicate ElementsIn(h: LinkHeap, used: seq<Area>)
  {
    forall p | p in h :: ElementIn(used, p)
  }

  /** Everything about the ELEMENTs that are not live, and where all of them are. */
  ghost predicate Kept(b: BodyHeap, h: LinkHeap, loc: Places, free: seq<Ptr>, held: set<Ptr>, top: Ptr, used: seq<Area>)
  {
    forall u: nat {:trigger Look(KEPT, u)} :: Look(KEPT, u) ==>
      Stored(b, h, loc, free, held) && FreeList(h, free, top) && ElementsIn(h, used)
  }

  lemma KeptIs(b: BodyHeap, h: LinkHeap, loc: Places, free: seq<Ptr>, held: set<Ptr>, top: Ptr, used: seq<Area>)
    ensures Kept(b, h, loc, free, held, top, used) <==>
      Stored(b, h, loc, free, held) && FreeList(h, free, top) && ElementsIn(h, used)
  {
    assert Look(KEPT, 0);
  }

  lemma KeptWider(b: BodyHeap, h: LinkHeap, loc: Places, free: seq<Ptr>, held: set<Ptr>, top: Ptr, used: seq<Area>,
                  used': seq<Area>)
    requires Kept(b, h, loc, free, held, top, used) && used <= used'
    ensures Kept(b, h, loc, free, held, top, used')
  {
    KeptIs(b, h, loc, free, held, top, used);
    forall p | p in h
      ensures ElementIn(used', p)
    {
      ElementStillIn(used, used', p);
    }
    KeptIs(b, h, loc, free, held, top, used');
  }

  lemma KeptHeld(b: BodyHeap, h: LinkHeap, loc: Places, free: seq<Ptr>, held: set<Ptr>, top: Ptr, used: seq<Area>,
                 e: Ptr)
    requires Kept(b, h, loc, free, held, top, used) && e in held
    ensures e in h && e in b && h[e] == CLEARED && e != NULL && e !in loc && e !in free
  {
    KeptIs(b, h, loc, free, held, top, used);
  }

  lemma KeptLive(b: BodyHeap, h: LinkHeap, loc: Places, free: seq<Ptr>, held: set<Ptr>, top: Ptr, used: seq<Area>,
                 e: Ptr)
    requires Kept(b, h, loc, free, held, top, used) && e in loc
    ensures e in h && e in b && e !in held && e !in free
  {
    KeptIs(b, h, loc, free, held, top, used);
  }

  /** Link writes to live elements do not reach the free list or the held elements. */
  lemma KeptBeside(b: BodyHeap, h: LinkHeap, h': LinkHeap, loc: Places, loc': Places, free: seq<Ptr>, held: set<Ptr>,
                   top: Ptr, used: seq<Area>)
    requires Kept(b, h, loc, free, held, top, used)
    requires Rearranged(h, h', loc, loc')
    ensures Kept(b, h', loc', free, held, top, used)
  {
    assert Look(REARRANGED, 0);
    KeptIs(b, h, loc, free, held, top, used);
    FreeFrame(h, h', free, top);
    KeptIs(b, h', loc', free, held, top, used);
  }

  lemma FreeFrame(h: LinkHeap, h': LinkHeap, free: seq<Ptr>, top: Ptr)
    requires FreeList(h, free, top)
    requires forall p | p in free :: p in h' && (p in h ==> h'[p] == h[p])
    ensures FreeList(h', free, top)
  {
    forall i | 0 <= i < |free|
      ensures LinkedAt(h', free, i, NULL)
    {
      assert LinkedAt(h, free, i, NULL) && free[i] in free;
    }
  }

  lemma FreeTop(h: LinkHeap, free: seq<Ptr>, top: Ptr)
    requires FreeList(h, free, top) && top != NULL
    ensures free != [] && top == free[0] && top in h
    ensures h[top].same == if |free| > 1 then free[1] else NULL
    ensures |free| > 1 ==> free[1] != NULL && free[1] in h
  {
    assert LinkedAt(h, free, 0, NULL);
    assert |free| > 1 ==> LinkedAt(h, free, 1, NULL);
  }

  /** The first free element is unlinked. */
  lemma FirstReserved(h: LinkHeap, free: seq<Ptr>, top: Ptr, h': LinkHeap)
    requires FreeList(h, free, top) && free != [] && top in h
    requires |free| > 1 ==> free[1] in h
    requires h' == (if |free| > 1 then h[free[1] := h[free[1]].(parent := NULL)] else h)[top := CLEARED]
    ensures FreeList(h', free[1..], h[top].same)
  {
    assert LinkedAt(h, free, 0, NULL);
    var rest := free[1..];
    forall i | 0 <= i < |rest|
      ensures LinkedAt(h', rest, i, NULL)
    {
      assert LinkedAt(h, free, i + 1, NULL) && rest[i] == free[i + 1] && free[0] != free[i + 1];
    }
  }

  /** A list of ELEMENTs linked in front of the free list. */
  lemma PutInFront(h: LinkHeap, free: seq<Ptr>, top: Ptr, h': LinkHeap, more: seq<Ptr>)
    requires FreeList(h, free, top) && more != [] && Distinct(more) && NULL !in more
    requires forall p | p in more :: p !in free
    requires forall i | 0 <= i < |more| :: LinkedAt(h', more, i, top)
    requires forall p | p in free ::
      p in h' && p in h && h'[p] == if p == top then h[p].(parent := more[|more| - 1]) else h[p]
    ensures FreeList(h', more + free, more[0])
  {
    var c := more + free;
    forall i | 0 <= i < |c|
      ensures LinkedAt(h', c, i, NULL)
    {
      if |more| <= i {
        var j := i - |more|;
        assert LinkedAt(h, free, j, NULL) && c[i] == free[j] && free[j] in free;
        assert j > 0 ==> free[j] != free[0];
      } else {
        assert LinkedAt(h', more, i, top);
        assert i + 1 == |more| && free != [] ==> c[i + 1] == free[0];
      }
    }
    forall i, j | 0 <= i < j < |c|
      ensures c[i] != c[j]
    {
      assert more[0] in more;
      if i < |more| <= j {
        assert c[i] in more && c[j] in free;
      }
    }
  }

  lemma OneInFront(h: LinkHeap, free: seq<Ptr>, top: Ptr, h': LinkHeap, e: Ptr)
    requires FreeList(h, free, top) && e != NULL && e !in free && (top != NULL ==> top in h)
    requires h' == (if top != NULL then h[top := h[top].(parent := e)] else h)[e := Links(NULL, NULL, NULL, top)]
    ensures FreeList(h', [e] + free, e)
  {
    forall i | 0 <= i < |free|
      ensures free[i] in h
    {
      assert LinkedAt(h, free, i, NULL);
    }
    PutInFront(h, free, top, h', [e]);
  }

  /** Addresses of the ELEMENTs of an area. */
  function Slots(start: Ptr, count: nat): (r: seq<Ptr>)
    ensures |r| == count
    ensures forall i | 0 <= i < count :: r[i] == start + i * ELEMENT_SIZE
  {
    seq(count, i requires i >= 0 => start + i * ELEMENT_SIZE)
  }

  lemma OneMoreLinked(h: LinkHeap, h': LinkHeap, slots: seq<Ptr>, pos: nat, last: Ptr)
    requires pos < |slots| && Distinct(slots)
    requires forall i | 0 <= i < pos :: LinkedAt(h, slots, i, last)
    requires h' == h[slots[pos] := Links(NULL, NULL, if pos == 0 then NULL else slots[pos - 1],
        if pos + 1 < |slots| then slots[pos + 1] else last)]
    ensures forall i | 0 <= i < pos + 1 :: LinkedAt(h', slots, i, last)
    ensures slots[..pos + 1] == slots[..pos] + [slots[pos]]
  {
    forall i | 0 <= i < pos + 1
      ensures LinkedAt(h', slots, i, last)
    {
      if i < pos {
        assert LinkedAt(h, slots, i, last) && slots[i] != slots[pos];
      }
    }
  }

  /** The first n ELEMENTs of an area were added to those of h and b; they lead on to `last`. */
  ghost predicate ElementsMade(h: LinkHeap, b: BodyHeap, h': LinkHeap, b': BodyHeap, slots: seq<Ptr>, n: nat, last: Ptr)
    requires n <= |slots|
  {
    forall u: nat {:trigger Look(ELEMENTS_MADE, u)} :: Look(ELEMENTS_MADE, u) ==>
      && (forall p :: p in h' <==> p in h || p in slots[..n])
      && (forall p :: p in h' <==> p in b')
      && (forall p | p in h && p in h' :: h'[p] == h[p])
      && (forall p | p in b && p in b' :: b'[p] == b[p])
      && (forall p | p in slots[..n] && p in b' :: b'[p] == CLEARED_BODY)
      && (forall i | 0 <= i < n :: LinkedAt(h', slots, i, last))
  }

  lemma NoneMade(h: LinkHeap, b: BodyHeap, slots: seq<Ptr>, last: Ptr)
    requires forall p :: p in h <==> p in b
    ensures ElementsMade(h, b, h, b, slots, 0, last)
  {
  }

  lemma AllMade(h: LinkHeap, b: BodyHeap, h': LinkHeap, b': BodyHeap, slots: seq<Ptr>, last: Ptr)
    requires ElementsMade(h, b, h', b', slots, |slots|, last) && forall p :: p in h <==> p in b
    ensures forall p :: p in h' <==> p in h || p in slots
    ensures forall p :: p in h' <==> p in b'
    ensures forall p | p in h :: p in h' && p in b' && h'[p] == h[p] && b'[p] == b[p]
    ensures forall p | p in slots :: p in b' && b'[p] == CLEARED_BODY
    ensures forall i | 0 <= i < |slots| :: LinkedAt(h', slots, i, last)
  {
    assert Look(ELEMENTS_MADE, 0) && slots[..|slots|] == slots;
  }

  lemma OneMoreMade(h: LinkHeap, b: BodyHeap, h1: LinkHeap, b1: BodyHeap, h2: LinkHeap, b2: BodyHeap, slots: seq<Ptr>,
                    n: nat, last: Ptr)
    requires
      && n < |slots| && Distinct(slots) && slots[n] !in h && slots[n] !in b
      && ElementsMade(h, b, h1, b1, slots, n, last)
    requires h2 == h1[slots[n] := Links(NULL, NULL, if n == 0 then NULL else slots[n - 1],
        if n + 1 < |slots| then slots[n + 1] else last)]
    requires b2 == b1[slots[n] := CLEARED_BODY]
    ensures ElementsMade(h, b, h2, b2, slots, n + 1, last)
  {
    assert Look(ELEMENTS_MADE, 0);
    OneMoreLinked(h1, h2, slots, n, last);
  }

  lemma SlotsFresh(h: LinkHeap, start: Ptr, count: nat, used: seq<Area>)
    requires ElementsIn(h, used) && EndBy(used, start) && 0 < start
    ensures Distinct(Slots(start, count)) && NULL !in Slots(start, count)
    ensures forall p | p in h :: p < start
    ensures forall p | p in Slots(start, count) :: p !in h && p + ELEMENT_SIZE <= start + ELEMENT_SIZE * count
  {
  }

  lemma ElementStillIn(used: seq<Area>, used': seq<Area>, p: Ptr)
    requires ElementIn(used, p) && used <= used'
    ensures ElementIn(used', p)
  {
    var i :| && 0 <= i < |used| && used[i].areaType == PAGELIST && used[i].fileOffset <= p
               && p + ELEMENT_SIZE <= used[i].fileOffset + used[i].length;
    assert used'[i] == used[i];
  }

  lemma ElementsInMore(h: LinkHeap, h': LinkHeap, used: seq<Area>, start: Ptr, count: nat)
    requires ElementsIn(h, used) && forall p | p in h' :: p in h || p in Slots(start, count)
    ensures ElementsIn(h', used + [Area(PAGELIST, start, ELEMENT_SIZE * count)])
  {
    var used' := used + [Area(PAGELIST, start, ELEMENT_SIZE * count)];
    forall p | p in h'
      ensures ElementIn(used', p)
    {
      if p in h {
        ElementStillIn(used, used', p);
      } else {
        assert used'[|used|] == Area(PAGELIST, start, ELEMENT_SIZE * count);
      }
    }
  }

  /** The links once the area's ELEMENTs, linked to each other in h1, precede the old free list. */
  function AreaLinked(h1: LinkHeap, top: Ptr, last: Ptr): LinkHeap
    requires top == NULL || top in h1
  {
    if top == NULL then h1 else h1[top := h1[top].(parent := last)]
  }

  /** The ELEMENTs of a new area, linked in front of the free list. */
  lemma KeptExpanded(b: BodyHeap, h: LinkHeap, b': BodyHeap, h1: LinkHeap, loc: Places, free: seq<Ptr>, held: set<Ptr>,
                     top: Ptr,
                     start: Ptr, count: nat, used: seq<Area>)
    requires Kept(b, h, loc, free, held, top, used) && EndBy(used, start) && 0 < start && 0 < count
    requires forall p :: p in h1 <==> p in h || p in Slots(start, count)
    requires forall p :: p in h1 <==> p in b'
    requires forall p | p in h && p in h1 :: h1[p] == h[p]
    requires forall p | p in b && p in b' :: b'[p] == b[p]
    requires forall p | p in Slots(start, count) && p in b' :: b'[p].key == NULL
    requires forall i | 0 <= i < count :: LinkedAt(h1, Slots(start, count), i, top)
    ensures top == NULL || top in h1
    ensures
      var h' := AreaLinked(h1, top, start + (count - 1) * ELEMENT_SIZE);
      && Kept(b', h', loc, Slots(start, count) + free, held, start,
           used + [Area(PAGELIST, start, ELEMENT_SIZE * count)])
      && Untouched(b, h, b', h', loc)
  {
    KeptIs(b, h, loc, free, held, top, used);
    SlotsFresh(h, start, count, used);
    if top != NULL {
      FreeTop(h, free, top);
    }
    var h', more := AreaLinked(h1, top, start + (count - 1) * ELEMENT_SIZE), Slots(start, count);
    forall i | 0 <= i < |more|
      ensures LinkedAt(h', more, i, top)
    {
      assert LinkedAt(h1, more, i, top) && more[i] in more;
    }
    PutInFront(h, free, top, h', more);
    assert Stored(b', h', loc, more + free, held) by {
      assert forall p :: p in more + free <==> p in more || p in free;
    }
    assert ElementsIn(h', used + [Area(PAGELIST, start, ELEMENT_SIZE * count)]) by {
      ElementsInMore(h, h', used, start, count);
    }
    KeptIs(b', h', loc, more + free, held, start, used + [Area(PAGELIST, start, ELEMENT_SIZE * count)]);
  }

  /** The links after the first free element is unlinked. */
  function Unlinked(h: LinkHeap, e: Ptr): LinkHeap
    requires e in h && (h[e].same == NULL || h[e].same in h)
  {
    (if h[e].same != NULL then h[h[e].same := h[h[e].same].(parent := NULL)] else h)[e := CLEARED]
  }

  /** The first free element is held instead. */
  lemma KeptReserved(b: BodyHeap, h: LinkHeap, loc: Places, free: seq<Ptr>, held: set<Ptr>, e: Ptr, used: seq<Area>)
    requires Kept(b, h, loc, free, held, e, used) && e != NULL
    ensures e in h && (h[e].same == NULL || h[e].same in h) && free != []
    ensures Kept(b, Unlinked(h, e), loc, free[1..], held + {e}, h[e].same, used)
    ensures e !in loc && e !in held && e in b && Untouched(b, h, b, Unlinked(h, e), loc)
  {
    KeptIs(b, h, loc, free, held, e, used);
    FreeTop(h, free, e);
    var h' := Unlinked(h, e);
    FirstReserved(h, free, e, h');
    assert forall p :: p in free <==> p == e || p in free[1..];
    assert e !in free[1..];
    KeptIs(b, h', loc, free[1..], held + {e}, h[e].same, used);
  }

  /** The links after the held element e is linked in front of the free list. */
  function LinkedBack(h: LinkHeap, top: Ptr, e: Ptr): LinkHeap
    requires top == NULL || top in h
  {
    (if top != NULL then h[top := h[top].(parent := e)] else h)[e := Links(NULL, NULL, NULL, top)]
  }

  lemma StoredBack(b: BodyHeap, h: LinkHeap, b': BodyHeap, loc: Places, free: seq<Ptr>, held: set<Ptr>, top: Ptr,
                   e: Ptr)
    requires Stored(b, h, loc, free, held) && e in held && (top == NULL || (top in h && top in free))
    requires b'.Keys == b.Keys && forall p | p in b && p != e :: b'[p] == b[p]
    requires e in b' ==> b'[e].key == NULL
    ensures
      && Stored(b', LinkedBack(h, top, e), loc, [e] + free, held - {e})
      && Untouched(b, h, b', LinkedBack(h, top, e), loc)
  {
    assert forall p :: p in [e] + free <==> p == e || p in free;
  }

  /** A held element is free instead. */
  lemma KeptPutBack(b: BodyHeap, h: LinkHeap, b': BodyHeap, loc: Places, free: seq<Ptr>, held: set<Ptr>, top: Ptr,
                    used: seq<Area>, e: Ptr)
    requires Kept(b, h, loc, free, held, top, used) && e in held
    requires b'.Keys == b.Keys && forall p | p in b && p != e :: b'[p] == b[p]
    requires e in b' ==> b'[e].key == NULL
    ensures top == NULL || top in h
    ensures Kept(b', LinkedBack(h, top, e), loc, [e] + free, held - {e}, e, used)
    ensures Untouched(b, h, b', LinkedBack(h, top, e), loc)
  {
    KeptIs(b, h, loc, free, held, top, used);
    if top != NULL {
      FreeTop(h, free, top);
    }
    OneInFront(h, free, top, LinkedBack(h, top, e), e);
    StoredBack(b, h, b', loc, free, held, top, e);
    KeptIs(b', LinkedBack(h, top, e), loc, [e] + free, held - {e}, e, used);
  }

  /** The body of an ELEMENT that is not free is written. */
  lemma KeptWritten(b: BodyHeap, b': BodyHeap, h: LinkHeap, loc: Places, free: seq<Ptr>, held: set<Ptr>, top: Ptr,
                    used: seq<Area>, e: Ptr)
    requires
      && Kept(b, h, loc, free, held, top, used) && e in b && e in b' && b' == b[e := b'[e]] && (e in loc || e in held)
    requires e in loc ==> b'[e].hash == b[e].hash && b'[e].subhash == b[e].subhash
    ensures Kept(b', h, loc, free, held, top, used) && Untouched(b, h, b', h, loc)
  {
    KeptIs(b, h, loc, free, held, top, used);
    KeptIs(b', h, loc, free, held, top, used);
  }

  /** A held element is live instead; only it and the live elements s were written. */
  lemma KeptHung(b: BodyHeap, h: LinkHeap, h': LinkHeap, loc: Places, free: seq<Ptr>, held: set<Ptr>, top: Ptr,
                 used: seq<Area>, cp: CKPtr, e: Ptr, s: set<Ptr>)
    requires Kept(b, h, loc, free, held, top, used) && e in held
    requires SameOutside(h, h', s + {e}) && forall p | p in s :: p in loc
    ensures Kept(b, h', loc[e := cp], free, held - {e}, top, used)
  {
    KeptIs(b, h, loc, free, held, top, used);
    FreeFrame(h, h', free, top);
    KeptIs(b, h', loc[e := cp], free, held - {e}, top, used);
  }

  /** A live element is held instead; only the live elements s were written. */
  lemma KeptUnhung(b: BodyHeap, h: LinkHeap, h': LinkHeap, loc: Places, free: seq<Ptr>, held: set<Ptr>, top: Ptr,
                   used: seq<Area>, e: Ptr, s: set<Ptr>)
    requires Kept(b, h, loc, free, held, top, used) && e in loc && e != NULL
    requires SameOutside(h, h', s) && forall p | p in s :: p in loc
    requires e in h' && h'[e] == CLEARED
    ensures Kept(b, h', loc - {e}, free, held + {e}, top, used)
  {
    KeptIs(b, h, loc, free, held, top, used);
    FreeFrame(h, h', free, top);
    KeptIs(b, h', loc - {e}, free, held + {e}, top, used);
  }

  /** The last area may be given up when it is none of ELEMENTs. */
  lemma KeptShrunk(b: BodyHeap, h: LinkHeap, loc: Places, free: seq<Ptr>, held: set<Ptr>, top: Ptr, used: seq<Area>,
                   n: nat)
    requires Kept(b, h, loc, free, held, top, used) && |used| == n + 1 && used[n].areaType != PAGELIST
    ensures Kept(b, h, loc, free, held, top, used[..n])
  {
    KeptIs(b, h, loc, free, held, top, used);
    forall p | p in h
      ensures ElementIn(used[..n], p)
    {
      var i :| && 0 <= i < |used| && used[i].areaType == PAGELIST && used[i].fileOffset <= p
               && p + ELEMENT_SIZE <= used[i].fileOffset + used[i].length;
      assert used[..n][i] == used[i];
    }
    KeptIs(b, h, loc, free, held, top, used[..n]);
  }

  /** An ELEMENT that has a key is live when no operation holds one. */
  lemma KeyedIsLive(b: BodyHeap, h: LinkHeap, loc: Places, free: seq<Ptr>, top: Ptr, used: seq<Area>, e: Ptr)
    requires Kept(b, h, loc, free, {}, top, used) && e in b && b[e].key != NULL
    ensures e in loc
  {
    KeptIs(b, h, loc, free, {}, top, used);
  }
}
