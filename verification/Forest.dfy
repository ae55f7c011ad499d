/**
 All the trees of the index together: which element is below which CKINDEX, and what moving,
 putting and taking one element, or adding empty CKINDEXs, does to that.
 */
module Forest {
  import opened Layout
  import opened KeyIndexPos
  import opened KIndexHome
  import opened ElementTree
  import opened ElementLinks
  import opened TreeMoves

  type Trees = map<CKPtr, Tree>

  /** The CKINDEX of every live element. */
  type Places = map<Ptr, CKPtr>

  /** loc puts exactly the elements of t at cp. */
  ghost predicate PlacedAt(t: Tree, loc: Places, cp: CKPtr)
  {
    forall p :: p in Ptrs(t) <==> p in loc && loc[p] == cp
  }

  /** The CKINDEX at cp holds the tree t, whose elements are those that loc puts there. */
  ghost predicate Rooted(b: BodyHeap, h: LinkHeap, c: CKHeap, cp: CKPtr, t: Tree, loc: Places)
  {
    forall u: nat {:trigger Look(ROOTED, u)} :: Look(ROOTED, u) ==> Holds(b, h, c, cp, t) && PlacedAt(t, loc, cp)
  }

  lemma RootedIs(b: BodyHeap, h: LinkHeap, c: CKHeap, cp: CKPtr, t: Tree, loc: Places)
    ensures Rooted(b, h, c, cp, t, loc) <==> Holds(b, h, c, cp, t) && PlacedAt(t, loc, cp)
  {
    assert Look(ROOTED, 0);
  }

  ghost predicate Planted(b: BodyHeap, h: LinkHeap, c: CKHeap, trees: Trees, loc: Places)
  {
    && (forall cp | cp in c :: cp in trees)
    && (forall cp | cp in trees :: Rooted(b, h, c, cp, trees[cp], loc))
    && (forall p | p in loc :: loc[p] in trees)
  }

  lemma PlantedElement(b: BodyHeap, h: LinkHeap, c: CKHeap, trees: Trees, loc: Places, p: Ptr)
    requires Planted(b, h, c, trees, loc) && p in loc
    ensures p in b && p in h && p != NULL && loc[p] in c
  {
    RootedIs(b, h, c, loc[p], trees[loc[p]], loc);
    var t := trees[loc[p]];
    OrderedIn(b, t);
    LinkedIn(h, NULL, t);
  }

  /** A tree stays rooted when only other elements and other CKINDEXs are written and placed. */
  lemma RootedBeside(b: BodyHeap, h: LinkHeap, c: CKHeap, h': LinkHeap, c': CKHeap, cp: CKPtr, t: Tree,
                     loc: Places, loc': Places, s: set<Ptr>, cs: set<CKPtr>)
    requires Rooted(b, h, c, cp, t, loc) && SameOutside(h, h', s) && CKOutside(c, c', cs)
    requires cp !in cs
    requires forall p | p in s && p in loc :: loc[p] != cp
    requires forall p :: p in loc && loc[p] == cp <==> p in loc' && loc'[p] == cp
    ensures Rooted(b, h', c', cp, t, loc')
  {
    RootedIs(b, h, c, cp, t, loc);
    LinkedBeside(h, h', s, t);
  }

  lemma RestRooted(b: BodyHeap, h: LinkHeap, c: CKHeap, h': LinkHeap, c': CKHeap, trees: Trees, loc: Places,
                   cs: set<CKPtr>, loc': Places, s: set<Ptr>)
    requires Planted(b, h, c, trees, loc) && SameOutside(h, h', s) && CKOutside(c, c', cs)
    requires forall p | p in s && p in loc :: loc[p] in cs
    requires forall p | p in loc' :: loc'[p] in cs || (p in loc && loc[p] == loc'[p])
    requires forall p | p in loc :: loc[p] in cs || (p in loc' && loc[p] == loc'[p])
    ensures forall cp | cp in trees && cp !in cs :: Rooted(b, h', c', cp, trees[cp], loc')
  {
    forall cp | cp in trees && cp !in cs
      ensures Rooted(b, h', c', cp, trees[cp], loc')
    {
      RootedBeside(b, h, c, h', c', cp, trees[cp], loc, loc', s, cs);
    }
  }

  /** New trees take the places of the trees at cp1 and cp2; only elements placed there were written. */
  lemma Replanted(b: BodyHeap, h: LinkHeap, c: CKHeap, h': LinkHeap, c': CKHeap, trees: Trees, loc: Places,
                  cp1: CKPtr, t1: Tree, cp2: CKPtr, t2: Tree, loc': Places, s: set<Ptr>)
    requires Planted(b, h, c, trees, loc) && cp1 in trees && cp2 in trees && (cp1 == cp2 ==> t1 == t2)
    requires Rooted(b, h', c', cp1, t1, loc') && Rooted(b, h', c', cp2, t2, loc')
    requires SameOutside(h, h', s) && CKOutside(c, c', {cp1, cp2})
    requires forall p | p in s && p in loc :: loc[p] == cp1 || loc[p] == cp2
    requires forall p | p in loc' :: loc'[p] == cp1 || loc'[p] == cp2 || (p in loc && loc[p] == loc'[p])
    requires forall p | p in loc :: loc[p] == cp1 || loc[p] == cp2 || (p in loc' && loc[p] == loc'[p])
    ensures Planted(b, h', c', trees[cp1 := t1][cp2 := t2], loc')
  {
    RestRooted(b, h, c, h', c', trees, loc, {cp1, cp2}, loc', s);
    var trees' := trees[cp1 := t1][cp2 := t2];
    assert forall cp | cp in trees' :: Rooted(b, h', c', cp, trees'[cp], loc');
  }

  /** The live elements are the same, and nothing but their links changed. */
  ghost predicate Rearranged(h: LinkHeap, h': LinkHeap, loc: Places, loc': Places)
  {
    forall u: nat {:trigger Look(REARRANGED, u)} :: Look(REARRANGED, u) ==>
      && (forall p :: p in loc' <==> p in loc)
      && (forall p :: p in h' <==> p in h)
      && (forall p | p in h && p !in loc :: h'[p] == h[p])
  }

  lemma RearrangedSame(h: LinkHeap, loc: Places)
    ensures Rearranged(h, h, loc, loc)
  {
  }

  lemma RearrangedKeys(h: LinkHeap, h': LinkHeap, loc: Places, loc': Places)
    requires Rearranged(h, h', loc, loc')
    ensures loc'.Keys == loc.Keys
  {
    assert Look(REARRANGED, 0);
  }

  lemma RearrangedTwice(h: LinkHeap, h1: LinkHeap, h2: LinkHeap, loc: Places, loc1: Places, loc2: Places)
    requires Rearranged(h, h1, loc, loc1) && Rearranged(h1, h2, loc1, loc2)
    ensures Rearranged(h, h2, loc, loc2)
  {
  }

  /** The places after the elements m went to dst. */
  function PlacesMoved(loc: Places, m: set<Ptr>, dst: CKPtr): Places
  {
    map p | p in loc :: if p in m then dst else loc[p]
  }

  lemma BothPlanted(b: BodyHeap, h: LinkHeap, c: CKHeap, trees: Trees, loc: Places, src: CKPtr, dst: CKPtr)
    requires Planted(b, h, c, trees, loc) && src in trees && dst in trees && src != dst
    ensures Between(b, h, c, src, dst, Top, trees[src], trees[dst])
  {
    RootedIs(b, h, c, src, trees[src], loc);
    RootedIs(b, h, c, dst, trees[dst], loc);
  }

  lemma MovedRooted(b: BodyHeap, h: LinkHeap, c: CKHeap, h': LinkHeap, c': CKHeap, loc: Places, v: Move, m: set<Ptr>)
    returns (s: set<Ptr>)
    requires Rooted(b, h, c, v.src, v.t, loc) && Rooted(b, h, c, v.dst, v.d, loc)
    requires v.ctx == Top && Moved(b, h, c, h', c', v, m)
    ensures Rooted(b, h', c', v.src, v.t', PlacesMoved(loc, m, v.dst))
    ensures Rooted(b, h', c', v.dst, v.d', PlacesMoved(loc, m, v.dst))
    ensures v.src != v.dst && SameOutside(h, h', s) && CKOutside(c, c', {v.src, v.dst})
    ensures forall p | p in m :: p in loc && loc[p] == v.src
    ensures forall p | p in s :: p in loc && (loc[p] == v.src || loc[p] == v.dst)
  {
    assert Look(CARRIED, 0) && Look(BETWEEN, 0);
    RootedIs(b, h, c, v.src, v.t, loc);
    RootedIs(b, h, c, v.dst, v.d, loc);
    s := Ptrs(v.t) + Ptrs(v.d);
  }

  lemma MovedPlanted(b: BodyHeap, h: LinkHeap, c: CKHeap, h': LinkHeap, c': CKHeap, trees: Trees, loc: Places, v: Move,
                     m: set<Ptr>)
    requires Planted(b, h, c, trees, loc) && v.src in trees && v.dst in trees
    requires v.ctx == Top && v.t == trees[v.src] && v.d == trees[v.dst] && Moved(b, h, c, h', c', v, m)
    ensures Planted(b, h', c', trees[v.src := v.t'][v.dst := v.d'], PlacesMoved(loc, m, v.dst))
  {
    var s := MovedRooted(b, h, c, h', c', loc, v, m);
    Replanted(b, h, c, h', c', trees, loc, v.src, v.t', v.dst, v.d', PlacesMoved(loc, m, v.dst), s);
  }

  /** A move adds and removes no key of any map and writes live elements only. */
  lemma MovedKeys(b: BodyHeap, h: LinkHeap, c: CKHeap, h': LinkHeap, c': CKHeap, trees: Trees, loc: Places, v: Move,
                  m: set<Ptr>)
    requires Planted(b, h, c, trees, loc) && v.src in trees && v.dst in trees
    requires v.ctx == Top && v.t == trees[v.src] && v.d == trees[v.dst] && Moved(b, h, c, h', c', v, m)
    ensures forall cp :: cp in c' <==> cp in c
    ensures Rearranged(h, h', loc, PlacesMoved(loc, m, v.dst))
  {
    var s := MovedRooted(b, h, c, h', c', loc, v, m);
  }

  lemma PlantedPtrs(b: BodyHeap, h: LinkHeap, c: CKHeap, trees: Trees, loc: Places, cp: CKPtr)
    requires Planted(b, h, c, trees, loc) && cp in trees
    ensures forall p :: p in Ptrs(trees[cp]) <==> p in loc && loc[p] == cp
    ensures Ordered(b, trees[cp]) && cp in c && c[cp] == CKIndex(Size(trees[cp]), RootPtr(trees[cp]))
  {
    RootedIs(b, h, c, cp, trees[cp], loc);
  }

  lemma PlantedNull(b: BodyHeap, h: LinkHeap, c: CKHeap, trees: Trees, loc: Places, cp: CKPtr)
    requires Planted(b, h, c, trees, loc) && cp in trees
    ensures cp in c && (c[cp].elementList == NULL ==> forall p | p in loc :: loc[p] != cp)
  {
    PlantedPtrs(b, h, c, trees, loc, cp);
    RootNonNull(b, trees[cp]);
    if trees[cp] == Nil {
      NothingRooted(b, h, c, cp, loc);
    }
  }

  lemma AddedRooted(b: BodyHeap, h: LinkHeap, c: CKHeap, h': LinkHeap, c': CKHeap, t: Tree, loc: Places, cp: CKPtr,
                    e: Ptr)
    returns (s: set<Ptr>)
    requires Rooted(b, h, c, cp, t, loc) && e !in loc && e in b && e != NULL
    requires Ordered(b, t) && Holds(b, h', c', cp, AddTree(b, t, e)) && SameOutside(h, h', Ptrs(t) + {e})
    ensures Rooted(b, h', c', cp, AddTree(b, t, e), loc[e := cp])
    ensures SameOutside(h, h', s)
    ensures forall p | p in s && p in loc :: loc[p] == cp
  {
    RootedIs(b, h, c, cp, t, loc);
    AddedTree(b, t, e);
    s := Ptrs(t) + {e};
  }

  lemma AddedPlanted(b: BodyHeap, h: LinkHeap, c: CKHeap, h': LinkHeap, c': CKHeap, trees: Trees, loc: Places,
                     cp: CKPtr, e: Ptr)
    requires Planted(b, h, c, trees, loc) && cp in trees && e !in loc && e in b && e != NULL
    requires Ordered(b, trees[cp]) && Holds(b, h', c', cp, AddTree(b, trees[cp], e))
    requires CKOutside(c, c', {cp}) && SameOutside(h, h', Ptrs(trees[cp]) + {e})
    ensures Planted(b, h', c', trees[cp := AddTree(b, trees[cp], e)], loc[e := cp])
  {
    var t' := AddTree(b, trees[cp], e);
    assert Rooted(b, h, c, cp, trees[cp], loc);
    var s := AddedRooted(b, h, c, h', c', trees[cp], loc, cp, e);
    Replanted(b, h, c, h', c', trees, loc, cp, t', cp, t', loc[e := cp], s);
    assert trees[cp := t'][cp := t'] == trees[cp := t'];
  }

  lemma TakenRooted(b: BodyHeap, h: LinkHeap, c: CKHeap, h': LinkHeap, loc: Places, cp: CKPtr, e: Ptr, ctx: Ctx,
                    t: Tree)
    returns (s: set<Ptr>)
    requires Rooted(b, h, c, cp, Plug(ctx, t), loc) && cp in c
    requires Takeable(b, h, ctx, t, e) && e in h && TakenOff(b, h, h', ctx, t, e) && !Stranding(h[e])
    ensures
      var t' := Plug(ctx, TakeNode(b, t, e, ctx.BigOf?));
      Rooted(b, h', c[cp := CKIndex(Size(t'), RootPtr(t'))], cp, t', loc - {e})
    ensures SameOutside(h, h', s)
    ensures forall p | p in s :: p in loc && loc[p] == cp
    ensures e in loc && loc[e] == cp
  {
    RootedIs(b, h, c, cp, Plug(ctx, t), loc);
    TakenFromTree(b, ctx, t, e, ctx.BigOf?);
    s := Ptrs(Plug(ctx, t));
    TakenPtrs(b, h, ctx, t, e, Nil);
  }

  /** The element e, which strands nothing, is taken out of the subtree t at ctx of the tree at cp. */
  lemma TakenPlanted(b: BodyHeap, h: LinkHeap, c: CKHeap, h': LinkHeap, trees: Trees, loc: Places,
                     cp: CKPtr, e: Ptr, ctx: Ctx, t: Tree)
    requires Planted(b, h, c, trees, loc) && cp in trees && trees[cp] == Plug(ctx, t) && cp in c
    requires Takeable(b, h, ctx, t, e) && e in h && TakenOff(b, h, h', ctx, t, e) && !Stranding(h[e])
    ensures
      var t' := Plug(ctx, TakeNode(b, t, e, ctx.BigOf?));
      Planted(b, h', c[cp := CKIndex(Size(t'), RootPtr(t'))], trees[cp := t'], loc - {e})
    ensures e in loc && loc[e] == cp
  {
    var t' := Plug(ctx, TakeNode(b, t, e, ctx.BigOf?));
    var c' := c[cp := CKIndex(Size(t'), RootPtr(t'))];
    assert Rooted(b, h, c, cp, trees[cp], loc);
    var s := TakenRooted(b, h, c, h', loc, cp, e, ctx, t);
    Replanted(b, h, c, h', c', trees, loc, cp, t', cp, t', loc - {e}, s);
    assert trees[cp := t'][cp := t'] == trees[cp := t'];
  }

  lemma ChainOrderedFrame(b: BodyHeap, b': BodyHeap, chain: seq<Ptr>)
    requires ChainOrdered(b, chain)
    requires forall p | p in chain :: p in b' && (p in b ==> b'[p].subhash == b[p].subhash)
    ensures ChainOrdered(b', chain)
  {
  }

  /** Order depends on the subhashes alone. */
  lemma {:induction false} OrderedFrame(b: BodyHeap, b': BodyHeap, t: Tree)
    requires Ordered(b, t)
    requires forall p | p in Ptrs(t) :: p in b' && (p in b ==> b'[p].subhash == b[p].subhash)
    ensures Ordered(b', t)
  {
    match t
    case Nil =>
    case Node(chain, small, big) =>
      assert forall p | p in chain :: p in ChainSet(chain) && p in Ptrs(t);
      ChainOrderedFrame(b, b', chain);
      assert chain[0] in chain;
      OrderedFrame(b, b', small);
      OrderedFrame(b, b', big);
  }

  lemma RootedFrame(b: BodyHeap, b': BodyHeap, h: LinkHeap, h': LinkHeap, c: CKHeap, cp: CKPtr, t: Tree, loc: Places)
    requires Rooted(b, h, c, cp, t, loc)
    requires forall p | p in loc :: p in b' && (p in b ==> b'[p].subhash == b[p].subhash)
    requires forall p | p in loc :: p in h' && (p in h ==> h'[p] == h[p])
    ensures Rooted(b', h', c, cp, t, loc)
  {
    RootedIs(b, h, c, cp, t, loc);
    OrderedFrame(b, b', t);
    LinkedFrame(h, h', NULL, t);
  }

  /** Writing bodies of unplaced elements, or members other than the hashes, moves nothing. */
  lemma PlantedFrame(b: BodyHeap, b': BodyHeap, h: LinkHeap, h': LinkHeap, c: CKHeap, trees: Trees, loc: Places)
    requires Planted(b, h, c, trees, loc)
    requires forall p | p in loc :: p in b' && (p in b ==> b'[p].subhash == b[p].subhash)
    requires forall p | p in loc :: p in h' && (p in h ==> h'[p] == h[p])
    ensures Planted(b', h', c, trees, loc)
  {
    forall cp | cp in trees
      ensures Rooted(b', h', c, cp, trees[cp], loc)
    {
      RootedFrame(b, b', h, h', c, cp, trees[cp], loc);
    }
  }

  lemma RootedWider(b: BodyHeap, h: LinkHeap, c: CKHeap, c': CKHeap, cp: CKPtr, t: Tree, loc: Places)
    requires Rooted(b, h, c, cp, t, loc) && cp in c' && cp in c && c'[cp] == c[cp]
    ensures Rooted(b, h, c', cp, t, loc)
  {
  }

  /** CKINDEXs without elements are added. */
  lemma PlantedWider(b: BodyHeap, h: LinkHeap, c: CKHeap, c': CKHeap, trees: Trees, trees': Trees, loc: Places)
    requires Planted(b, h, c, trees, loc)
    requires forall cp | cp in trees :: cp in c' && (cp in c ==> c'[cp] == c[cp])
    requires forall cp | cp in c' && cp !in trees :: c'[cp] == CKIndex(0, NULL)
    requires forall cp :: cp in trees' <==> cp in c'
    requires forall cp | cp in trees' :: trees'[cp] == if cp in trees then trees[cp] else Nil
    ensures Planted(b, h, c', trees', loc)
  {
    forall cp | cp in trees'
      ensures Rooted(b, h, c', cp, trees'[cp], loc)
    {
      if cp in trees {
        RootedIs(b, h, c, cp, trees[cp], loc);
        RootedWider(b, h, c, c', cp, trees[cp], loc);
      } else {
        assert PlacedAt(Nil, loc, cp);
      }
    }
  }

  // ---------------------------------------------------------------- where an element belongs

  /** The CKINDEX that a hash belongs to. */
  function HomePtr(ka: AssignMap, n: nat, cb: nat, hash: nat): CKPtr
  {
    CKPtr(PosOf(Home(ka, Shift(hash, cb), n)), Low(hash, cb))
  }

  /**
   In numbers: the slot of the most bits of the hash, behind the collision bits, whose slot is in use; in it the
   CKINDEX of the collision bits.
   */
  lemma HomePtrIs(ka: AssignMap, n: nat, cb: nat, hash: nat, k: nat)
    requires k <= n && Assigned(ka, hash / Pow2(cb) % Pow2(k))
    requires forall i: nat | k < i <= n :: !Assigned(ka, hash / Pow2(cb) % Pow2(i))
    ensures HomePtr(ka, n, cb, hash) == CKPtr(PosOf(hash / Pow2(cb) % Pow2(k)), hash % Pow2(cb))
  {
    MaskAndShift(hash, cb);
    MaskAndShift(hash / Pow2(cb), k);
    forall i: nat | k < i <= n
      ensures !Assigned(ka, Low(hash / Pow2(cb), i))
    {
      MaskAndShift(hash / Pow2(cb), i);
    }
    HomeFound(ka, hash / Pow2(cb), n, k);
  }

  /** Every live element is where its hash belongs. */
  ghost predicate AtHome(b: BodyHeap, ka: AssignMap, n: nat, cb: nat, loc: Places)
  {
    forall p | p in loc :: p in b && loc[p] == HomePtr(ka, n, cb, b[p].hash)
  }

  /** Below one CKINDEX the subhash decides the hash. */
  ghost predicate Compatible(b: BodyHeap, loc: Places)
  {
    forall p, q | p in loc && q in loc && loc[p] == loc[q] && p in b && q in b && b[p].subhash == b[q].subhash ::
      b[p].hash == b[q].hash
  }

  ghost predicate CKAllocated(c: CKHeap, n: nat, cb: nat)
  {
    forall cp :: cp in c <==> Allocated(cp.pos, n) && cp.ckpos < Pow2(cb)
  }

  lemma HomePtrAllocated(ka: AssignMap, n: nat, cb: nat, hash: nat, c: CKHeap)
    requires Prefixed(ka, n) && CKAllocated(c, n, cb)
    ensures HomePtr(ka, n, cb, hash) in c
  {
    var s := Shift(hash, cb);
    Pow2Monotone(HomeBits(ka, s, n), n);
    SlotExists(Home(ka, s, n), n);
  }

  lemma CompatibleTree(b: BodyHeap, h: LinkHeap, c: CKHeap, trees: Trees, loc: Places, cp: CKPtr)
    requires Planted(b, h, c, trees, loc) && Compatible(b, loc) && cp in trees
    ensures SubhashDecides(b, Ptrs(trees[cp]))
  {
    RootedIs(b, h, c, cp, trees[cp], loc);
  }

  // ---------------------------------------------------------------- arranging one KINDEX

  /** Element p is one that arranging the slot under k bits of s takes from the slot under k-1 bits. */
  predicate Rises(b: BodyHeap, cb: nat, s: nat, k: nat, p: Ptr)
  {
    p in b && Low(ShiftedHash(b, p, cb), k) == Low(s, k)
  }

  /** The places when the first i CKINDEXs of the lower slot have been arranged. */
  function Arranged(b: BodyHeap, cb: nat, s: nat, k: nat, loc: Places, i: nat): Places
    requires k > 0
  {
    map p | p in loc ::
      if loc[p].pos == PosOf(Low(s, k - 1)) && loc[p].ckpos < i && Rises(b, cb, s, k, p)
      then CKPtr(PosOf(Low(s, k)), loc[p].ckpos) else loc[p]
  }

  lemma ArrangedNone(b: BodyHeap, cb: nat, s: nat, k: nat, loc: Places)
    requires k > 0
    ensures Arranged(b, cb, s, k, loc, 0) == loc
  {
  }

  /** Moving the matching elements of CKINDEX i arranges one more CKINDEX. */
  lemma ArrangedStep(b: BodyHeap, cb: nat, s: nat, k: nat, loc: Places, i: nat, t: Tree)
    requires k > 0 && PosOf(Low(s, k)) != PosOf(Low(s, k - 1))
    requires forall p ::
      p in Ptrs(t) <==> p in loc && Arranged(b, cb, s, k, loc, i)[p] == CKPtr(PosOf(Low(s, k - 1)), i)
    ensures
      PlacesMoved(Arranged(b, cb, s, k, loc, i), Matching(b, Ptrs(t), cb, k, Low(s, k)), CKPtr(PosOf(Low(s, k)), i))
      == Arranged(b, cb, s, k, loc, i + 1)
  {
  }

  /** An element of the lower slot that rises is not below an assigned upper slot. */
  lemma RisesToUnassigned(ka: AssignMap, n: nat, s: nat, k: nat, s': nat)
    requires Prefixed(ka, n) && 1 <= k <= n && Low(s, k) != Low(s, k - 1)
    requires Home(ka, s', n) == Low(s, k - 1) && Low(s', k) == Low(s, k)
    ensures !Assigned(ka, Low(s, k))
  {
    var hb := HomeBits(ka, s', n);
    if hb >= k {
      LowLow(s', k, hb);
      Pow2Monotone(k - 1, k);
      LowFits(Low(s, k - 1), k);
      assert false;
    }
  }

  /** Once the slot is arranged and assigned, every element is at home again. */
  lemma ArrangedAtHome(b: BodyHeap, ka: AssignMap, n: nat, cb: nat, s: nat, k: nat, loc: Places)
    requires Prefixed(ka, n) && 1 <= k <= n
    requires Assigned(ka, Low(s, k - 1)) && Low(s, k) != Low(s, k - 1)
    requires AtHome(b, ka, n, cb, loc)
    ensures AtHome(b, Assign(ka, Low(s, k)), n, cb, Arranged(b, cb, s, k, loc, Pow2(cb)))
  {
    var loc' := Arranged(b, cb, s, k, loc, Pow2(cb));
    forall p | p in loc'
      ensures p in b && loc'[p] == HomePtr(Assign(ka, Low(s, k)), n, cb, b[p].hash)
    {
      var s' := ShiftedHash(b, p, cb);
      HomeAfterAssign(ka, n, s, k, s');
      PosInjective(Home(ka, s', n), Low(s, k - 1));
    }
  }

  lemma ArrangedCompatible(b: BodyHeap, ka: AssignMap, n: nat, cb: nat, s: nat, k: nat, loc: Places, i: nat)
    requires Prefixed(ka, n) && 1 <= k <= n && Low(s, k) != Low(s, k - 1)
    requires AtHome(b, ka, n, cb, loc) && Compatible(b, loc)
    ensures Compatible(b, Arranged(b, cb, s, k, loc, i))
  {
    var loc' := Arranged(b, cb, s, k, loc, i);
    forall p, q | p in loc' && q in loc' && loc'[p] == loc'[q] && p in b && q in b && b[p].subhash == b[q].subhash
      ensures b[p].hash == b[q].hash
    {
      if loc[p] != loc'[p] { ArrangedApart(b, ka, n, cb, s, k, loc, i, p, q); }
      if loc[q] != loc'[q] { ArrangedApart(b, ka, n, cb, s, k, loc, i, q, p); }
    }
  }

  /** A risen element meets only elements it was with before. */
  lemma ArrangedApart(b: BodyHeap, ka: AssignMap, n: nat, cb: nat, s: nat, k: nat, loc: Places, i: nat, p: Ptr, q: Ptr)
    requires Prefixed(ka, n) && 1 <= k <= n && Low(s, k) != Low(s, k - 1)
    requires AtHome(b, ka, n, cb, loc) && p in loc && q in loc
    requires Arranged(b, cb, s, k, loc, i)[p] == Arranged(b, cb, s, k, loc, i)[q]
    requires loc[p] != Arranged(b, cb, s, k, loc, i)[p]
    ensures loc[p] == loc[q]
  {
    var sp, sq := ShiftedHash(b, p, cb), ShiftedHash(b, q, cb);
    PosInjective(Home(ka, sp, n), Low(s, k - 1));
    RisesToUnassigned(ka, n, s, k, sp);
    PosInjective(Home(ka, sq, n), Low(s, k));
    HomeAssigned(ka, sq, n);
  }

  /** The index as a whole: masks, trees, and every element where it belongs. */
  ghost predicate Indexed(b: BodyHeap, h: LinkHeap, c: CKHeap, ka: AssignMap, n: nat, cb: nat, trees: Trees,
                          loc: Places)
  {
    forall u: nat {:trigger Look(INDEXED, u)} :: Look(INDEXED, u) ==>
      && Prefixed(ka, n) && CKAllocated(c, n, cb) && Planted(b, h, c, trees, loc)
      && AtHome(b, ka, n, cb, loc) && Compatible(b, loc)
  }

  lemma IndexedIs(b: BodyHeap, h: LinkHeap, c: CKHeap, ka: AssignMap, n: nat, cb: nat, trees: Trees, loc: Places)
    ensures Indexed(b, h, c, ka, n, cb, trees, loc) <==>
      && Prefixed(ka, n) && CKAllocated(c, n, cb) && Planted(b, h, c, trees, loc)
      && AtHome(b, ka, n, cb, loc) && Compatible(b, loc)
  {
    assert Look(INDEXED, 0);
  }

  lemma NothingRooted(b: BodyHeap, h: LinkHeap, c: CKHeap, cp: CKPtr, loc: Places)
    requires Rooted(b, h, c, cp, Nil, loc)
    ensures forall p | p in loc :: loc[p] != cp
  {
    RootedIs(b, h, c, cp, Nil, loc);
    forall p | p in loc
      ensures loc[p] != cp
    {
      assert p !in Ptrs(Nil);
    }
  }

  /** An empty lower CKINDEX is arranged as it is. */
  lemma ArrangedEmpty(b: BodyHeap, cb: nat, loc: Places, s: nat, k: nat, i: nat, loc0: Places)
    requires k > 0 && loc == Arranged(b, cb, s, k, loc0, i)
    requires forall p | p in loc :: loc[p] != CKPtr(PosOf(Low(s, k - 1)), i)
    ensures loc == Arranged(b, cb, s, k, loc0, i + 1)
  {
    forall p | p in loc0
      ensures loc[p] == Arranged(b, cb, s, k, loc0, i + 1)[p]
    {
      assert loc[p] != CKPtr(PosOf(Low(s, k - 1)), i);
    }
  }

  /** The links and the hashes of the live elements are not written. */
  ghost predicate Untouched(b: BodyHeap, h: LinkHeap, b': BodyHeap, h': LinkHeap, loc: Places)
  {
    forall u: nat {:trigger Look(UNTOUCHED, u)} :: Look(UNTOUCHED, u) ==>
      && (forall p | p in loc :: p in b' && (p in b ==> b'[p].hash == b[p].hash && b'[p].subhash == b[p].subhash))
      && (forall p | p in loc :: p in h' && (p in h ==> h'[p] == h[p]))
  }

  lemma IndexedFrame(b: BodyHeap, b': BodyHeap, h: LinkHeap, h': LinkHeap, c: CKHeap, ka: AssignMap, n: nat, cb: nat,
                     trees: Trees, loc: Places)
    requires Indexed(b, h, c, ka, n, cb, trees, loc) && Untouched(b, h, b', h', loc)
    ensures Indexed(b', h', c, ka, n, cb, trees, loc)
  {
    assert Look(UNTOUCHED, 0);
    IndexedIs(b, h, c, ka, n, cb, trees, loc);
    PlantedFrame(b, b', h, h', c, trees, loc);
    IndexedIs(b', h', c, ka, n, cb, trees, loc);
  }

  /** An index without elements, all of whose slots are assigned. */
  lemma IndexedEmpty(c: CKHeap, ka: AssignMap, n: nat, cb: nat, trees: Trees)
    requires n >= 1
    requires forall pos :: pos in ka <==> Allocated(pos, n)
    requires forall pos | pos in ka :: ka[pos]
    requires CKAllocated(c, n, cb) && forall cp | cp in c :: c[cp] == CKIndex(0, NULL)
    requires forall cp :: cp in trees <==> cp in c
    requires forall cp | cp in trees :: trees[cp] == Nil
    ensures Indexed(map[], map[], c, ka, n, cb, trees, map[])
  {
    AllAssigned(ka, n);
    PlantedWider(map[], map[], map[], c, map[], trees, map[]);
  }

  /** CKINDEX i exists in the slots under k and k-1 bits of s. */
  lemma ArrangedSlots(ka: AssignMap, n: nat, cb: nat, s: nat, k: nat, c: CKHeap, i: nat)
    requires 1 <= k <= n && CKAllocated(c, n, cb) && i < Pow2(cb)
    ensures CKPtr(PosOf(Low(s, k)), i) in c && CKPtr(PosOf(Low(s, k - 1)), i) in c
  {
    Pow2Monotone(k, n);
    Pow2Monotone(k - 1, n);
    SlotExists(Low(s, k), n);
    SlotExists(Low(s, k - 1), n);
  }

  /** With all CKINDEXs of the slot arranged, assigning it makes the index whole again. */
  lemma SlotArranged(b: BodyHeap, h: LinkHeap, c: CKHeap, ka: AssignMap, n: nat, cb: nat, trees: Trees,
                     s: nat, k: nat, loc0: Places, loc: Places)
    requires Prefixed(ka, n) && 1 <= k <= n && Assigned(ka, Low(s, k - 1)) && Low(s, k) != Low(s, k - 1)
    requires AtHome(b, ka, n, cb, loc0) && Compatible(b, loc0)
    requires CKAllocated(c, n, cb) && Planted(b, h, c, trees, loc) && loc == Arranged(b, cb, s, k, loc0, Pow2(cb))
    ensures Indexed(b, h, c, Assign(ka, Low(s, k)), n, cb, trees, loc)
    ensures PosOf(Low(s, k)) in ka && Assigned(Assign(ka, Low(s, k)), Low(s, k))
    ensures ka[PosOf(Low(s, k))] ==> Assign(ka, Low(s, k)) == ka
  {
    ArrangedAtHome(b, ka, n, cb, s, k, loc0);
    ArrangedCompatible(b, ka, n, cb, s, k, loc0, Pow2(cb));
    PrefixedAfterAssign(ka, n, s, k);
    Pow2Monotone(k, n);
    SlotExists(Low(s, k), n);
    IndexedIs(b, h, c, Assign(ka, Low(s, k)), n, cb, trees, loc);
  }

  /**
   The index, with links h0 and places loc0 before, while CKINDEX i of the slot under k bits of s is next to be
   arranged.
   */
  ghost predicate Arranging(b: BodyHeap, h0: LinkHeap, h: LinkHeap, c: CKHeap, ka: AssignMap, n: nat, cb: nat,
                            trees: Trees, s: nat, k: nat, loc0: Places, loc: Places, i: nat)
    requires k > 0
  {
    forall u: nat {:trigger Look(ARRANGING, u)} :: Look(ARRANGING, u) ==>
      && k <= n && Low(s, k) != Low(s, k - 1) && Prefixed(ka, n) && AtHome(b, ka, n, cb, loc0) && Compatible(b, loc0)
      && Planted(b, h, c, trees, loc) && CKAllocated(c, n, cb) && loc == Arranged(b, cb, s, k, loc0, i)
      && Rearranged(h0, h, loc0, loc)
  }

  lemma ArrangingStarts(b: BodyHeap, h: LinkHeap, c: CKHeap, ka: AssignMap, n: nat, cb: nat, trees: Trees, s: nat,
                        k: nat, loc: Places)
    requires Indexed(b, h, c, ka, n, cb, trees, loc) && 1 <= k <= n && Low(s, k) != Low(s, k - 1)
    ensures Arranging(b, h, h, c, ka, n, cb, trees, s, k, loc, loc, 0)
  {
    IndexedIs(b, h, c, ka, n, cb, trees, loc);
    ArrangedNone(b, cb, s, k, loc);
  }

  lemma ArrangingIs(b: BodyHeap, h0: LinkHeap, h: LinkHeap, c: CKHeap, ka: AssignMap, n: nat, cb: nat,
                    trees: Trees, s: nat, k: nat, loc0: Places, loc: Places, i: nat)
    requires k > 0 && Arranging(b, h0, h, c, ka, n, cb, trees, s, k, loc0, loc, i)
    ensures k <= n && Low(s, k) != Low(s, k - 1) && Prefixed(ka, n) && AtHome(b, ka, n, cb, loc0) && Compatible(b, loc0)
    ensures Planted(b, h, c, trees, loc) && CKAllocated(c, n, cb) && loc == Arranged(b, cb, s, k, loc0, i)
    ensures Rearranged(h0, h, loc0, loc) && Compatible(b, loc)
    ensures i < Pow2(cb) ==> CKPtr(PosOf(Low(s, k)), i) in c && CKPtr(PosOf(Low(s, k - 1)), i) in c
    ensures PosOf(Low(s, k)) != PosOf(Low(s, k - 1))
  {
    assert Look(ARRANGING, 0);
    ArrangedCompatible(b, ka, n, cb, s, k, loc0, i);
    PosInjective(Low(s, k), Low(s, k - 1));
    if i < Pow2(cb) {
      ArrangedSlots(ka, n, cb, s, k, c, i);
    }
  }

  lemma ArrangingOn(b: BodyHeap, h0: LinkHeap, h: LinkHeap, c: CKHeap, h': LinkHeap, c': CKHeap, ka: AssignMap, n: nat,
                    cb: nat,
                    trees: Trees, trees': Trees, s: nat, k: nat, loc0: Places, loc: Places, loc': Places, i: nat)
    requires k > 0 && Arranging(b, h0, h, c, ka, n, cb, trees, s, k, loc0, loc, i)
    requires Planted(b, h', c', trees', loc') && loc' == Arranged(b, cb, s, k, loc0, i + 1)
    requires forall cp :: cp in c' <==> cp in c
    requires Rearranged(h, h', loc, loc')
    ensures Arranging(b, h0, h', c', ka, n, cb, trees', s, k, loc0, loc', i + 1)
  {
    ArrangingIs(b, h0, h, c, ka, n, cb, trees, s, k, loc0, loc, i);
    RearrangedTwice(h0, h, h', loc0, loc, loc');
    assert CKAllocated(c', n, cb);
  }

  // ---------------------------------------------------------------- the index after one step

  /** No element of the CKINDEX has the subhash of e with another hash. */
  ghost predicate Joinable(b: BodyHeap, loc: Places, cp: CKPtr, e: Ptr)
    requires e in b
  {
    forall p | p in loc && loc[p] == cp && p in b && b[p].subhash == b[e].subhash :: b[p].hash == b[e].hash
  }

  /** Putting e below cp keeps the subhash deciding the hash exactly when e is joinable. */
  lemma CompatibleIff(b: BodyHeap, loc: Places, cp: CKPtr, e: Ptr)
    requires Compatible(b, loc) && e !in loc && e in b
    ensures Compatible(b, loc[e := cp]) <==> Joinable(b, loc, cp, e)
  {
    var loc' := loc[e := cp];
    if Compatible(b, loc') {
      forall p | p in loc && loc[p] == cp && p in b && b[p].subhash == b[e].subhash
        ensures b[p].hash == b[e].hash
      {
        assert loc'[p] == loc'[e];
      }
    }
  }

  lemma IndexedHolds(b: BodyHeap, h: LinkHeap, c: CKHeap, ka: AssignMap, n: nat, cb: nat, trees: Trees, loc: Places,
                     cp: CKPtr, e: Ptr)
    requires Indexed(b, h, c, ka, n, cb, trees, loc) && cp in c && e !in loc
    ensures cp in trees && Holds(b, h, c, cp, trees[cp]) && e !in Ptrs(trees[cp])
    ensures forall p | p in Ptrs(trees[cp]) :: p in loc
  {
    IndexedIs(b, h, c, ka, n, cb, trees, loc);
    RootedIs(b, h, c, cp, trees[cp], loc);
  }

  /** The place of a live element in its tree. */
  lemma IndexedTakeable(b: BodyHeap, h: LinkHeap, c: CKHeap, ka: AssignMap, n: nat, cb: nat, trees: Trees, loc: Places,
                        cp: CKPtr, e: Ptr)
    returns (ctx: Ctx, t: Tree)
    requires Indexed(b, h, c, ka, n, cb, trees, loc) && e in loc && loc[e] == cp
    ensures cp in trees && cp in c && trees[cp] == Plug(ctx, t) && c[cp] == CKIndex(Size(trees[cp]), RootPtr(trees[cp]))
    ensures Takeable(b, h, ctx, t, e) && e in h
    ensures forall p | p in Ptrs(trees[cp]) :: p in loc
  {
    IndexedIs(b, h, c, ka, n, cb, trees, loc);
    RootedIs(b, h, c, cp, trees[cp], loc);
    PlantedElement(b, h, c, trees, loc, e);
    ctx, t := Located(trees[cp], e);
    PlugOrdered(b, ctx, t);
  }

  lemma IndexedAdded(b: BodyHeap, h: LinkHeap, c: CKHeap, h': LinkHeap, c': CKHeap, ka: AssignMap, n: nat, cb: nat,
                     trees: Trees, loc: Places, cp: CKPtr, e: Ptr)
    requires Indexed(b, h, c, ka, n, cb, trees, loc) && cp in trees && e !in loc && e in b && e != NULL
    requires cp == HomePtr(ka, n, cb, b[e].hash) && Joinable(b, loc, cp, e)
    requires Ordered(b, trees[cp]) && Holds(b, h', c', cp, AddTree(b, trees[cp], e))
    requires CKOutside(c, c', {cp}) && SameOutside(h, h', Ptrs(trees[cp]) + {e})
    ensures Indexed(b, h', c', ka, n, cb, trees[cp := AddTree(b, trees[cp], e)], loc[e := cp])
  {
    IndexedIs(b, h, c, ka, n, cb, trees, loc);
    AddedPlanted(b, h, c, h', c', trees, loc, cp, e);
    CompatibleIff(b, loc, cp, e);
    IndexedIs(b, h', c', ka, n, cb, trees[cp := AddTree(b, trees[cp], e)], loc[e := cp]);
  }

  /** After e is taken off, the index is whole exactly when e was not stranding its subtrees. */
  lemma IndexedTaken(b: BodyHeap, h: LinkHeap, c: CKHeap, h': LinkHeap, ka: AssignMap, n: nat, cb: nat,
                     trees: Trees, loc: Places, cp: CKPtr, e: Ptr, ctx: Ctx, t: Tree)
    requires Indexed(b, h, c, ka, n, cb, trees, loc) && cp in trees && trees[cp] == Plug(ctx, t) && cp in c
    requires Takeable(b, h, ctx, t, e) && e in h && TakenOff(b, h, h', ctx, t, e)
    ensures
      var t' := Plug(ctx, TakeNode(b, t, e, ctx.BigOf?));
      Indexed(b, h', c[cp := CKIndex(Size(t'), RootPtr(t'))], ka, n, cb, trees[cp := t'], loc - {e}) <==>
        !Stranding(h[e])
    ensures e in b && e != NULL
  {
    var t' := Plug(ctx, TakeNode(b, t, e, ctx.BigOf?));
    var c' := c[cp := CKIndex(Size(t'), RootPtr(t'))];
    IndexedIs(b, h, c, ka, n, cb, trees, loc);
    IndexedIs(b, h', c', ka, n, cb, trees[cp := t'], loc - {e});
    assert e in b && e != NULL && e in t.chain;
    if Stranding(h[e]) {
      RootedIs(b, h', c', cp, t', loc - {e});
    } else {
      TakenPlanted(b, h, c, h', trees, loc, cp, e, ctx, t);
    }
  }

  /** No hash changed its CKINDEX. */
  ghost predicate SameHomes(ka: AssignMap, n: nat, ka': AssignMap, n': nat, cb: nat)
  {
    forall hash: nat :: HomePtr(ka', n', cb, hash) == HomePtr(ka, n, cb, hash)
  }

  /** The slot array of values of `bits` bits. */
  predicate InArray(pos: KPos, bits: nat)
  {
    pos.ptrPos == bits && pos.arrPos < ArraySize(bits)
  }

  /** The slots and CKINDEXs of one more mask bit are there, not assigned and empty. */
  ghost predicate Widened(c: CKHeap, c': CKHeap, ka: AssignMap, ka': AssignMap, n: nat, cb: nat)
  {
    forall u: nat {:trigger Look(WIDENED, u)} :: Look(WIDENED, u) ==>
      && (forall pos :: pos in ka' <==> pos in ka || InArray(pos, n + 1))
      && (forall pos | pos in ka' :: ka'[pos] == if InArray(pos, n + 1) then false else ka[pos])
      && (forall cp :: cp in c' <==> cp in c || (InArray(cp.pos, n + 1) && cp.ckpos < Pow2(cb)))
      && (forall cp | cp in c' ::
            c'[cp] == if InArray(cp.pos, n + 1) && cp.ckpos < Pow2(cb) then CKIndex(0, NULL) else c[cp])
  }

  lemma WidenedSlots(c: CKHeap, c': CKHeap, ka: AssignMap, ka': AssignMap, n: nat, cb: nat)
    requires Widened(c, c', ka, ka', n, cb) && Prefixed(ka, n) && CKAllocated(c, n, cb)
    ensures Prefixed(ka', n + 1) && CKAllocated(c', n + 1, cb) && SameHomes(ka, n, ka', n + 1, cb)
    ensures forall cp | cp in c :: cp in c' && c'[cp] == c[cp]
    ensures forall cp | cp in c' && cp !in c :: c'[cp] == CKIndex(0, NULL)
  {
    assert Look(WIDENED, 0);
    assert Expanded(ka, ka', n);
    forall hash: nat
      ensures HomePtr(ka', n + 1, cb, hash) == HomePtr(ka, n, cb, hash)
    {
      HomeAfterExpand(ka, ka', n, Shift(hash, cb));
    }
    HomeAfterExpand(ka, ka', n, 0);
  }

  /** The trees below the CKINDEXs of c, empty below those that are new. */
  ghost function TreesBelow(trees: Trees, c: CKHeap): Trees
  {
    map cp | cp in c :: if cp in trees then trees[cp] else Nil
  }

  lemma IndexedExpanded(b: BodyHeap, h: LinkHeap, c: CKHeap, c': CKHeap, ka: AssignMap, ka': AssignMap, n: nat, cb: nat,
                        trees: Trees, trees': Trees, loc: Places)
    requires Indexed(b, h, c, ka, n, cb, trees, loc) && Widened(c, c', ka, ka', n, cb)
    requires trees' == TreesBelow(trees, c')
    ensures Indexed(b, h, c', ka', n + 1, cb, trees', loc)
    ensures SameHomes(ka, n, ka', n + 1, cb)
  {
    IndexedIs(b, h, c, ka, n, cb, trees, loc);
    assert Planted(b, h, c', trees', loc) && AtHome(b, ka', n + 1, cb, loc) by {
      WidenedSlots(c, c', ka, ka', n, cb);
      PlantedCKs(b, h, c, trees, loc);
      PlantedWider(b, h, c, c', trees, trees', loc);
    }
    WidenedSlots(c, c', ka, ka', n, cb);
    IndexedIs(b, h, c', ka', n + 1, cb, trees', loc);
  }

  lemma PlantedCKs(b: BodyHeap, h: LinkHeap, c: CKHeap, trees: Trees, loc: Places)
    requires Planted(b, h, c, trees, loc)
    ensures forall cp :: cp in trees <==> cp in c
  {
    forall cp | cp in trees
      ensures cp in c
    {
      RootedIs(b, h, c, cp, trees[cp], loc);
    }
  }

  // ---------------------------------------------------------------- hashes that part

  /** Hashes that share a CKINDEX shared one before. */
  ghost predicate Finer(ka: AssignMap, n: nat, ka': AssignMap, n': nat, cb: nat)
  {
    forall u: nat {:trigger Look(FINER, u)} :: Look(FINER, u) ==>
      forall h1: nat, h2: nat | HomePtr(ka', n', cb, h1) == HomePtr(ka', n', cb, h2) ::
        HomePtr(ka, n, cb, h1) == HomePtr(ka, n, cb, h2)
  }

  lemma FinerSame(ka: AssignMap, n: nat, cb: nat)
    ensures Finer(ka, n, ka, n, cb)
  {
  }

  /** Homes that did not change join no hashes. */
  lemma FinerUnmoved(ka: AssignMap, n: nat, ka': AssignMap, n': nat, cb: nat)
    requires SameHomes(ka, n, ka', n', cb)
    ensures Finer(ka, n, ka', n', cb)
  {
  }

  lemma FinerTwice(ka: AssignMap, n: nat, ka1: AssignMap, n1: nat, ka2: AssignMap, n2: nat, cb: nat)
    requires Finer(ka, n, ka1, n1, cb) && Finer(ka1, n1, ka2, n2, cb)
    ensures Finer(ka, n, ka2, n2, cb)
  {
  }

  lemma FinerAt(ka: AssignMap, n: nat, ka': AssignMap, n': nat, cb: nat, h1: nat, h2: nat)
    requires Finer(ka, n, ka', n', cb) && HomePtr(ka', n', cb, h1) == HomePtr(ka', n', cb, h2)
    ensures HomePtr(ka, n, cb, h1) == HomePtr(ka, n, cb, h2)
  {
    assert Look(FINER, 0);
  }

  /** Assigning a slot parts hashes and joins none. */
  lemma FinerAssigned(ka: AssignMap, n: nat, cb: nat, s: nat, k: nat)
    requires Prefixed(ka, n) && 1 <= k <= n && Assigned(ka, Low(s, k - 1)) && Low(s, k) != Low(s, k - 1)
    ensures Finer(ka, n, Assign(ka, Low(s, k)), n, cb)
  {
    var ka' := Assign(ka, Low(s, k));
    forall h1: nat, h2: nat | HomePtr(ka', n, cb, h1) == HomePtr(ka', n, cb, h2)
      ensures HomePtr(ka, n, cb, h1) == HomePtr(ka, n, cb, h2)
    {
      var s1, s2 := Shift(h1, cb), Shift(h2, cb);
      PosInjective(Home(ka', s1, n), Home(ka', s2, n));
      HomesJoin(ka, n, s, k, s1, s2);
    }
  }

  lemma HomesJoin(ka: AssignMap, n: nat, s: nat, k: nat, s1: nat, s2: nat)
    requires Prefixed(ka, n) && 1 <= k <= n && Assigned(ka, Low(s, k - 1)) && Low(s, k) != Low(s, k - 1)
    requires Home(Assign(ka, Low(s, k)), s1, n) == Home(Assign(ka, Low(s, k)), s2, n)
    ensures Home(ka, s1, n) == Home(ka, s2, n)
  {
    HomeAfterAssign(ka, n, s, k, s1);
    HomeAfterAssign(ka, n, s, k, s2);
    HomeAssigned(ka, s1, n);
    HomeAssigned(ka, s2, n);
    if Home(ka, s1, n) == Low(s, k - 1) && Low(s1, k) == Low(s, k) {
      RisesToUnassigned(ka, n, s, k, s1);
    }
    if Home(ka, s2, n) == Low(s, k - 1) && Low(s2, k) == Low(s, k) {
      RisesToUnassigned(ka, n, s, k, s2);
    }
  }

  lemma FirstTwo(chain: seq<Ptr>)
    requires Distinct(chain)
    ensures |chain| > 1 ==> chain[0] != chain[1]
  {
  }

  /** An element whose two hashes no other live element has is alone in its chain, so it strands nothing. */
  lemma AloneStrandsNothing(b: BodyHeap, h: LinkHeap, c: CKHeap, ka: AssignMap, n: nat, cb: nat, trees: Trees,
                            loc: Places, e: Ptr)
    requires Indexed(b, h, c, ka, n, cb, trees, loc) && e in loc && e in b && e in h
    requires forall q | q in loc && q in b && q != e :: b[q].hash != b[e].hash || b[q].subhash != b[e].subhash
    ensures !Stranding(h[e])
  {
    IndexedIs(b, h, c, ka, n, cb, trees, loc);
    var ctx, t := IndexedTakeable(b, h, c, ka, n, cb, trees, loc, loc[e], e);
    PlantedPtrs(b, h, c, trees, loc, loc[e]);
    AroundNode(b, h, ctx, t);
    PlugPtrs(ctx, t);
    FirstTwo(t.chain);
    forall j | 0 <= j < |t.chain|
      ensures t.chain[j] == e
    {
      var q := t.chain[j];
      assert q in t.chain && q in Ptrs(t);
      assert q in loc && loc[q] == loc[e] && q in b && b[q].subhash == b[e].subhash;
    }
    SameAt(h, t.chain, 0);
  }

  lemma AtHomeAt(b: BodyHeap, h: LinkHeap, c: CKHeap, ka: AssignMap, n: nat, cb: nat, trees: Trees, loc: Places, e: Ptr)
    requires Indexed(b, h, c, ka, n, cb, trees, loc) && e in loc
    ensures e in b && loc[e] == HomePtr(ka, n, cb, b[e].hash)
  {
    IndexedIs(b, h, c, ka, n, cb, trees, loc);
  }
}
