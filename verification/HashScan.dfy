/**
 Reading out all elements of a hash range, some at a time (K2HShm::GetElementsByHash and
 GetElementListToBinary), while lookups go on moving elements to the slots of the widened mask.
 */
module HashScan {
  import opened Layout
  import opened KIndexHome
  import opened ElementTree
  import opened ElementLinks
  import opened TreeMoves
  import opened Forest
  import opened ElementStore
  import opened ElementIndex
  import opened HashRange
  import opened Timestamps

  // ---------------------------------------------------------------- which elements are wanted

  /** What the attributes of an element say about time; without attributes it is not expired and has no mtime. */
  datatype Stamp = Stamp(isExpired: bool, mtime: Option<Time>)

  datatype Query = Query(startts: Option<Time>, endts: Option<Time>, targetHash: nat, targetMax: nat, oldHash: nat,
    oldMax: nat, range: int, isExpireCheck: bool)

  predicate Proper(q: Query)
  {
    0 < q.targetMax && 0 < q.oldMax
  }

  /** The caller has the elements of the old range; there only those updated since startts are wanted. */
  predicate HadBefore(q: Query, hash: nat)
    requires Proper(q)
  {
    InWindow(hash, q.oldHash,
      if q.oldHash == HASH_LIMIT - 1 then HASH_LIMIT - 1 else EndHash(q.oldHash, q.oldMax, q.range), q.oldMax)
  }

  predicate Wanted(q: Query, hash: nat, stamp: Stamp)
    requires Proper(q)
  {
    && InWindow(hash, q.targetHash, EndHash(q.targetHash, q.targetMax, q.range), q.targetMax)
    && !(q.isExpireCheck && stamp.isExpired)
    && (stamp.mtime.Some? ==>
          && !(HadBefore(q, hash) && q.startts.Some? && Before(stamp.mtime.value, q.startts.value))
          && !(q.endts.Some? && Before(q.endts.value, stamp.mtime.value)))
  }

  /** The times that are there are normal. */
  predicate TimesNormal(q: Query, stamp: Stamp)
  {
    && (q.startts.Some? ==> Normal(q.startts.value)) && (q.endts.Some? ==> Normal(q.endts.value))
    && (stamp.mtime.Some? ==> Normal(stamp.mtime.value))
  }

  /**
   Which elements are chosen: those in the target range, not expired if that is asked for, and, if they carry a
   time, not later than the end and, in the old range only, not earlier than the start.
   */
  lemma ChosenExactly(b: BodyHeap, q: Query, stamps: Ptr -> Stamp, p: Ptr)
    requires Proper(q) && TimesNormal(q, stamps(p))
    ensures
      Chosen(b, q, stamps, p) <==>
      && p in b
      && InWindow(b[p].hash, q.targetHash, EndHash(q.targetHash, q.targetMax, q.range), q.targetMax)
      && (q.isExpireCheck ==> !stamps(p).isExpired)
      && (stamps(p).mtime.Some? && q.endts.Some? ==> Nanos(stamps(p).mtime.value) <= Nanos(q.endts.value))
      && (stamps(p).mtime.Some? && q.startts.Some? && Nanos(stamps(p).mtime.value) < Nanos(q.startts.value) ==>
            if q.oldHash == HASH_LIMIT - 1 then !InWindow(b[p].hash, q.oldHash, q.oldHash, q.oldMax)
            else !InWindow(b[p].hash, q.oldHash, EndHash(q.oldHash, q.oldMax, q.range), q.oldMax))
  {
    if stamps(p).mtime.Some? && q.endts.Some? {
      BeforeIsLess(q.endts.value, stamps(p).mtime.value);
    }
    if stamps(p).mtime.Some? && q.startts.Some? {
      BeforeIsLess(stamps(p).mtime.value, q.startts.value);
    }
  }

  /** A range of at most the whole circle that starts on it and does not overflow. */
  predicate Plain(start: nat, max: nat, range: int)
  {
    start < max < HASH_LIMIT && 1 <= range <= max && start + range <= HASH_LIMIT
  }

  /**
   The same for plain ranges, where being in a range is lying less than its length behind its start.  The start
   that stands for no old range has no elements in it.
   */
  lemma ChosenPlainly(b: BodyHeap, q: Query, stamps: Ptr -> Stamp, p: Ptr)
    requires Proper(q) && TimesNormal(q, stamps(p)) && p in b && Plain(q.targetHash, q.targetMax, q.range)
    requires Plain(q.oldHash, q.oldMax, q.range) || (q.oldHash == HASH_LIMIT - 1 && q.oldMax < HASH_LIMIT)
    ensures
      var hash, mtime := b[p].hash, stamps(p).mtime;
      var inOld := q.oldHash < q.oldMax && Behind(hash % q.oldMax, q.oldHash, q.oldMax) < q.range;
      Chosen(b, q, stamps, p) <==>
      && Behind(hash % q.targetMax, q.targetHash, q.targetMax) < q.range
      && (q.isExpireCheck ==> !stamps(p).isExpired)
      && (mtime.Some? && q.endts.Some? ==> Nanos(mtime.value) <= Nanos(q.endts.value))
      && (mtime.Some? && q.startts.Some? && inOld ==> Nanos(q.startts.value) <= Nanos(mtime.value))
  {
    ChosenExactly(b, q, stamps, p);
    RightExactly(q.targetHash, q.targetMax, q.range);
    assert Right(q.targetHash, q.targetMax, q.range);
    if Plain(q.oldHash, q.oldMax, q.range) {
      RightExactly(q.oldHash, q.oldMax, q.range);
      assert Right(q.oldHash, q.oldMax, q.range);
    }
  }

  /** An earlier start and a later end only add elements. */
  lemma MoreChosen(b: BodyHeap, q: Query, q': Query, stamps: Ptr -> Stamp, p: Ptr)
    requires Proper(q) && TimesNormal(q, stamps(p)) && TimesNormal(q', stamps(p))
    requires q' == q.(startts := q'.startts, endts := q'.endts)
    requires q'.startts.Some? ==> q.startts.Some? && Nanos(q'.startts.value) <= Nanos(q.startts.value)
    requires q'.endts.Some? ==> q.endts.Some? && Nanos(q.endts.value) <= Nanos(q'.endts.value)
    ensures Chosen(b, q, stamps, p) ==> Chosen(b, q', stamps, p)
  {
    ChosenExactly(b, q, stamps, p);
    ChosenExactly(b, q', stamps, p);
  }

  /** The element is wanted. */
  predicate Chosen(b: BodyHeap, q: Query, stamps: Ptr -> Stamp, p: Ptr)
    requires Proper(q)
  {
    p in b && Wanted(q, b[p].hash, stamps(p))
  }

  /** Everything below the member i of the chain of t: the rest of the chain and, below its head, both subtrees. */
  ghost function Below(t: Tree, i: nat): set<Ptr>
    requires t.Node? && i <= |t.chain|
  {
    ChainSet(t.chain[i..]) + if i == 0 then Ptrs(t.small) + Ptrs(t.big) else {}
  }

  /** Exactly the chosen elements of a set, each of them once. */
  ghost predicate Lists(b: BodyHeap, q: Query, stamps: Ptr -> Stamp, found: seq<Ptr>, s: set<Ptr>)
    requires Proper(q)
  {
    Distinct(found) && forall p :: p in found <==> p in s && Chosen(b, q, stamps, p)
  }

  lemma ListsBoth(b: BodyHeap, q: Query, stamps: Ptr -> Stamp, f1: seq<Ptr>, s1: set<Ptr>, f2: seq<Ptr>, s2: set<Ptr>)
    requires Proper(q) && Lists(b, q, stamps, f1, s1) && Lists(b, q, stamps, f2, s2) && s1 !! s2
    ensures Lists(b, q, stamps, f1 + f2, s1 + s2)
  {
    forall i, j | 0 <= i < j < |f1 + f2|
      ensures (f1 + f2)[i] != (f1 + f2)[j]
    {
      if i < |f1| <= j {
        assert f1[i] in f1 && f2[j - |f1|] in f2;
      }
    }
  }

  /** What is found below a member of a chain, link by link. */
  lemma ListsBelow(b: BodyHeap, q: Query, stamps: Ptr -> Stamp, t: Tree, i: nat, own: seq<Ptr>, same: seq<Ptr>,
                   small: seq<Ptr>, big: seq<Ptr>)
    requires Proper(q) && t.Node? && i < |t.chain| && Ordered(b, t)
    requires Lists(b, q, stamps, own, {t.chain[i]})
    requires Lists(b, q, stamps, same, if i + 1 < |t.chain| then Below(t, i + 1) else {})
    requires Lists(b, q, stamps, small, if i == 0 then Ptrs(t.small) else {})
    requires Lists(b, q, stamps, big, if i == 0 then Ptrs(t.big) else {})
    ensures Lists(b, q, stamps, own + same + small + big, Below(t, i))
  {
    BelowIs(t, i);
    NodeDisjoint(b, t);
    var rest := if i + 1 < |t.chain| then Below(t, i + 1) else {};
    assert rest <= ChainSet(t.chain) - {t.chain[i]} by {
      assert forall j | i < j < |t.chain| :: t.chain[j] != t.chain[i];
    }
    var sm, bg := if i == 0 then Ptrs(t.small) else {}, if i == 0 then Ptrs(t.big) else {};
    ListsBoth(b, q, stamps, own, {t.chain[i]}, same, rest);
    ListsBoth(b, q, stamps, own + same, {t.chain[i]} + rest, small, sm);
    ListsBoth(b, q, stamps, own + same + small, {t.chain[i]} + rest + sm, big, bg);
    assert Below(t, i) == {t.chain[i]} + rest + sm + bg;
  }

  /** The chosen elements below e: e itself, then those below its same, small and big links. */
  method GetElementListToBinary(index: Index, e: Ptr, q: Query, stamps: Ptr -> Stamp, ghost ctx: Ctx, ghost t: Tree,
                                ghost i: nat) returns (found: seq<Ptr>)
    requires Proper(q) && t.Node? && i < |t.chain| && e == t.chain[i]
    requires Ordered(index.bodies, Plug(ctx, t)) && Linked(index.links, NULL, Plug(ctx, t))
    ensures Lists(index.bodies, q, stamps, found, Below(t, i))
    decreases t, |t.chain| - i
  {
    ChainLinks(index.bodies, index.links, ctx, t, i);
    var l := index.links[e];
    var same, small, big: seq<Ptr> := [], [], [];
    if l.same != NULL {
      same := GetElementListToBinary(index, l.same, q, stamps, ctx, t, i + 1);
    }
    if l.small != NULL {
      small := SubtreeToBinary(index, l.small, q, stamps, SmallOf(t.chain, t.big, ctx), t.small, t);
    }
    if l.big != NULL {
      big := SubtreeToBinary(index, l.big, q, stamps, BigOf(t.chain, t.small, ctx), t.big, t);
    }
    var own := if Chosen(index.bodies, q, stamps, e) then [e] else [];
    assert Ordered(index.bodies, t) by {
      PlugOrdered(index.bodies, ctx, t);
    }
    ListsBelow(index.bodies, q, stamps, t, i, own, same, small, big);
    found := own + same + small + big;
  }

  /** What is below a member of a chain, link by link. */
  lemma BelowIs(t: Tree, i: nat)
    requires t.Node? && i < |t.chain|
    ensures
      var same := if i + 1 < |t.chain| then Below(t, i + 1) else {};
      Below(t, i) == {t.chain[i]} + same + if i == 0 then Ptrs(t.small) + Ptrs(t.big) else {}
  {
    ChainTail(t.chain, i);
    assert i + 1 < |t.chain| ==> Below(t, i + 1) == ChainSet(t.chain[i + 1..]);
  }

  method SubtreeToBinary(index: Index, top: Ptr, q: Query, stamps: Ptr -> Stamp, ghost ctx: Ctx, ghost t: Tree,
                         ghost whole: Tree) returns (found: seq<Ptr>)
    requires Proper(q) && t.Node? && top == RootPtr(t) && t < whole
    requires Ordered(index.bodies, Plug(ctx, t)) && Linked(index.links, NULL, Plug(ctx, t))
    ensures Lists(index.bodies, q, stamps, found, Ptrs(t))
    decreases whole, 0
  {
    PlugOrdered(index.bodies, ctx, t);
    found := GetElementListToBinary(index, top, q, stamps, ctx, t, 0);
    assert t.chain[0..] == t.chain;
    assert Below(t, 0) == Ptrs(t);
  }

  // ---------------------------------------------------------------- the scan

  /** Splitting the low bits of a hash into those of the CKINDEX and those of the KINDEX. */
  lemma {:induction false} LowSplit(s: nat, n: nat, cb: nat)
    ensures Low(Shift(s, cb), n) == Shift(Low(s, n + cb), cb)
    decreases cb
  {
    if cb > 0 {
      LowSplit(s / 2, n, cb - 1);
      assert Low(s, n + cb) / 2 == Low(s / 2, n + cb - 1);
    }
  }

  /** Hashes with the same low n + cb bits belong to one CKINDEX once the slot of those bits is in use. */
  lemma SameHome(ka: AssignMap, n: nat, cb: nat, hash: nat, test: nat)
    requires Prefixed(ka, n) && Low(hash, n + cb) == test && Assigned(ka, Low(Shift(test, cb), n))
    ensures HomePtr(ka, n, cb, hash) == HomePtr(ka, n, cb, test)
  {
    var s1, s2 := Shift(hash, cb), Shift(test, cb);
    assert Low(s1, n) == Low(s2, n) by {
      LowFitsLow(hash, n + cb);
      LowSplit(hash, n, cb);
      LowSplit(test, n, cb);
    }
    assert Low(hash, cb) == Low(test, cb) by {
      LowLow(hash, cb, n + cb);
    }
    HomeAssigned(ka, s1, n);
    HomeAssigned(ka, s2, n);
  }

  lemma LowFitsLow(s: nat, n: nat)
    ensures Low(Low(s, n), n) == Low(s, n)
  {
    LowLow(s, n, n);
  }

  /**
   The number of masked hashes: the largest one is cur_mask shifted by the collision bits, with all collision bits
   set.
   */
  function HashCount(index: Index): (r: nat)
    reads index
    ensures 0 < r
  {
    Pow2(index.maskBits + index.collisionBits)
  }

  /** The chosen live elements with masked hashes from lo to before hi were found. */
  ghost predicate Covered(b: BodyHeap, live: set<Ptr>, bits: nat, q: Query, stamps: Ptr -> Stamp, found: seq<Ptr>,
                          lo: nat, hi: nat)
    requires Proper(q)
  {
    forall p | p in live && Chosen(b, q, stamps, p) && lo <= Low(b[p].hash, bits) < hi :: p in found
  }

  /** Nothing is found that is not a chosen live element. */
  ghost predicate OnlyChosen(b: BodyHeap, live: set<Ptr>, q: Query, stamps: Ptr -> Stamp, found: seq<Ptr>)
    requires Proper(q)
  {
    forall p | p in found :: p in live && Chosen(b, q, stamps, p)
  }

  /** The chosen elements of the CKINDEX of one masked hash; its slot is brought into use first. */
  method ScanOne(index: Index, test: nat, q: Query, stamps: Ptr -> Stamp) returns (found: seq<Ptr>)
    requires index.Valid() && Proper(q) && test < HashCount(index)
    modifies index`links, index`ck, index`assign, index`trees, index`loc
    ensures index.Valid() && index.loc.Keys == old(index.loc.Keys)
    ensures OnlyChosen(index.bodies, index.loc.Keys, q, stamps, found) && Distinct(found)
    ensures Covered(index.bodies, index.loc.Keys, index.maskBits + index.collisionBits, q, stamps, found, test,
      test + 1)
    ensures FoundExactly(index.bodies, index.loc.Keys, index.assign, index.maskBits, index.collisionBits, q, stamps,
        found, HomePtr(index.assign, index.maskBits, index.collisionBits, test))
    ensures Assigned(index.assign, Low(Shift(test, index.collisionBits), index.maskBits))
    ensures old(Assigned(index.assign, Low(Shift(test, index.collisionBits), index.maskBits))) ==>
      index.assign == old(index.assign)
  {
    ghost var h, loc := index.links, index.loc;
    var cp := index.GetCKIndex(test, true);
    KeptBeside(index.bodies, h, index.links, loc, index.loc, index.free, index.held, index.pfreeElements,
      index.areas.used);
    RearrangedKeys(h, index.links, loc, index.loc);
    found := FoundAt(index, cp, q, stamps);
    AllAtHome(index, test, cp);
    FoundThere(index, cp, q, stamps, found);
  }

  /** The chosen elements of one CKINDEX. */
  method FoundAt(index: Index, cp: CKPtr, q: Query, stamps: Ptr -> Stamp) returns (found: seq<Ptr>)
    requires index.Valid() && Proper(q) && cp in index.ck && cp in index.trees
    ensures Lists(index.bodies, q, stamps, found, set p | p in index.loc && index.loc[p] == cp)
  {
    IndexedIs(index.bodies, index.links, index.ck, index.assign, index.maskBits, index.collisionBits, index.trees,
      index.loc);
    PlantedPtrs(index.bodies, index.links, index.ck, index.trees, index.loc, cp);
    RootedIs(index.bodies, index.links, index.ck, cp, index.trees[cp], index.loc);
    ghost var t := index.trees[cp];
    RootNonNull(index.bodies, t);
    found := [];
    if index.ck[cp].elementList != NULL {
      found := SubtreeToBinary(index, index.ck[cp].elementList, q, stamps, Top, t, Node([], t, Nil));
    }
  }

  /** Elements with the masked hash are below the CKINDEX that was looked up for it. */
  lemma AllAtHome(index: Index, test: nat, cp: CKPtr)
    requires index.Valid() && cp == HomePtr(index.assign, index.maskBits, index.collisionBits, test)
    requires Assigned(index.assign, Low(Shift(test, index.collisionBits), index.maskBits))
    ensures forall p |
        && p in index.loc && p in index.bodies
        && Low(index.bodies[p].hash, index.maskBits + index.collisionBits) == test ::
      index.loc[p] == cp
  {
    forall p |
      && p in index.loc && p in index.bodies
      && Low(index.bodies[p].hash, index.maskBits + index.collisionBits) == test
      ensures index.loc[p] == cp
    {
      AtHomeAt(index.bodies, index.links, index.ck, index.assign, index.maskBits, index.collisionBits, index.trees,
        index.loc, p);
      PrefixedOf(index);
      SameHome(index.assign, index.maskBits, index.collisionBits, index.bodies[p].hash, test);
    }
  }

  /** The chosen elements that are at home in one CKINDEX were found. */
  ghost predicate FoundExactly(b: BodyHeap, live: set<Ptr>, ka: AssignMap, n: nat, cb: nat, q: Query,
                               stamps: Ptr -> Stamp, found: seq<Ptr>, cp: CKPtr)
    requires Proper(q)
  {
    forall u: nat {:trigger Look(FOUND_AT, u)} :: Look(FOUND_AT, u) ==>
      forall p :: p in found <==> p in live && Chosen(b, q, stamps, p) && HomePtr(ka, n, cb, b[p].hash) == cp
  }

  lemma FoundThere(index: Index, cp: CKPtr, q: Query, stamps: Ptr -> Stamp, found: seq<Ptr>)
    requires index.Valid() && Proper(q)
    requires Lists(index.bodies, q, stamps, found, set p | p in index.loc && index.loc[p] == cp)
    ensures FoundExactly(index.bodies, index.loc.Keys, index.assign, index.maskBits, index.collisionBits, q, stamps,
        found, cp)
  {
    forall p | p in index.loc
      ensures p in index.bodies
      ensures index.loc[p] == HomePtr(index.assign, index.maskBits, index.collisionBits, index.bodies[p].hash)
    {
      AtHomeAt(index.bodies, index.links, index.ck, index.assign, index.maskBits, index.collisionBits, index.trees,
        index.loc, p);
    }
  }

  lemma PrefixedOf(index: Index)
    requires index.Valid()
    ensures Prefixed(index.assign, index.maskBits)
  {
    IndexedIs(index.bodies, index.links, index.ck, index.assign, index.maskBits, index.collisionBits, index.trees,
      index.loc);
  }

  /** The slots of fewer and of more low bits of a hash. */
  lemma NarrowSlot(hash: nat, k: nat, n: nat, cb: nat, t: nat)
    requires k <= n && t == Low(hash, k + cb)
    ensures t <= Low(hash, n + cb) < Pow2(n + cb)
    ensures Low(Shift(t, cb), n) == Low(Shift(hash, cb), k) && Low(t, cb) == Low(hash, cb)
  {
    LowSplit(hash, k, cb);
    LowLow(hash, k + cb, n + cb);
    LowLow(hash, cb, k + cb);
    LowNarrow(Shift(hash, cb), k, n);
    assert Low(Low(hash, n + cb), k + cb) == Low(hash, k + cb);
  }

  /** The masked hash whose slot a hash is at home in. */
  function HomeHash(ka: AssignMap, n: nat, cb: nat, hash: nat): nat
  {
    Low(hash, HomeBits(ka, Shift(hash, cb), n) + cb)
  }

  /** It is the masked hash itself exactly when the slot of that is in use. */
  lemma HomeHashIs(ka: AssignMap, n: nat, cb: nat, hash: nat, t: nat, own: nat)
    requires Prefixed(ka, n)
    requires t == HomeHash(ka, n, cb, hash) && own == Low(hash, n + cb)
    ensures t <= own && (t < own <==> !Assigned(ka, Low(Shift(own, cb), n)))
    ensures Assigned(ka, Low(Shift(t, cb), n)) && HomePtr(ka, n, cb, t) == HomePtr(ka, n, cb, hash)
  {
    var k := HomeBits(ka, Shift(hash, cb), n);
    NarrowSlot(hash, k, n, cb, t);
    NarrowSlot(hash, n, n, cb, own);
    AllBitsHome(ka, Shift(hash, cb), n);
    assert t == own ==> Low(Shift(own, cb), n) == Low(Shift(hash, cb), k);
    SameHomePtr(ka, n, cb, t, hash, k);
  }

  lemma AllBitsHome(ka: AssignMap, s: nat, n: nat)
    requires Prefixed(ka, n)
    ensures Assigned(ka, Low(s, HomeBits(ka, s, n))) && (HomeBits(ka, s, n) == n <==> Assigned(ka, Low(s, n)))
  {
    HomeAssigned(ka, s, n);
  }

  lemma SameHomePtr(ka: AssignMap, n: nat, cb: nat, t: nat, hash: nat, k: nat)
    requires Prefixed(ka, n) && k == HomeBits(ka, Shift(hash, cb), n)
    requires Low(Shift(t, cb), n) == Low(Shift(hash, cb), k) && Low(t, cb) == Low(hash, cb)
    ensures Assigned(ka, Low(Shift(t, cb), n)) && HomePtr(ka, n, cb, t) == HomePtr(ka, n, cb, hash)
  {
    HomeAssigned(ka, Shift(hash, cb), n);
    HomeFound(ka, Shift(t, cb), n, n);
  }

  /** The low bits of fewer low bits. */
  lemma LowNarrow(s: nat, k: nat, n: nat)
    requires k <= n
    ensures Low(Low(s, k), n) == Low(s, k)
  {
    Pow2Monotone(k, n);
    LowFits(Low(s, k), n);
  }

  /**
   In one scan an element is found under its own masked hash, and before that under the one whose slot it is in, if
   its own is not in use yet: bringing that into use moves the element, and the scan comes to it again.
   */
  method FoundAgain(index: Index, p: Ptr, q: Query, stamps: Ptr -> Stamp)
    returns (t: nat, own: nat, first: seq<Ptr>, second: seq<Ptr>)
    requires index.Valid() && Proper(q) && p in index.loc && Chosen(index.bodies, q, stamps, p)
    modifies index`links, index`ck, index`assign, index`trees, index`loc
    ensures own == Low(index.bodies[p].hash, index.maskBits + index.collisionBits)
    ensures t <= own && p in first && p in second
    ensures t < own <==> !old(Assigned(index.assign, Low(Shift(own, index.collisionBits), index.maskBits)))
  {
    t, own := MaskedHashes(index, p);
    first := ScanHome(index, p, t, q, stamps);
    second := ScanOwn(index, p, q, stamps);
  }

  lemma HashesAre(index: Index, hash: nat, t: nat, own: nat)
    requires index.Valid() && t == HomeHash(index.assign, index.maskBits, index.collisionBits, hash)
    requires own == Low(hash, index.maskBits + index.collisionBits)
    ensures t <= own
    ensures t < own <==> !Assigned(index.assign, Low(Shift(own, index.collisionBits), index.maskBits))
    ensures
      && Assigned(index.assign, Low(Shift(t, index.collisionBits), index.maskBits))
      && HomePtr(index.assign, index.maskBits, index.collisionBits, t) ==
           HomePtr(index.assign, index.maskBits, index.collisionBits, hash)
  {
    PrefixedOf(index);
    HomeHashIs(index.assign, index.maskBits, index.collisionBits, hash, t, own);
  }

  /** The masked hash whose slot an element is in, and its own. */
  method MaskedHashes(index: Index, p: Ptr) returns (t: nat, own: nat)
    requires index.Valid() && p in index.bodies
    ensures own == Low(index.bodies[p].hash, index.maskBits + index.collisionBits) && t <= own && t < HashCount(index)
    ensures t < own <==> !Assigned(index.assign, Low(Shift(own, index.collisionBits), index.maskBits))
    ensures
      && Assigned(index.assign, Low(Shift(t, index.collisionBits), index.maskBits))
      && HomePtr(index.assign, index.maskBits, index.collisionBits, t) ==
           HomePtr(index.assign, index.maskBits, index.collisionBits, index.bodies[p].hash)
  {
    t := HomeHash(index.assign, index.maskBits, index.collisionBits, index.bodies[p].hash);
    own := Low(index.bodies[p].hash, index.maskBits + index.collisionBits);
    HashesAre(index, index.bodies[p].hash, t, own);
    LowBelow(index.bodies[p].hash, index.maskBits + index.collisionBits);
  }

  /** An element is found under the masked hash whose slot it is in. */
  method ScanHome(index: Index, p: Ptr, t: nat, q: Query, stamps: Ptr -> Stamp) returns (found: seq<Ptr>)
    requires index.Valid() && Proper(q) && p in index.loc && Chosen(index.bodies, q, stamps, p) && t < HashCount(index)
    requires
      && Assigned(index.assign, Low(Shift(t, index.collisionBits), index.maskBits))
      && HomePtr(index.assign, index.maskBits, index.collisionBits, t) ==
           HomePtr(index.assign, index.maskBits, index.collisionBits, index.bodies[p].hash)
    modifies index`links, index`ck, index`assign, index`trees, index`loc
    ensures index.Valid() && index.loc.Keys == old(index.loc.Keys) && p in found
  {
    found := ScanOne(index, t, q, stamps);
    assert Look(FOUND_AT, 0);
  }

  /** An element is found under its own masked hash. */
  method ScanOwn(index: Index, p: Ptr, q: Query, stamps: Ptr -> Stamp) returns (found: seq<Ptr>)
    requires index.Valid() && Proper(q) && p in index.loc && Chosen(index.bodies, q, stamps, p)
    modifies index`links, index`ck, index`assign, index`trees, index`loc
    ensures index.Valid() && p in found
  {
    LowBelow(index.bodies[p].hash, index.maskBits + index.collisionBits);
    found := ScanOne(index, Low(index.bodies[p].hash, index.maskBits + index.collisionBits), q, stamps);
  }

  lemma LowBelow(s: nat, n: nat)
    ensures Low(s, n) < Pow2(n)
  {
  }

  /**
   The chosen elements of the first masked hash from starthash on that has any, and where to go on;
   0 when there is nothing more.
   */
  method GetElementsByHash(index: Index, starthash: nat, q: Query, stamps: Ptr -> Stamp)
    returns (nexthash: nat, found: seq<Ptr>)
    requires index.Valid() && Proper(q)
    modifies index`links, index`ck, index`assign, index`trees, index`loc
    ensures index.Valid() && index.loc.Keys == old(index.loc.Keys)
    ensures OnlyChosen(index.bodies, index.loc.Keys, q, stamps, found) && Distinct(found)
    ensures nexthash == 0 || starthash < nexthash < HashCount(index)
    ensures Covered(index.bodies, index.loc.Keys, index.maskBits + index.collisionBits, q, stamps, found, starthash,
                    if nexthash == 0 then HashCount(index) else nexthash)
  {
    var testHash := starthash;
    nexthash, found := 0, [];
    while testHash < HashCount(index)
      invariant index.Valid() && index.loc.Keys == old(index.loc.Keys) && starthash <= testHash
      invariant Covered(index.bodies, index.loc.Keys, index.maskBits + index.collisionBits, q, stamps, [], starthash,
          testHash)
      decreases HashCount(index) - testHash
    {
      found := ScanOne(index, testHash, q, stamps);
      testHash := testHash + 1;
      if found != [] {
        nexthash := if testHash < HashCount(index) then testHash else 0;
        return;
      }
    }
    found := [];
  }

  /**
   The whole scan: from 0 until the cursor is 0 again.  Every live element that is wanted is found, and
   no other, though every call may move elements between CKINDEXs.
   */
  method ScanAll(index: Index, q: Query, stamps: Ptr -> Stamp) returns (all: seq<Ptr>)
    requires index.Valid() && Proper(q)
    modifies index`links, index`ck, index`assign, index`trees, index`loc
    ensures index.Valid() && index.loc.Keys == old(index.loc.Keys)
    ensures forall p ::
        p in all <==> p in index.loc && p in index.bodies && Wanted(q, index.bodies[p].hash, stamps(p))
  {
    var nexthash: nat := 0;
    all := [];
    while true
      invariant index.Valid() && index.loc.Keys == old(index.loc.Keys) && nexthash < HashCount(index)
      invariant OnlyChosen(index.bodies, index.loc.Keys, q, stamps, all)
      invariant Covered(index.bodies, index.loc.Keys, index.maskBits + index.collisionBits, q, stamps, all, 0, nexthash)
      decreases HashCount(index) - nexthash
    {
      var found;
      nexthash, found := GetElementsByHash(index, nexthash, q, stamps);
      all := all + found;
      if nexthash == 0 {
        break;
      }
    }
  }
}
