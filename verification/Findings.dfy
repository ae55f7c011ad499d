/**
 Two runs from an empty file that end where the index fails, for hash functions of the kind they need: an element
 whose removal leaves the index broken, and an element that is not found.
 */
module Findings {
  import opened Layout
  import opened AreaLayout
  import opened KeyIndexPos
  import opened KIndexHome
  import opened ElementTree
  import opened ElementLinks
  import opened TreeMoves
  import opened Forest
  import opened ElementStore
  import opened TreeSearch
  import opened Records
  import opened K2HShm

  /** Two pairs of elements with one subhash each. */
  ghost predicate TwoPairs(b: BodyHeap, ea: Ptr, eb: Ptr, ec: Ptr, ed: Ptr)
  {
    && (forall e | e in {ea, eb, ec, ed} :: e in b) && ea != eb && ec != ed
    && b[ea].subhash == b[eb].subhash && b[ec].subhash == b[ed].subhash && b[ea].subhash != b[ec].subhash
  }

  /** Of two pairs in one tree, the pair at the root has the other one below it. */
  lemma {:induction false} RootStrands(b: BodyHeap, h: LinkHeap, t: Tree, ea: Ptr, eb: Ptr, ec: Ptr, ed: Ptr)
    requires Ordered(b, t) && Linked(h, NULL, t) && Ptrs(t) == {ea, eb, ec, ed} && TwoPairs(b, ea, eb, ec, ed)
    ensures RootPtr(t) in {ea, eb, ec, ed} && RootPtr(t) in h && Stranding(h[RootPtr(t)])
  {
    assert ea in Ptrs(t);
    var x := b[t.chain[0]].subhash;
    assert t.chain[0] in ChainSet(t.chain);
    assert b[ea].subhash == x || b[ec].subhash == x;
    PairAtRoot(b, h, t, if b[ea].subhash == x then ea else ec, if b[ea].subhash == x then eb else ed,
      if b[ea].subhash == x then ec else ea);
  }

  lemma PairAtRoot(b: BodyHeap, h: LinkHeap, t: Tree, e1: Ptr, e2: Ptr, other: Ptr)
    requires
      && Ordered(b, t) && Linked(h, NULL, t) && {e1, e2, other} <= Ptrs(t) && e1 != e2 && e1 in b && e2 in b
      && other in b
    requires t.Node? && b[e1].subhash == b[e2].subhash == b[t.chain[0]].subhash != b[other].subhash
    ensures RootPtr(t) in h && Stranding(h[RootPtr(t)])
  {
    assert e1 in ChainSet(t.chain) && e2 in ChainSet(t.chain) && other in Ptrs(t.small) + Ptrs(t.big);
    var i :| 0 <= i < |t.chain| && t.chain[i] == e1;
    var j :| 0 <= j < |t.chain| && t.chain[j] == e2;
    SameAt(h, t.chain, 0);
    assert t.chain[1] in t.chain;
    RootNonNull(b, t.small);
    RootNonNull(b, t.big);
  }

  /** The root of the tree below the CKINDEX of four keys, the only ones, when they are two such pairs. */
  lemma FourKeysStrand(shm: Shm, cp: CKPtr, a: Bytes, b: Bytes, c: Bytes, d: Bytes)
    requires
      && shm.Valid() && Meaning(shm.index.bodies, shm.pages.store, shm.names).Keys == {a, b, c, d} && a != b && c != d
    requires shm.hashOf(a) == shm.hashOf(b) == shm.hashOf(c) == shm.hashOf(d)
    requires shm.subhashOf(a) == shm.subhashOf(b) != shm.subhashOf(c) == shm.subhashOf(d)
    requires
      && cp == HomePtr(shm.index.assign, shm.index.maskBits, shm.index.collisionBits, shm.hashOf(a))
      && cp in shm.index.ck
    ensures
      var e := shm.index.ck[cp].elementList;
      e in shm.index.loc && shm.index.loc[e] == cp && e in shm.index.links && Stranding(shm.index.links[e])
  {
    var index, names := shm.index, shm.names;
    shm.NamesAre();
    IndexedIs(index.bodies, index.links, index.ck, index.assign, index.maskBits, index.collisionBits, index.trees,
      index.loc);
    RootedIs(index.bodies, index.links, index.ck, cp, index.trees[cp], index.loc);
    FourBelow(shm, cp, a, b, c, d);
    KeyBelow(shm, cp, a);
    KeyBelow(shm, cp, b);
    KeyBelow(shm, cp, c);
    KeyBelow(shm, cp, d);
    RootStrands(index.bodies, index.links, index.trees[cp], names[a], names[b], names[c], names[d]);
  }

  lemma FourBelow(shm: Shm, cp: CKPtr, a: Bytes, b: Bytes, c: Bytes, d: Bytes)
    requires shm.Valid() && shm.names.Keys == {a, b, c, d}
    requires shm.hashOf(a) == shm.hashOf(b) == shm.hashOf(c) == shm.hashOf(d)
    requires cp == HomePtr(shm.index.assign, shm.index.maskBits, shm.index.collisionBits, shm.hashOf(a))
    requires cp in shm.index.trees && PlacedAt(shm.index.trees[cp], shm.index.loc, cp)
    ensures Ptrs(shm.index.trees[cp]) == {shm.names[a], shm.names[b], shm.names[c], shm.names[d]}
  {
    var index, names := shm.index, shm.names;
    forall k | k in names
      ensures names[k] in index.loc && index.loc[names[k]] == cp
    {
      KeyBelow(shm, cp, k);
    }
    forall e | e in index.loc
      ensures e in {names[a], names[b], names[c], names[d]}
    {
      KeyedAt(index.bodies, index.loc.Keys, shm.pages.store, names, shm.hashOf, shm.subhashOf, e);
    }
  }

  lemma KeyBelow(shm: Shm, cp: CKPtr, key: Bytes)
    requires
      && shm.Layers()
      && Keyed(shm.index.bodies, shm.index.loc.Keys, shm.pages.store, shm.names, shm.hashOf, shm.subhashOf)
      && key in shm.names
    requires cp == HomePtr(shm.index.assign, shm.index.maskBits, shm.index.collisionBits, shm.hashOf(key))
    ensures
      var e := shm.names[key];
      && e in shm.index.loc && shm.index.loc[e] == cp && e in shm.index.bodies
      && shm.index.bodies[e].hash == shm.hashOf(key) && shm.index.bodies[e].subhash == shm.subhashOf(key)
      && shm.index.bodies[e].key in shm.pages.store && shm.pages.store[shm.index.bodies[e].key] == key
  {
    var index := shm.index;
    KeyedOf(index.bodies, index.loc.Keys, shm.pages.store, shm.names, shm.hashOf, shm.subhashOf, key);
    AtHomeAt(index.bodies, index.links, index.ck, index.assign, index.maskBits, index.collisionBits, index.trees,
      index.loc, shm.names[key]);
  }

  /** Sets a new key, of the same hash as all others, in a file whose areas array has room. */
  method SetNext(shm: Shm, key: Bytes, ghost keys: set<Bytes>)
    requires
      && shm.Valid() && Meaning(shm.index.bodies, shm.pages.store, shm.names).Keys == keys && key != [] && key !in keys
      && shm.areas.count + |key| + 3 <= MAX_K2HAREA_COUNT
    requires forall k | k in keys :: shm.hashOf(k) == shm.hashOf(key)
    modifies shm, shm.index, shm.pages, shm.areas, shm.areas.table
    ensures
      && shm.Valid() && Meaning(shm.index.bodies, shm.pages.store, shm.names).Keys == keys + {key}
      && shm.areas.count <= old(shm.areas.count) + |key| + 3
    ensures shm.index.maskBits <= old(shm.index.maskBits) + 1
  {
    var ok := shm.Set(key, [], [], []);
  }

  /**
   Four keys of one hash, two with one subhash and two with another, are set.  The element at the root of their
   tree strands subtrees then, and taking it off leaves an index that is not whole.
   */
  method StrandedRun(hashOf: Bytes -> nat, subhashOf: Bytes -> nat, maskBits: nat, collisionBits: nat, a: Bytes,
                     b: Bytes, c: Bytes, d: Bytes)
    returns (shm: Shm, e: Ptr)
    requires 2 <= maskBits && [] !in {a, b, c, d} && a != b && c != d && |a| + |b| + |c| + |d| <= 2000
    requires
      && hashOf(a) == hashOf(b) == hashOf(c) == hashOf(d)
      && subhashOf(a) == subhashOf(b) != subhashOf(c) == subhashOf(d)
    ensures fresh(shm) && !shm.index.Valid()
  {
    shm := new Shm(4096, 4096, 232, maskBits, collisionBits, maskBits + 8, 32, hashOf, subhashOf);
    FourSet(shm, a, b, c, d);
    var cp;
    cp, e := RootOf(shm, a, b, c, d);
    shm.index.UnhangElement(cp, e);
  }

  method FourSet(shm: Shm, a: Bytes, b: Bytes, c: Bytes, d: Bytes)
    requires
      && shm.Valid() && Meaning(shm.index.bodies, shm.pages.store, shm.names) == map[] && [] !in {a, b, c, d}
      && shm.areas.count + |a| + |b| + |c| + |d| + 12 <= MAX_K2HAREA_COUNT
    requires a != b && a != c && a != d && b != c && b != d && c != d
    requires shm.hashOf(a) == shm.hashOf(b) == shm.hashOf(c) == shm.hashOf(d)
    modifies shm, shm.index, shm.pages, shm.areas, shm.areas.table
    ensures shm.Valid() && Meaning(shm.index.bodies, shm.pages.store, shm.names).Keys == {a, b, c, d}
  {
    assert {} + {a, b} == {a, b} && {a, b} + {c, d} == {a, b, c, d};
    SetTwo(shm, a, b, {});
    SetTwo(shm, c, d, {a, b});
  }

  method SetTwo(shm: Shm, a: Bytes, b: Bytes, ghost keys: set<Bytes>)
    requires shm.Valid() && Meaning(shm.index.bodies, shm.pages.store, shm.names).Keys == keys
    requires
      && a != [] && b != [] && a != b && a !in keys && b !in keys
      && shm.areas.count + |a| + |b| + 6 <= MAX_K2HAREA_COUNT
    requires shm.hashOf(a) == shm.hashOf(b) && forall k | k in keys :: shm.hashOf(k) == shm.hashOf(a)
    modifies shm, shm.index, shm.pages, shm.areas, shm.areas.table
    ensures shm.Valid() && Meaning(shm.index.bodies, shm.pages.store, shm.names).Keys == keys + {a, b}
    ensures shm.areas.count <= old(shm.areas.count) + |a| + |b| + 6
  {
    assert keys + {a} + {b} == keys + {a, b};
    SetNext(shm, a, keys);
    SetNext(shm, b, keys + {a});
  }

  /** The root of the tree of four keys, where it strands subtrees. */
  method RootOf(shm: Shm, a: Bytes, b: Bytes, c: Bytes, d: Bytes) returns (cp: CKPtr, e: Ptr)
    requires
      && shm.Valid() && Meaning(shm.index.bodies, shm.pages.store, shm.names).Keys == {a, b, c, d} && a != b && c != d
    requires shm.hashOf(a) == shm.hashOf(b) == shm.hashOf(c) == shm.hashOf(d)
    requires shm.subhashOf(a) == shm.subhashOf(b) != shm.subhashOf(c) == shm.subhashOf(d)
    modifies shm.index`links, shm.index`ck, shm.index`assign, shm.index`trees, shm.index`loc
    ensures
      && shm.index.Valid() && e in shm.index.loc && shm.index.loc[e] == cp && e in shm.index.links
      && Stranding(shm.index.links[e])
  {
    cp := shm.LocateCKIndex(a, shm.index.loc.Keys);
    FourKeysStrand(shm, cp, a, b, c, d);
    e := shm.index.ck[cp].elementList;
  }

  // ---------------------------------------------------------------- an element that is not found

  /** Slots are the same for hashes that agree under every mask. */
  lemma {:induction false} SameHomeBits(ka: AssignMap, s: nat, s': nat, n: nat, m: nat)
    requires n <= m && Low(s, m) == Low(s', m)
    ensures HomeBits(ka, s, n) == HomeBits(ka, s', n) && Home(ka, s, n) == Home(ka, s', n)
  {
    LowLow(s, n, m);
    LowLow(s', n, m);
    if n > 0 {
      SameHomeBits(ka, s, s', n - 1, m);
    }
  }

  /** Behind the head of a chain with the same subhash but another hash nothing is found. */
  lemma LostBehind(b: BodyHeap, t: Tree, ea: Ptr, e: Ptr)
    requires Ordered(b, t) && Ptrs(t) == {ea} && ea in b && e in b && e != NULL && e != ea
    requires b[e].subhash == b[ea].subhash && b[e].hash != b[ea].hash
    ensures
      && Ordered(b, AddTree(b, t, e)) && e in Ptrs(AddTree(b, t, e))
      && FoundChain(b, AddTree(b, t, e), b[e].hash, b[e].subhash) == []
  {
    AddedTree(b, t, e);
    assert ea in Ptrs(t);
    assert t.chain[0] in Ptrs(t);
  }

  /**
   A key is set, and the ELEMENT of another is put below the same CKINDEX, as setting it does.  The keys have one
   subhash but two hashes: the second ELEMENT is in the tree where its hash belongs, and the search for it
   answers null.
   */
  method LostRun(hashOf: Bytes -> nat, subhashOf: Bytes -> nat, maskBits: nat, collisionBits: nat, a: Bytes, b: Bytes)
    returns (shm: Shm, cp: CKPtr, e: Ptr, found: Ptr, ghost t: Tree)
    requires 2 <= maskBits && a != [] && b != [] && |a| + |b| <= 2000
    requires
      && subhashOf(a) == subhashOf(b) && hashOf(a) != hashOf(b)
      && Low(hashOf(a), collisionBits) == Low(hashOf(b), collisionBits)
    requires Low(Shift(hashOf(a), collisionBits), maskBits + 1) == Low(Shift(hashOf(b), collisionBits), maskBits + 1)
    ensures fresh(shm) && cp == HomePtr(shm.index.assign, shm.index.maskBits, collisionBits, hashOf(b))
    ensures Holds(shm.index.bodies, shm.index.links, shm.index.ck, cp, t) && e in Ptrs(t) && found == NULL
    ensures
      && e in shm.index.bodies && shm.index.bodies[e].hash == hashOf(b) && shm.index.bodies[e].subhash == subhashOf(b)
  {
    shm := new Shm(4096, 4096, 232, maskBits, collisionBits, maskBits + 8, 32, hashOf, subhashOf);
    cp, e, found, t := SetAndSearch(shm, a, b, maskBits + 1);
  }

  method SetAndSearch(shm: Shm, a: Bytes, b: Bytes, ghost m: nat) returns (cp: CKPtr, e: Ptr, found: Ptr, ghost t: Tree)
    requires shm.Valid() && Meaning(shm.index.bodies, shm.pages.store, shm.names).Keys == {} && shm.index.maskBits < m
    requires a != [] && b != [] && shm.areas.count + |a| + |b| + 4 < MAX_K2HAREA_COUNT
    requires shm.subhashOf(a) == shm.subhashOf(b) && shm.hashOf(a) != shm.hashOf(b)
    requires Low(shm.hashOf(a), shm.index.collisionBits) == Low(shm.hashOf(b), shm.index.collisionBits)
    requires Low(Shift(shm.hashOf(a), shm.index.collisionBits), m) ==
      Low(Shift(shm.hashOf(b), shm.index.collisionBits), m)
    modifies shm, shm.index, shm.pages, shm.areas, shm.areas.table
    ensures cp == HomePtr(shm.index.assign, shm.index.maskBits, shm.index.collisionBits, shm.hashOf(b))
    ensures Holds(shm.index.bodies, shm.index.links, shm.index.ck, cp, t) && e in Ptrs(t) && found == NULL
    ensures
      && e in shm.index.bodies && shm.index.bodies[e].hash == shm.hashOf(b)
      && shm.index.bodies[e].subhash == shm.subhashOf(b)
  {
    SetNext(shm, a, {});
    assert {} + {a} == {a};
    cp := LocateShared(shm, a, b, m);
    e, found, t := AllocateAndSearch(shm, cp, a, b);
  }

  /** Makes the ELEMENT of a second key and puts it where its hash belongs, which is where the first one is. */
  method AllocateAndSearch(shm: Shm, cp: CKPtr, ghost a: Bytes, b: Bytes) returns (e: Ptr, found: Ptr, ghost t: Tree)
    requires
      && shm.Valid() && shm.names.Keys == {a} && b != [] && shm.areas.count + 1 + |b| < MAX_K2HAREA_COUNT
      && cp in shm.index.ck
    requires shm.subhashOf(a) == shm.subhashOf(b) && shm.hashOf(a) != shm.hashOf(b)
    requires cp == HomePtr(shm.index.assign, shm.index.maskBits, shm.index.collisionBits, shm.hashOf(a))
    modifies shm`slots, shm`loose, shm.pages, shm.areas, shm.areas.table
    modifies shm.index`links, shm.index`bodies, shm.index`pfreeElements, shm.index`freeElementCount, shm.index`free
    modifies shm.index`held, shm.index`ck
    ensures Holds(shm.index.bodies, shm.index.links, shm.index.ck, cp, t) && e in Ptrs(t) && found == NULL
    ensures
      && e in shm.index.bodies && shm.index.bodies[e].hash == shm.hashOf(b)
      && shm.index.bodies[e].subhash == shm.subhashOf(b)
  {
    e := shm.AllocateElement(shm.hashOf(b), shm.subhashOf(b), b, [], [], []);
    found, t := PutAndSearch(shm, cp, a, e);
  }

  /** The CKINDEX of two keys whose hashes agree as far as it depends on them. */
  method LocateShared(shm: Shm, a: Bytes, b: Bytes, ghost m: nat) returns (cp: CKPtr)
    requires shm.Valid() && Meaning(shm.index.bodies, shm.pages.store, shm.names).Keys == {a} && shm.index.maskBits <= m
    requires Low(shm.hashOf(a), shm.index.collisionBits) == Low(shm.hashOf(b), shm.index.collisionBits)
    requires Low(Shift(shm.hashOf(a), shm.index.collisionBits), m) ==
      Low(Shift(shm.hashOf(b), shm.index.collisionBits), m)
    modifies shm.index`links, shm.index`ck, shm.index`assign, shm.index`trees, shm.index`loc
    ensures shm.Valid() && shm.names.Keys == {a} && cp in shm.index.ck
    ensures cp == HomePtr(shm.index.assign, shm.index.maskBits, shm.index.collisionBits, shm.hashOf(a))
    ensures cp == HomePtr(shm.index.assign, shm.index.maskBits, shm.index.collisionBits, shm.hashOf(b))
  {
    cp := shm.LocateCKIndex(a, shm.index.loc.Keys);
    SameHomeBits(shm.index.assign, Shift(shm.hashOf(a), shm.index.collisionBits),
      Shift(shm.hashOf(b), shm.index.collisionBits), shm.index.maskBits, m);
    shm.NamesAre();
  }

  /** Puts an ELEMENT below a CKINDEX with one other, whose subhash it has, and searches for it. */
  method PutAndSearch(shm: Shm, cp: CKPtr, ghost a: Bytes, e: Ptr) returns (found: Ptr, ghost t: Tree)
    requires shm.Layers()
    requires Sound(shm.index.loc.Keys + {e}, shm.index.bodies, shm.index.loc.Keys, shm.pages.store, shm.slots,
      shm.loose, shm.names, shm.hashOf, shm.subhashOf)
    requires shm.names.Keys == {a} && e in shm.index.held && e in shm.index.bodies
    requires
      && cp == HomePtr(shm.index.assign, shm.index.maskBits, shm.index.collisionBits, shm.hashOf(a))
      && cp in shm.index.ck
    requires shm.index.bodies[e].subhash == shm.subhashOf(a) && shm.index.bodies[e].hash != shm.hashOf(a)
    modifies shm.index`links, shm.index`ck
    ensures Holds(shm.index.bodies, shm.index.links, shm.index.ck, cp, t) && e in Ptrs(t) && found == NULL
  {
    ghost var ea := shm.names[a];
    KeyBelow(shm, cp, a);
    OnlyElement(shm, cp, a);
    KeptHeld(shm.index.bodies, shm.index.links, shm.index.loc, shm.index.free, shm.index.held, shm.index.pfreeElements,
      shm.areas.used, e);
    ghost var t0 := shm.index.trees[cp];
    LostBehind(shm.index.bodies, t0, ea, e);
    shm.index.PutElement(cp, e, t0);
    t := AddTree(shm.index.bodies, t0, e);
    found :=
      shm.index.GetElementList(shm.index.ck[cp].elementList, shm.index.bodies[e].hash, shm.index.bodies[e].subhash,
        NULL, t);
  }

  lemma OnlyElement(shm: Shm, cp: CKPtr, a: Bytes)
    requires
      && shm.Layers()
      && Keyed(shm.index.bodies, shm.index.loc.Keys, shm.pages.store, shm.names, shm.hashOf, shm.subhashOf)
    requires shm.names.Keys == {a} && cp in shm.index.ck
    requires cp == HomePtr(shm.index.assign, shm.index.maskBits, shm.index.collisionBits, shm.hashOf(a))
    ensures cp in shm.index.trees && Ptrs(shm.index.trees[cp]) == {shm.names[a]}
    ensures Holds(shm.index.bodies, shm.index.links, shm.index.ck, cp, shm.index.trees[cp])
  {
    var index, names := shm.index, shm.names;
    IndexedIs(index.bodies, index.links, index.ck, index.assign, index.maskBits, index.collisionBits, index.trees,
      index.loc);
    RootedIs(index.bodies, index.links, index.ck, cp, index.trees[cp], index.loc);
    KeyBelow(shm, cp, a);
    forall e | e in index.loc
      ensures e == names[a]
    {
      KeyedAt(index.bodies, index.loc.Keys, shm.pages.store, names, shm.hashOf, shm.subhashOf, e);
    }
  }
}
