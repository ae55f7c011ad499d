/**
 The key-value store on top of the index and the pages (K2HShm::Get, Set, Remove, Replace, Rename).
 */
module K2HShm {
  import opened Layout
  import opened AreaLayout
  import opened KIndexHome
  import opened ElementTree
  import opened ElementLinks
  import opened TreeMoves
  import opened Forest
  import opened ElementStore
  import opened Records
  import ElementIndex
  import PageArena
  import PageStore

  /** Among the keys of m that share the CKINDEX of `key`, those with its subhash have its hash. */
  ghost predicate FitsIn(m: Content, ka: AssignMap, n: nat, cb: nat, key: Bytes, hashOf: Bytes -> nat,
                         subhashOf: Bytes -> nat)
  {
    forall u: nat {:trigger Look(FITS_IN, u)} :: Look(FITS_IN, u) ==>
      forall k |
          && k in m && k != key && subhashOf(k) == subhashOf(key)
          && HomePtr(ka, n, cb, hashOf(k)) == HomePtr(ka, n, cb, hashOf(key)) ::
        hashOf(k) == hashOf(key)
  }

  lemma FitsInAt(m: Content, ka: AssignMap, n: nat, cb: nat, key: Bytes, hashOf: Bytes -> nat, subhashOf: Bytes -> nat,
                 k: Bytes)
    requires FitsIn(m, ka, n, cb, key, hashOf, subhashOf) && k in m && k != key
    requires subhashOf(k) == subhashOf(key) && HomePtr(ka, n, cb, hashOf(k)) == HomePtr(ka, n, cb, hashOf(key))
    ensures hashOf(k) == hashOf(key)
  {
    assert Look(FITS_IN, 0);
  }

  /** A key goes on fitting when keys are removed and slots are assigned. */
  lemma FitsInLater(m: Content, m': Content, ka: AssignMap, n: nat, ka': AssignMap, n': nat, cb: nat,
                    key: Bytes, hashOf: Bytes -> nat, subhashOf: Bytes -> nat)
    requires FitsIn(m, ka, n, cb, key, hashOf, subhashOf) && Finer(ka, n, ka', n', cb) && m'.Keys <= m.Keys
    ensures FitsIn(m', ka', n', cb, key, hashOf, subhashOf)
  {
    forall k |
      && k in m' && k != key && subhashOf(k) == subhashOf(key)
      && HomePtr(ka', n', cb, hashOf(k)) == HomePtr(ka', n', cb, hashOf(key))
      ensures hashOf(k) == hashOf(key)
    {
      FinerAt(ka, n, ka', n', cb, hashOf(k), hashOf(key));
      FitsInAt(m, ka, n, cb, key, hashOf, subhashOf, k);
    }
  }

  /** The ELEMENTs s own the chains; the live ones have the keys. */
  ghost predicate Sound(s: set<Ptr>, b: BodyHeap, live: set<Ptr>, store: Store, slots: Slots, loose: set<Ptr>,
                        names: Names, hashOf: Bytes -> nat, subhashOf: Bytes -> nat)
  {
    var sound := Owns(b, s, store, slots, loose) && Keyed(b, live, store, names, hashOf, subhashOf);
    sound
  }

  /**
   No two of the keys have the same subhash below one CKINDEX: with such keys every operation finds what it needs,
   whichever of them are there.
   */
  ghost predicate KeysApart(keys: set<Bytes>, ka: AssignMap, n: nat, cb: nat, hashOf: Bytes -> nat,
                            subhashOf: Bytes -> nat)
  {
    forall u: nat {:trigger Look(APART, u)} :: Look(APART, u) ==>
      forall k1, k2 | k1 in keys && k2 in keys && k1 != k2 && subhashOf(k1) == subhashOf(k2) ::
        HomePtr(ka, n, cb, hashOf(k1)) != HomePtr(ka, n, cb, hashOf(k2))
  }

  lemma ApartFits(m: Content, keys: set<Bytes>, ka: AssignMap, n: nat, cb: nat, key: Bytes, hashOf: Bytes -> nat,
                  subhashOf: Bytes -> nat)
    requires KeysApart(keys, ka, n, cb, hashOf, subhashOf) && m.Keys <= keys && key in keys
    ensures Twinless(m, key, hashOf, subhashOf) && FitsIn(m, ka, n, cb, key, hashOf, subhashOf)
  {
    assert Look(APART, 0);
  }

  /** Keys that are apart stay apart when slots are assigned and the mask is widened. */
  lemma ApartLater(keys: set<Bytes>, ka: AssignMap, n: nat, ka': AssignMap, n': nat, cb: nat, hashOf: Bytes -> nat,
                   subhashOf: Bytes -> nat)
    requires KeysApart(keys, ka, n, cb, hashOf, subhashOf) && Finer(ka, n, ka', n', cb)
    ensures KeysApart(keys, ka', n', cb, hashOf, subhashOf)
  {
    assert Look(APART, 0) && Look(FINER, 0);
  }

  /** A merging lookup of a key that fits has found its CKINDEX, and its ELEMENT if there is one. */
  ghost predicate FoundFitting(m: Content, names: Names, key: Bytes, cp: CKPtr, e: Ptr, ka: AssignMap, n: nat, cb: nat,
                          ck: CKHeap, hashOf: Bytes -> nat, subhashOf: Bytes -> nat)
  {
    forall u: nat {:trigger Look(LOCATED, u)} :: Look(LOCATED, u) ==>
      && Twinless(m, key, hashOf, subhashOf) && FitsIn(m, ka, n, cb, key, hashOf, subhashOf)
      && cp == HomePtr(ka, n, cb, hashOf(key)) && cp in ck
      && e == (if key in names then names[key] else NULL) && (e == NULL <==> key !in names)
  }

  lemma NothingSound(b: BodyHeap, hashOf: Bytes -> nat, subhashOf: Bytes -> nat)
    ensures Sound({}, b, {}, map[], map[], {}, map[], hashOf, subhashOf) && Meaning(b, map[], map[]) == map[]
  {
    OwnsIs(b, {}, map[], map[], {});
    KeyedIs(b, {}, map[], map[], hashOf, subhashOf);
  }

  lemma RemovedAbsent(m: Content, key: Bytes)
    requires key !in m
    ensures m - {key} == m
  {
  }

  lemma TakenAndBack(s: set<Ptr>, e: Ptr)
    requires e in s
    ensures s - {e} + {e} == s
  {
  }

  lemma TakenFromBoth(s: set<Ptr>, e: Ptr, e2: Ptr)
    requires e != e2
    ensures s + {e2} - {e} == s - {e} + {e2} && {e2} + {e} - {e} == {e2} && s - {e} <= s + {e2} - {e}
  {
  }

  /** The areas of an empty file, with its index and its pages. */
  method MakeLayers(headSize: nat, systemPageSize: nat, pageCapacity: nat, maskBits: nat, collisionBits: nat,
                    maxMaskBits: nat, maxElementCount: nat)
    returns (areas: Areas, index: ElementIndex.Index, pages: PageArena.Arena)
    requires 0 < headSize && 0 < systemPageSize && 0 < pageCapacity && 2 <= maskBits
    ensures fresh(index) && fresh(pages) && fresh(areas) && fresh(areas.table)
    ensures
      && index.areas == areas && pages.areas == areas && index.Valid() && pages.Valid() && pages.isPacked
      && pages.isWhole
    ensures index.held == {} && index.loc.Keys == {} && pages.store == map[]
    ensures index.maskBits == maskBits && index.collisionBits == collisionBits && areas.count == 4
  {
    areas := new Areas(systemPageSize, headSize);
    index := new ElementIndex.Index(areas, maskBits, collisionBits, maxMaskBits, maxElementCount);
    ghost var used := areas.used;
    pages := new PageArena.Arena(areas, pageCapacity,
      Pow2(maskBits) * Pow2(collisionBits) * ELEMENT_CNT_RATIO * PageStore.PAGE_CNT_RATIO);
    KeptWider(index.bodies, index.links, index.loc, index.free, index.held, index.pfreeElements, used, areas.used);
  }

  class Shm {
    const areas: Areas
    const index: ElementIndex.Index
    const pages: PageArena.Arena
    const hashOf: Bytes -> nat
    const subhashOf: Bytes -> nat

    ghost var slots: Slots
    ghost var loose: set<Ptr>
    ghost var names: Names

    /** An empty file. */
    constructor (headSize: nat, systemPageSize: nat, pageCapacity: nat, maskBits: nat, collisionBits: nat,
                 maxMaskBits: nat, maxElementCount: nat, hashOf: Bytes -> nat, subhashOf: Bytes -> nat)
      requires 0 < headSize && 0 < systemPageSize && 0 < pageCapacity && 2 <= maskBits
      ensures Valid() && Abs() == map[] && loose == {}
      ensures fresh(index) && fresh(pages) && fresh(areas) && fresh(areas.table)
      ensures index.maskBits == maskBits && index.collisionBits == collisionBits && areas.count == 4
      ensures this.hashOf == hashOf && this.subhashOf == subhashOf
    {
      var newAreas, newIndex, newPages := MakeLayers(headSize, systemPageSize, pageCapacity, maskBits, collisionBits,
        maxMaskBits, maxElementCount);
      NothingSound(newIndex.bodies, hashOf, subhashOf);
      areas, index, pages := newAreas, newIndex, newPages;
      this.hashOf, this.subhashOf := hashOf, subhashOf;
      slots, loose, names := map[], {}, map[];
    }

    /** The index and the pages, each sound and in the same file. */
    ghost predicate Layers()
      reads this, index, pages, areas, areas.table
    {
      && var layers := index.areas == areas && pages.areas == areas && index.Valid() && pages.Valid() && pages.isPacked
      && pages.isWhole;
      layers
    }

    ghost predicate Valid()
      reads this, index, pages, areas, areas.table
    {
      var sound := Sound(index.loc.Keys, index.bodies, index.loc.Keys, pages.store, slots, loose, names, hashOf,
        subhashOf);
      var valid := Layers() && index.held == {} && sound;
      valid
    }

    /** The map from keys to values, subkeys and attributes that the file stands for. */
    ghost function Abs(): Content
      reads this, index, pages
    {
      Meaning(index.bodies, pages.store, names)
    }

    /** All keys there are, and those that are to come, are among some that are apart. */
    ghost predicate Admits(keys: set<Bytes>)
      reads this, index, pages
    {
      && KeysApart(keys, index.assign, index.maskBits, index.collisionBits, hashOf, subhashOf)
      && Meaning(index.bodies, pages.store, names).Keys <= keys
    }

    /** Notes who owns the chains, of which everything is known. */
    ghost method Settle(slots': Slots)
      requires Layers() && index.held == {}
      requires Sound(index.loc.Keys, index.bodies, index.loc.Keys, pages.store, slots', loose, names, hashOf, subhashOf)
      modifies this`slots
      ensures Valid() && slots == slots'
    {
      slots := slots';
    }

    /** How many pages an area gets when one is added. */
    function PageAreaCount(): (n: nat)
      reads index
      ensures 0 < n
    {
      var n := Pow2(index.maskBits) * Pow2(index.collisionBits) * ELEMENT_CNT_RATIO * PageStore.PAGE_CNT_RATIO;
      if PageStore.MAX_EXPAND_PAGE_CNT < n then PageStore.MAX_EXPAND_PAGE_CNT else n
    }

    /** A new chain for the bytes, loose until an ELEMENT names it. */
    method ReserveText(bytes: Bytes, ghost s: set<Ptr>, ghost store0: Store, ghost loose0: set<Ptr>, ghost ps: set<Ptr>)
      returns (ok: bool, p: Ptr)
      requires Layers() && Owns(index.bodies, s, pages.store, slots, loose)
      requires Gathered(store0, loose0, pages.store, loose, ps)
      modifies this`loose, pages, areas, areas.table
      ensures Layers() && Owns(index.bodies, s, pages.store, slots, loose)
      ensures Gathered(store0, loose0, pages.store, loose, ps + ({p} - {NULL}))
      ensures !ok ==> areas.count == MAX_K2HAREA_COUNT && p == NULL
      ensures ok ==> Carries(pages.store, p, bytes) && p !in ps
      ensures areas.count <= old(areas.count) + |bytes|
      ensures Extends(old(pages.store), pages.store)
    {
      ghost var end, store := areas.used, pages.store;
      GatheredIs(store0, loose0, store, loose, ps);
      LooseIn(index.bodies, s, store, slots, loose);
      ok, p := pages.ReserveData(bytes, PageAreaCount());
      KeptWider(index.bodies, index.links, index.loc, index.free, index.held, index.pfreeElements, end, areas.used);
      if p != NULL {
        OwnsReserved(index.bodies, s, store, slots, loose, p, bytes);
        GatheredMore(store0, loose0, store, loose, ps, p, bytes);
        loose := loose + {p};
        assert {p} - {NULL} == {p};
      } else {
        assert ps + ({p} - {NULL}) == ps;
      }
    }

    /** Gives a loose chain back; null is no chain. */
    method FreeText(p: Ptr, ghost s: set<Ptr>, ghost store0: Store, ghost loose0: set<Ptr>, ghost ps: set<Ptr>)
      requires Layers() && Owns(index.bodies, s, pages.store, slots, loose)
      requires Gathered(store0, loose0, pages.store, loose, ps) && (p == NULL || p in ps)
      modifies this`loose, pages
      ensures Layers() && Owns(index.bodies, s, pages.store, slots, loose)
      ensures Gathered(store0, loose0, pages.store, loose, ps - {p})
    {
      ghost var store := pages.store;
      GatheredIs(store0, loose0, store, loose, ps);
      GatheredLess(store0, loose0, store, loose, ps, p);
      LooseIn(index.bodies, s, store, slots, loose);
      if p != NULL {
        OwnsFreed(index.bodies, s, store, slots, loose, p);
        pages.Free(p);
        loose := loose - {p};
      } else {
        assert store - {p} == store && loose - {p} == loose;
      }
    }

    /** The chains of a new ELEMENT; when one cannot be had, those already made are given back. */
    method ReserveBody(hash: nat, subhash: nat, key: Bytes, value: Bytes, subkeys: Bytes, attrs: Bytes,
                       ghost s: set<Ptr>)
      returns (ok: bool, body: Body)
      requires Layers() && Owns(index.bodies, s, pages.store, slots, loose)
      modifies this`loose, pages, areas, areas.table
      ensures Layers() && Owns(index.bodies, s, pages.store, slots, loose)
      ensures !ok ==> loose == old(loose) && pages.store == old(pages.store) && areas.count == MAX_K2HAREA_COUNT
      ensures areas.count <= old(areas.count) + |key| + |value| + |subkeys| + |attrs|
      ensures ok ==>
        && Gathered(old(pages.store), old(loose), pages.store, loose, Fields(body))
        && Spread(body) && Measured(body, pages.store) && Filled(pages.store, Fields(body)) && body.hash == hash
        && body.subhash == subhash
        && EntryOf(body, pages.store) == Entry(value, subkeys, attrs) && Text(pages.store, body.key) == key
    {
      ghost var store, loose0 := pages.store, loose;
      LooseIn(index.bodies, s, store, slots, loose);
      GatheredNone(store, loose0);
      ok, body := ReserveTexts(hash, subhash, key, value, subkeys, attrs, s, store, loose0);
      if ok {
        NonNullAre(body);
        GatheredIs(store, loose0, pages.store, loose, Fields(body));
        BodyCarries(pages.store, hash, subhash, body.key, body.value, body.subkeys, body.attrs, key, value, subkeys,
          attrs);
      } else {
        FreeTexts(body.key, body.value, body.subkeys, s, store, loose0);
      }
    }

    /** Up to four new chains, each tried when the one before was had. */
    method ReserveTexts(hash: nat, subhash: nat, key: Bytes, value: Bytes, subkeys: Bytes, attrs: Bytes,
                        ghost s: set<Ptr>, ghost store: Store, ghost loose0: set<Ptr>)
      returns (ok: bool, body: Body)
      requires Layers() && Owns(index.bodies, s, pages.store, slots, loose)
      requires Gathered(store, loose0, pages.store, loose, {})
      modifies this`loose, pages, areas, areas.table
      ensures Layers() && Owns(index.bodies, s, pages.store, slots, loose)
      ensures Gathered(store, loose0, pages.store, loose, NonNull(body.key, body.value, body.subkeys, body.attrs))
      ensures body == BodyOf(hash, subhash, body.key, body.value, body.subkeys, body.attrs, key, value, subkeys, attrs)
      ensures !ok ==> areas.count == MAX_K2HAREA_COUNT && body.attrs == NULL
      ensures areas.count <= old(areas.count) + |key| + |value| + |subkeys| + |attrs|
      ensures Different(body.key, body.value, body.subkeys, body.attrs)
      ensures ok ==>
        && Carries(pages.store, body.key, key) && Carries(pages.store, body.value, value)
        && Carries(pages.store, body.subkeys, subkeys) && Carries(pages.store, body.attrs, attrs)
    {
      var keyPage, valPage, subPage, attrPage := NULL, NULL, NULL, NULL;
      ghost var ps: set<Ptr> := {};
      ok, keyPage := ReserveText(key, s, store, loose0, ps);
      ps := ps + ({keyPage} - {NULL});
      if ok {
        ok, valPage := ReserveText(value, s, store, loose0, ps);
      }
      ps := ps + ({valPage} - {NULL});
      if ok {
        ok, subPage := ReserveText(subkeys, s, store, loose0, ps);
      }
      ps := ps + ({subPage} - {NULL});
      if ok {
        ok, attrPage := ReserveText(attrs, s, store, loose0, ps);
      }
      ps := ps + ({attrPage} - {NULL});
      body := BodyOf(hash, subhash, keyPage, valPage, subPage, attrPage, key, value, subkeys, attrs);
    }

    /** The recovery of AllocateElement: chains already made are given back. */
    method FreeTexts(keyPage: Ptr, valPage: Ptr, subPage: Ptr, ghost s: set<Ptr>, ghost store: Store,
                     ghost loose0: set<Ptr>)
      requires Layers() && Owns(index.bodies, s, pages.store, slots, loose)
      requires Gathered(store, loose0, pages.store, loose, NonNull(keyPage, valPage, subPage, NULL))
      requires Different(keyPage, valPage, subPage, NULL)
      modifies this`loose, pages
      ensures Layers() && Owns(index.bodies, s, pages.store, slots, loose)
      ensures pages.store == store && loose == loose0
    {
      ghost var ps := NonNull(keyPage, valPage, subPage, NULL);
      FreeText(keyPage, s, store, loose0, ps);
      ps := ps - {keyPage};
      FreeText(valPage, s, store, loose0, ps);
      ps := ps - {valPage};
      FreeText(subPage, s, store, loose0, ps);
      ps := ps - {subPage};
      assert ps == {};
      GatheredIs(store, loose0, pages.store, loose, ps);
    }

    /** A free ELEMENT, held by the caller. */
    method HoldElement() returns (e: Ptr)
      requires Valid()
      modifies index`links, index`bodies, index`pfreeElements, index`freeElementCount, index`free, index`held, areas
      modifies areas.table
      ensures
        && Layers()
        && Sound(index.loc.Keys, index.bodies, index.loc.Keys, pages.store, slots, loose, names, hashOf, subhashOf)
        && Meaning(index.bodies, pages.store, names) == old(Meaning(index.bodies, pages.store, names))
      ensures e == NULL ==> index.held == {} && areas.count == MAX_K2HAREA_COUNT
      ensures areas.count <= old(areas.count) + 1
      ensures e != NULL ==> index.held == {e} && e !in index.loc && e in index.bodies
      ensures SameBodies(old(index.bodies), index.bodies, index.loc.Keys)
    {
      ghost var b, end, store := index.bodies, areas.used, pages.store;
      e := index.ReserveElement();
      PageStore.PagedWider(pages.heads, pages.buffers, pages.free, pages.chains, pages.owner, pages.pfreePages,
        pages.capacity, end, areas.used);
      PageStore.WholeWider(pages.buffers, end, areas.used, PageStore.PageSize(pages.capacity));
      SoundFrame(b, index.bodies, index.loc.Keys, index.loc.Keys, store, slots, loose, names, hashOf, subhashOf);
    }

    /**
     A new ELEMENT with chains for the four byte strings, held by the caller; null, with nothing kept,
     when an area is needed and cannot be added.
     */
    method AllocateElement(hash: nat, subhash: nat, key: Bytes, value: Bytes, subkeys: Bytes, attrs: Bytes)
      returns (e: Ptr)
      requires Valid()
      modifies this`slots, this`loose, pages, areas, areas.table
      modifies index`links, index`bodies, index`pfreeElements, index`freeElementCount, index`free, index`held
      ensures
        && Layers() && Meaning(index.bodies, pages.store, names) == old(Meaning(index.bodies, pages.store, names))
        && loose == old(loose)
      ensures e == NULL ==> Valid() && areas.count == MAX_K2HAREA_COUNT
      ensures areas.count <= old(areas.count) + 1 + |key| + |value| + |subkeys| + |attrs|
      ensures e != NULL ==>
        && index.held == {e} && e !in index.loc && e in index.bodies
        && Sound(index.loc.Keys + {e}, index.bodies, index.loc.Keys, pages.store, slots, loose, names, hashOf,
             subhashOf)
        && index.bodies[e].hash == hash && index.bodies[e].subhash == subhash
        && EntryOf(index.bodies[e], pages.store) == Entry(value, subkeys, attrs)
        && Text(pages.store, index.bodies[e].key) == key
    {
      e := HoldElement();
      if e == NULL {
        return;
      }
      var ok := FillElement(e, hash, subhash, key, value, subkeys, attrs);
      if !ok {
        e := NULL;
      }
    }

    /** Makes the chains of a held ELEMENT; without room it is put back. */
    method FillElement(e: Ptr, hash: nat, subhash: nat, key: Bytes, value: Bytes, subkeys: Bytes,
                       attrs: Bytes) returns (ok: bool)
      requires Layers() && index.held == {e} && e !in index.loc && e in index.bodies
      requires Sound(index.loc.Keys, index.bodies, index.loc.Keys, pages.store, slots, loose, names, hashOf, subhashOf)
      modifies this`slots, this`loose, pages, areas, areas.table
      modifies index`links, index`bodies, index`pfreeElements, index`freeElementCount, index`free, index`held
      ensures Layers() && loose == old(loose)
      ensures Meaning(index.bodies, pages.store, names) == old(Meaning(index.bodies, pages.store, names))
      ensures !ok ==> Valid() && areas.count == MAX_K2HAREA_COUNT
      ensures areas.count <= old(areas.count) + |key| + |value| + |subkeys| + |attrs|
      ensures ok ==>
        && index.held == {e} && e in index.bodies
        && Sound(index.loc.Keys + {e}, index.bodies, index.loc.Keys, pages.store, slots, loose, names, hashOf,
             subhashOf)
        && index.bodies[e].hash == hash && index.bodies[e].subhash == subhash
        && EntryOf(index.bodies[e], pages.store) == Entry(value, subkeys, attrs)
        && Text(pages.store, index.bodies[e].key) == key
    {
      ghost var live, b, store, loose0 := index.loc.Keys, index.bodies, pages.store, loose;
      var body;
      ok, body := ReserveBody(hash, subhash, key, value, subkeys, attrs, live);
      if !ok {
        assert Meaning(index.bodies, pages.store, names) == Meaning(b, store, names);
        LetGoElement(e, live);
        return;
      }
      AdoptBody(e, body, store, loose0);
    }

    /** Puts a held ELEMENT that owns nothing back. */
    method LetGoElement(e: Ptr, ghost s: set<Ptr>)
      requires
        && Layers() && e in index.held
        && Sound(s, index.bodies, index.loc.Keys, pages.store, slots, loose, names, hashOf, subhashOf) && e !in s
        && index.loc.Keys <= s
      modifies index`links, index`bodies, index`pfreeElements, index`freeElementCount, index`free, index`held
      ensures
        && Layers() && index.held == old(index.held) - {e}
        && Sound(s, index.bodies, index.loc.Keys, pages.store, slots, loose, names, hashOf, subhashOf)
        && Meaning(index.bodies, pages.store, names) == old(Meaning(index.bodies, pages.store, names))
      ensures SameBodies(old(index.bodies), index.bodies, s)
    {
      ghost var b, live := index.bodies, index.loc.Keys;
      KeptHeld(b, index.links, index.loc, index.free, index.held, index.pfreeElements, areas.used, e);
      index.PutBackElement(e);
      SoundFrame(b, index.bodies, s, live, pages.store, slots, loose, names, hashOf, subhashOf);
    }

    /** Makes the held ELEMENT the owner of the chains gathered for it. */
    method AdoptBody(e: Ptr, body: Body, ghost store: Store, ghost loose0: set<Ptr>)
      requires Layers() && e in index.held && e !in index.loc && e in index.bodies
      requires Owns(index.bodies, index.loc.Keys, pages.store, slots, loose)
      requires Owns(index.bodies, index.loc.Keys, store, slots, loose0)
      requires Keyed(index.bodies, index.loc.Keys, store, names, hashOf, subhashOf)
      requires Gathered(store, loose0, pages.store, loose, Fields(body))
      requires Spread(body) && Measured(body, pages.store) && Filled(pages.store, Fields(body))
      modifies this`slots, this`loose, index`bodies
      ensures Layers() && loose == loose0 && index.bodies == old(index.bodies)[e := body]
      ensures Sound(index.loc.Keys + {e}, index.bodies, index.loc.Keys, pages.store, slots, loose, names, hashOf,
        subhashOf)
      ensures Meaning(index.bodies, pages.store, names) == Meaning(old(index.bodies), store, names)
    {
      ghost var live, b := index.loc.Keys, index.bodies;
      GatheredIs(store, loose0, pages.store, loose, Fields(body));
      OwnsAdopted(b, live, pages.store, slots, loose, e, body);
      index.WriteBody(e, body);
      KeyedExtended(b, index.bodies, live, live, store, pages.store, slots, loose0, names, hashOf, subhashOf);
      slots, loose := slots + SlotsOf(e, body), loose - Fields(body);
      assert loose == loose0;
    }

    /** Frees the chains of a held ELEMENT and puts it back. */
    method FreeElement(e: Ptr, ghost s: set<Ptr>)
      requires
        && Layers() && e in index.held && e !in s && index.loc.Keys <= s
        && Sound(s + {e}, index.bodies, index.loc.Keys, pages.store, slots, loose, names, hashOf, subhashOf)
      modifies this`slots, this`loose, pages
      modifies index`links, index`bodies, index`pfreeElements, index`freeElementCount, index`free, index`held
      ensures
        && Layers() && index.held == old(index.held) - {e}
        && Sound(s, index.bodies, index.loc.Keys, pages.store, slots, loose, names, hashOf, subhashOf)
        && Meaning(index.bodies, pages.store, names) == old(Meaning(index.bodies, pages.store, names))
        && loose == old(loose)
      ensures SameBodies(old(index.bodies), index.bodies, s)
      ensures e in old(index.bodies) && pages.store == old(pages.store) - Fields(old(index.bodies)[e])
    {
      FreeElementPages(e, s);
      LetGoElement(e, s);
    }

    /** The same, and what another of the owners stands for stays. */
    method FreeBeside(e: Ptr, e2: Ptr, ghost s: set<Ptr>)
      requires Layers() && e in index.held && e !in s && e2 in s && index.loc.Keys <= s
      requires Sound(s + {e}, index.bodies, index.loc.Keys, pages.store, slots, loose, names, hashOf, subhashOf)
      modifies this`slots, this`loose, pages
      modifies index`links, index`bodies, index`pfreeElements, index`freeElementCount, index`free, index`held
      ensures Layers() && index.held == old(index.held) - {e} && loose == old(loose)
      ensures Sound(s, index.bodies, index.loc.Keys, pages.store, slots, loose, names, hashOf, subhashOf)
      ensures Meaning(index.bodies, pages.store, names) == old(Meaning(index.bodies, pages.store, names))
      ensures e2 in index.bodies && e2 in old(index.bodies) && index.bodies[e2] == old(index.bodies)[e2]
      ensures EntryOf(index.bodies[e2], pages.store) == EntryOf(old(index.bodies)[e2], old(pages.store))
      ensures Text(pages.store, index.bodies[e2].key) == Text(old(pages.store), old(index.bodies)[e2].key)
    {
      ghost var b := index.bodies;
      EntryKept(b, s + {e}, pages.store, slots, loose, e2, e);
      FreeElement(e, s);
      SameBodiesAt(b, index.bodies, s, e2);
    }

    /** Frees the attrs, subkeys, value and key chains of a held ELEMENT. */
    method FreeElementPages(e: Ptr, ghost s: set<Ptr>)
      requires
        && Layers() && e in index.held && e !in s && index.loc.Keys <= s
        && Sound(s + {e}, index.bodies, index.loc.Keys, pages.store, slots, loose, names, hashOf, subhashOf)
      modifies this`slots, this`loose, pages
      ensures
        && Layers() && Sound(s, index.bodies, index.loc.Keys, pages.store, slots, loose, names, hashOf, subhashOf)
        && Meaning(index.bodies, pages.store, names) == old(Meaning(index.bodies, pages.store, names))
        && loose == old(loose)
      ensures e in index.bodies && pages.store == old(pages.store) - Fields(index.bodies[e])
    {
      ghost var live, b, store, loose0 := index.loc.Keys, index.bodies, pages.store, loose;
      OwnsReleased(b, s + {e}, store, slots, loose, e);
      GatheredReleased(b, s + {e}, store, slots, loose, e);
      KeyedReduced(b, s + {e}, live, store, slots, loose, e, names, hashOf, subhashOf);
      assert s + {e} - {e} == s;
      slots, loose := slots - Fields(b[e]), loose + Fields(b[e]);
      FreeBodyTexts(index.bodies[e], s, store - Fields(b[e]), loose0);
      assert Meaning(index.bodies, pages.store, names) == Meaning(b, store - Fields(b[e]), names);
    }

    method FreeBodyTexts(body: Body, ghost s: set<Ptr>, ghost store: Store, ghost loose0: set<Ptr>)
      requires Layers() && Owns(index.bodies, s, pages.store, slots, loose) && Spread(body)
      requires Gathered(store, loose0, pages.store, loose, Fields(body))
      modifies this`loose, pages
      ensures Layers() && Owns(index.bodies, s, pages.store, slots, loose)
      ensures pages.store == store && loose == loose0
    {
      ghost var ps := Fields(body);
      SpreadDifferent(body);
      FreeText(body.attrs, s, store, loose0, ps);
      ps := ps - {body.attrs};
      FreeText(body.subkeys, s, store, loose0, ps);
      ps := ps - {body.subkeys};
      FreeText(body.value, s, store, loose0, ps);
      ps := ps - {body.value};
      FreeText(body.key, s, store, loose0, ps);
      ps := ps - {body.key};
      assert ps == {};
      GatheredIs(store, loose0, pages.store, loose, ps);
    }

    // ---------------------------------------------------------------- finding a key

    /** The element of a chain whose key page holds the key. */
    method GetElement(head: Ptr, key: Bytes, ghost chain: seq<Ptr>) returns (e: Ptr)
      requires Valid() && key != []
      requires forall p :: p in chain <==> index.Live(p, hashOf(key), subhashOf(key))
      requires
        if head == NULL then chain == []
        else SameLinked(index.links, chain) && NULL !in chain && head == chain[0]
      ensures e == (if key in names then names[key] else NULL) && (e == NULL <==> key !in names)
    {
      e := head;
      ghost var i := 0;
      if key in names {
        KeyedOf(index.bodies, index.loc.Keys, pages.store, names, hashOf, subhashOf, key);
      }
      assert key in names ==> names[key] in chain;
      while e != NULL
        invariant i <= |chain| && e == if i < |chain| then chain[i] else NULL
        invariant key in names ==> names[key] !in chain[..i]
        decreases |chain| - i
      {
        assert e in chain;
        KeyedAt(index.bodies, index.loc.Keys, pages.store, names, hashOf, subhashOf, e);
        var data := pages.LoadData(index.bodies[e].key);
        if data == key {
          return;
        }
        SameAt(index.links, chain, i);
        e := index.links[e].same;
        i := i + 1;
      }
      assert chain[..i] == chain;
    }

    /** The CKINDEX of a key, after a merging lookup, and the key's ELEMENT or null. */
    method Lookup(key: Bytes) returns (cp: CKPtr, e: Ptr)
      requires Valid() && key != []
      modifies index`links, index`ck, index`assign, index`trees, index`loc
      ensures
        && Valid() && Meaning(index.bodies, pages.store, names) == old(Meaning(index.bodies, pages.store, names))
        && index.loc.Keys == old(index.loc.Keys)
      ensures cp == HomePtr(index.assign, index.maskBits, index.collisionBits, hashOf(key)) && cp in index.ck
      ensures Finer(old(index.assign), index.maskBits, index.assign, index.maskBits, index.collisionBits)
      ensures e == (if key in names then names[key] else NULL) && (e == NULL <==> key !in names)
    {
      cp := LocateCKIndex(key, index.loc.Keys);
      var list;
      ghost var chain;
      list, chain := index.GetElementListOf(cp, hashOf(key), subhashOf(key));
      e := GetElement(list, key, chain);
    }

    /** The CKINDEX of a key, after the slots of its hash are brought into use. */
    method LocateCKIndex(key: Bytes, ghost s: set<Ptr>) returns (cp: CKPtr)
      requires Layers() && Sound(s, index.bodies, index.loc.Keys, pages.store, slots, loose, names, hashOf, subhashOf)
      modifies index`links, index`ck, index`assign, index`trees, index`loc
      ensures
        && Layers() && Sound(s, index.bodies, index.loc.Keys, pages.store, slots, loose, names, hashOf, subhashOf)
        && Meaning(index.bodies, pages.store, names) == old(Meaning(index.bodies, pages.store, names))
        && index.loc.Keys == old(index.loc.Keys)
      ensures cp == HomePtr(index.assign, index.maskBits, index.collisionBits, hashOf(key)) && cp in index.ck
      ensures Finer(old(index.assign), index.maskBits, index.assign, index.maskBits, index.collisionBits)
    {
      ghost var h, loc := index.links, index.loc;
      cp := index.GetCKIndex(hashOf(key), true);
      KeptBeside(index.bodies, h, index.links, loc, index.loc, index.free, index.held, index.pfreeElements, areas.used);
      RearrangedKeys(h, index.links, loc, index.loc);
    }

    /** The value of a key; a key without value answers like an absent one. */
    method Get(key: Bytes) returns (found: bool, value: Bytes)
      requires Valid()
      modifies index`links, index`ck, index`assign, index`trees, index`loc
      ensures Valid() && Abs() == old(Abs())
      ensures Finer(old(index.assign), index.maskBits, index.assign, index.maskBits, index.collisionBits)
      ensures found <==> key in Abs() && Abs()[key].value != []
      ensures found ==> value == Abs()[key].value
    {
      found, value := false, [];
      FinerSame(index.assign, index.maskBits, index.collisionBits);
      if key == [] {
        NoEmptyKey(index.bodies, index.loc.Keys, pages.store, names, hashOf, subhashOf);
        return;
      }
      var cp, e := Lookup(key);
      if e != NULL {
        KeyedOf(index.bodies, index.loc.Keys, pages.store, names, hashOf, subhashOf, key);
        OwnsField(index.bodies, index.loc.Keys, pages.store, slots, loose, e, VALUE);
        assert FieldOf(index.bodies[e], VALUE) == index.bodies[e].value;
        if index.bodies[e].value != NULL {
          value := pages.LoadData(index.bodies[e].value);
          found := true;
        }
        assert Meaning(index.bodies, pages.store, names)[key].value == Text(pages.store, index.bodies[e].value);
      }
    }

    /** The bytes of the subkey list of a key. */
    method LoadSubkeys(e: Ptr, ghost key: Bytes) returns (bytes: Bytes)
      requires Valid() && key in names && e == names[key]
      ensures key in Abs() && bytes == Abs()[key].subkeys
    {
      KeyedOf(index.bodies, index.loc.Keys, pages.store, names, hashOf, subhashOf, key);
      OwnsField(index.bodies, index.loc.Keys, pages.store, slots, loose, e, SUBKEYS);
      assert FieldOf(index.bodies[e], SUBKEYS) == index.bodies[e].subkeys;
      bytes := [];
      if index.bodies[e].subkeys != NULL {
        bytes := pages.LoadData(index.bodies[e].subkeys);
      }
    }

    // ---------------------------------------------------------------- removing

    /** The ELEMENT is not the head of a chain that has both followers and subtrees. */
    predicate StrandsNothing(e: Ptr)
      reads index
    {
      e in index.links ==> !Stranding(index.links[e])
    }

    /** A key without twin is alone in its chain. */
    lemma TwinlessStrandsNothing(key: Bytes)
      requires
        && Layers() && Keyed(index.bodies, index.loc.Keys, pages.store, names, hashOf, subhashOf)
        && Twinless(Meaning(index.bodies, pages.store, names), key, hashOf, subhashOf) && key in names
      ensures StrandsNothing(names[key])
    {
      KeyedOf(index.bodies, index.loc.Keys, pages.store, names, hashOf, subhashOf, key);
      KeptLive(index.bodies, index.links, index.loc, index.free, index.held, index.pfreeElements, areas.used,
        names[key]);
      TwinlessElement(index.bodies, index.loc.Keys, pages.store, names, hashOf, subhashOf, key);
      AloneStrandsNothing(index.bodies, index.links, index.ck, index.assign, index.maskBits, index.collisionBits,
        index.trees, index.loc, names[key]);
    }

    /** Removes the key if it has an ELEMENT. */
    method DropKey(key: Bytes, cp: CKPtr, e: Ptr)
      requires
        && Valid() && Twinless(Meaning(index.bodies, pages.store, names), key, hashOf, subhashOf)
        && cp == HomePtr(index.assign, index.maskBits, index.collisionBits, hashOf(key))
      requires e == (if key in names then names[key] else NULL) && (e == NULL <==> key !in names)
      modifies this`slots, this`loose, this`names, pages
      modifies index`links, index`bodies, index`ck, index`trees, index`loc, index`pfreeElements, index`freeElementCount
      modifies index`free, index`held
      ensures
        && Valid()
        && Meaning(index.bodies, pages.store, names) == old(Meaning(index.bodies, pages.store, names)) - {key}
        && loose == old(loose)
    {
      if e != NULL {
        TwinlessStrandsNothing(key);
        RemoveFound(key, cp, e);
      } else {
        NamesAre();
        RemovedAbsent(Meaning(index.bodies, pages.store, names), key);
      }
    }

    /** Removes one key, without its subkeys; an absent key is no failure. */
    method RemoveKey(key: Bytes)
      requires Valid() && key != [] && Twinless(Meaning(index.bodies, pages.store, names), key, hashOf, subhashOf)
      modifies this`slots, this`loose, this`names, pages
      modifies index`links, index`bodies, index`ck, index`assign, index`trees, index`loc, index`pfreeElements
      modifies index`freeElementCount, index`free, index`held
      ensures
        && Valid()
        && Meaning(index.bodies, pages.store, names) == old(Meaning(index.bodies, pages.store, names)) - {key}
        && loose == old(loose)
      ensures Finer(old(index.assign), index.maskBits, index.assign, index.maskBits, index.collisionBits)
    {
      var cp, e := Lookup(key);
      DropKey(key, cp, e);
    }

    /**
     Removes the key whose ELEMENT a lookup has found.  It may have twins in its chain as long as it is not the
     head of the chain with subtrees below it.
     */
    method RemoveFound(key: Bytes, cp: CKPtr, e: Ptr)
      requires Valid() && StrandsNothing(e)
      requires
        && key in names && e == names[key]
        && cp == HomePtr(index.assign, index.maskBits, index.collisionBits, hashOf(key))
      modifies this`slots, this`loose, this`names, pages
      modifies index`links, index`bodies, index`ck, index`trees, index`loc, index`pfreeElements, index`freeElementCount
      modifies index`free, index`held
      ensures
        && Valid()
        && Meaning(index.bodies, pages.store, names) == old(Meaning(index.bodies, pages.store, names)) - {key}
        && loose == old(loose)
    {
      TakeKey(key, cp, e);
      ghost var abs := Meaning(index.bodies, pages.store, names);
      FreeElement(e, index.loc.Keys);
      assert Meaning(index.bodies, pages.store, names) == abs;
      assert index.held == {};
    }

    /** Takes the ELEMENT of a key out of the index; it is held then. */
    method TakeKey(key: Bytes, cp: CKPtr, e: Ptr)
      requires
        && Layers()
        && Sound(index.loc.Keys, index.bodies, index.loc.Keys, pages.store, slots, loose, names, hashOf, subhashOf)
        && StrandsNothing(e)
      requires
        && key in names && e == names[key]
        && cp == HomePtr(index.assign, index.maskBits, index.collisionBits, hashOf(key))
      modifies this`names, index`links, index`ck, index`trees, index`loc, index`held
      ensures
        && Layers()
        && Sound(index.loc.Keys + {e}, index.bodies, index.loc.Keys, pages.store, slots, loose, names, hashOf,
             subhashOf)
      ensures index.held == old(index.held) + {e} && e !in index.loc && e !in old(index.held)
      ensures
        && Meaning(index.bodies, pages.store, names) == old(Meaning(index.bodies, pages.store, names)) - {key}
        && names == old(names) - {key}
    {
      ghost var live := index.loc.Keys;
      TakeKeyBeside(key, cp, e, live);
      TakenAndBack(live, e);
    }

    /** The same while the ELEMENTs s, among them all live ones, own chains. */
    method TakeKeyBeside(key: Bytes, cp: CKPtr, e: Ptr, ghost s: set<Ptr>)
      requires
        && Layers() && Sound(s, index.bodies, index.loc.Keys, pages.store, slots, loose, names, hashOf, subhashOf)
        && index.loc.Keys <= s && StrandsNothing(e)
      requires
        && key in names && e == names[key]
        && cp == HomePtr(index.assign, index.maskBits, index.collisionBits, hashOf(key))
      modifies this`names, index`links, index`ck, index`trees, index`loc, index`held
      ensures
        && Layers() && Sound(s, index.bodies, index.loc.Keys, pages.store, slots, loose, names, hashOf, subhashOf)
        && e in old(index.loc) && index.loc.Keys == old(index.loc.Keys) - {e}
      ensures index.held == old(index.held) + {e} && e !in old(index.held)
      ensures
        && Meaning(index.bodies, pages.store, names) == old(Meaning(index.bodies, pages.store, names)) - {key}
        && names == old(names) - {key}
    {
      ghost var b, live := index.bodies, index.loc.Keys;
      KeyedOf(b, live, pages.store, names, hashOf, subhashOf, key);
      KeptLive(b, index.links, index.loc, index.free, index.held, index.pfreeElements, areas.used, e);
      AtHomeAt(b, index.links, index.ck, index.assign, index.maskBits, index.collisionBits, index.trees, index.loc, e);
      KeyedRemoved(b, live, pages.store, names, hashOf, subhashOf, key);
      index.UnhangElement(cp, e);
      names := names - {key};
      assert index.loc.Keys == live - {e};
    }

    // ---------------------------------------------------------------- setting

    /** Puts a held ELEMENT that owns its chains below the CKINDEX of its key. */
    method PutKey(key: Bytes, cp: CKPtr, e: Ptr)
      requires
        && Layers() && index.held == {e} && e !in index.loc
        && Sound(index.loc.Keys + {e}, index.bodies, index.loc.Keys, pages.store, slots, loose, names, hashOf,
             subhashOf)
      requires e in index.bodies && key != [] && key !in names && Text(pages.store, index.bodies[e].key) == key
      requires index.bodies[e].hash == hashOf(key) && index.bodies[e].subhash == subhashOf(key)
      requires
        && cp == HomePtr(index.assign, index.maskBits, index.collisionBits, hashOf(key)) && cp in index.ck
        && FitsIn(Meaning(index.bodies, pages.store, names), index.assign, index.maskBits, index.collisionBits, key,
             hashOf, subhashOf)
      modifies this`names, index`links, index`ck, index`trees, index`loc, index`held
      ensures
        && Valid()
        && Meaning(index.bodies, pages.store, names) ==
             old(Meaning(index.bodies, pages.store, names))[key := EntryOf(index.bodies[e], pages.store)]
      ensures cp in index.ck && names == old(names)[key := e]
    {
      ghost var b, live := index.bodies, index.loc.Keys;
      FitsJoinable(e, cp, key);
      KeyedAdded(b, live, pages.store, names, hashOf, subhashOf, e);
      ghost var names' := names[key := e];
      index.HangElement(cp, e);
      assert index.loc.Keys == live + {e};
      names := names';
    }

    lemma FitsJoinable(e: Ptr, cp: CKPtr, key: Bytes)
      requires
        && Layers() && Keyed(index.bodies, index.loc.Keys, pages.store, names, hashOf, subhashOf)
        && FitsIn(Meaning(index.bodies, pages.store, names), index.assign, index.maskBits, index.collisionBits, key,
             hashOf, subhashOf)
        && key !in names
      requires e in index.bodies && index.bodies[e].hash == hashOf(key) && index.bodies[e].subhash == subhashOf(key)
      requires cp == HomePtr(index.assign, index.maskBits, index.collisionBits, hashOf(key))
      ensures Joinable(index.bodies, index.loc, cp, e)
    {
      forall p |
        && p in index.loc && index.loc[p] == cp && p in index.bodies
        && index.bodies[p].subhash == index.bodies[e].subhash
        ensures index.bodies[p].hash == index.bodies[e].hash
      {
        KeyedAt(index.bodies, index.loc.Keys, pages.store, names, hashOf, subhashOf, p);
        AtHomeAt(index.bodies, index.links, index.ck, index.assign, index.maskBits, index.collisionBits, index.trees,
          index.loc, p);
        var k := pages.store[index.bodies[p].key];
        FitsInAt(Meaning(index.bodies, pages.store, names), index.assign, index.maskBits, index.collisionBits, key,
          hashOf, subhashOf, k);
      }
    }

    /** Widens the mask after an insertion when a CKINDEX has grown too far. */
    method ExpandIfNeeded(cp: CKPtr) returns (ok: bool)
      requires Valid() && cp in index.ck
      modifies index`ck, index`assign, index`maskBits, index`trees, areas, areas.table
      ensures Valid() && Meaning(index.bodies, pages.store, names) == old(Meaning(index.bodies, pages.store, names))
      ensures Finer(old(index.assign), old(index.maskBits), index.assign, index.maskBits, index.collisionBits)
      ensures
        && index.maskBits <= old(index.maskBits) + 1 && areas.count <= old(areas.count) + 2
        && (old(areas.count) + 2 <= MAX_K2HAREA_COUNT ==> ok) && (!ok ==> MAX_K2HAREA_COUNT <= areas.count + 1)
    {
      ghost var end := areas.used;
      ghost var ka, n := index.assign, index.maskBits;
      ok := index.CheckExpandingKeyArea(cp);
      FinerUnmoved(ka, n, index.assign, index.maskBits, index.collisionBits);
      PageStore.PagedWider(pages.heads, pages.buffers, pages.free, pages.chains, pages.owner, pages.pfreePages,
        pages.capacity, end, areas.used);
      PageStore.WholeWider(pages.buffers, end, areas.used, PageStore.PageSize(pages.capacity));
    }

    /** Puts a held ELEMENT below the CKINDEX of its key and widens the mask when that has grown too far. */
    method PutAndExpand(key: Bytes, cp: CKPtr, e: Ptr) returns (ok: bool)
      requires
        && Layers() && index.held == {e} && e !in index.loc
        && Sound(index.loc.Keys + {e}, index.bodies, index.loc.Keys, pages.store, slots, loose, names, hashOf,
             subhashOf)
      requires e in index.bodies && key != [] && key !in names && Text(pages.store, index.bodies[e].key) == key
      requires index.bodies[e].hash == hashOf(key) && index.bodies[e].subhash == subhashOf(key)
      requires
        && cp == HomePtr(index.assign, index.maskBits, index.collisionBits, hashOf(key)) && cp in index.ck
        && FitsIn(Meaning(index.bodies, pages.store, names), index.assign, index.maskBits, index.collisionBits, key,
             hashOf, subhashOf)
      modifies this`names, index`links, index`ck, index`assign, index`maskBits, index`trees, index`loc, index`held
      modifies areas
      modifies areas.table
      ensures Valid() && names == old(names)[key := e]
      ensures Meaning(index.bodies, pages.store, names) ==
        old(Meaning(index.bodies, pages.store, names))[key := EntryOf(index.bodies[e], pages.store)]
      ensures Finer(old(index.assign), old(index.maskBits), index.assign, index.maskBits, index.collisionBits)
      ensures
        && index.maskBits <= old(index.maskBits) + 1 && areas.count <= old(areas.count) + 2
        && (old(areas.count) + 2 <= MAX_K2HAREA_COUNT ==> ok) && (!ok ==> MAX_K2HAREA_COUNT <= areas.count + 1)
    {
      PutKey(key, cp, e);
      ok := ExpandIfNeeded(cp);
    }

    /**
     Stores value, subkeys and attributes under a key, replacing what was there.  On failure the key
     is absent, or present as asked when only the widening of the mask failed.  It does not fail while the areas
     array has room for what it may add: every byte stored needs less than an area, the ELEMENT one, and the
     wider mask two.
     */
    method Set(key: Bytes, value: Bytes, subkeys: Bytes, attrs: Bytes) returns (ok: bool)
      requires
        && Valid() && Twinless(Abs(), key, hashOf, subhashOf)
        && FitsIn(Abs(), index.assign, index.maskBits, index.collisionBits, key, hashOf, subhashOf)
      modifies this`slots, this`loose, this`names, index, pages, areas, areas.table
      ensures Valid() && loose == old(loose)
      ensures key == [] ==> !ok && Abs() == old(Abs())
      ensures key != [] && ok ==> Abs() == old(Abs())[key := Entry(value, subkeys, attrs)]
      ensures key != [] && !ok ==>
        Abs() == old(Abs()) - {key} || Abs() == old(Abs())[key := Entry(value, subkeys, attrs)]
      ensures
        var most := old(areas.count) + |key| + |value| + |subkeys| + |attrs| + 3;
        areas.count <= most && (key != [] && most <= MAX_K2HAREA_COUNT ==> ok)
      ensures key != [] && !ok ==> MAX_K2HAREA_COUNT <= areas.count + 1
      ensures index.maskBits <= old(index.maskBits) + 1
      ensures Finer(old(index.assign), old(index.maskBits), index.assign, index.maskBits, index.collisionBits)
    {
      FinerSame(index.assign, index.maskBits, index.collisionBits);
      if key == [] {
        return false;
      }
      ghost var ka, n := index.assign, index.maskBits;
      RemovedThenPut(Meaning(index.bodies, pages.store, names), key, Entry(value, subkeys, attrs));
      var cp := ClearKey(key);
      ghost var ka1, n1 := index.assign, index.maskBits;
      ok := NewKey(key, cp, value, subkeys, attrs);
      FinerTwice(ka, n, ka1, n1, index.assign, index.maskBits, index.collisionBits);
    }

    /** Makes a new ELEMENT for an absent key. */
    method NewKey(key: Bytes, cp: CKPtr, value: Bytes, subkeys: Bytes, attrs: Bytes) returns (ok: bool)
      requires
        && Valid() && key != [] && key !in names
        && FitsIn(Meaning(index.bodies, pages.store, names), index.assign, index.maskBits, index.collisionBits, key,
             hashOf, subhashOf)
      requires cp == HomePtr(index.assign, index.maskBits, index.collisionBits, hashOf(key)) && cp in index.ck
      modifies this`slots, this`loose, this`names, index, pages, areas, areas.table
      ensures Valid() && loose == old(loose)
      ensures ok ==>
        Meaning(index.bodies, pages.store, names) ==
          old(Meaning(index.bodies, pages.store, names))[key := Entry(value, subkeys, attrs)]
      ensures !ok ==>
        || Meaning(index.bodies, pages.store, names) == old(Meaning(index.bodies, pages.store, names))
        || Meaning(index.bodies, pages.store, names) ==
             old(Meaning(index.bodies, pages.store, names))[key := Entry(value, subkeys, attrs)]
      ensures
        var most := old(areas.count) + |key| + |value| + |subkeys| + |attrs| + 3;
        areas.count <= most && (most <= MAX_K2HAREA_COUNT ==> ok)
      ensures !ok ==> MAX_K2HAREA_COUNT <= areas.count + 1
      ensures index.maskBits <= old(index.maskBits) + 1
      ensures Finer(old(index.assign), old(index.maskBits), index.assign, index.maskBits, index.collisionBits)
    {
      FinerSame(index.assign, index.maskBits, index.collisionBits);
      var e := AllocateElement(hashOf(key), subhashOf(key), key, value, subkeys, attrs);
      if e == NULL {
        return false;
      }
      assert unchanged(this`names);
      ok := PutAndExpand(key, cp, e);
    }

    /** Removes a key and finds the CKINDEX where it is to be put again. */
    method ClearKey(key: Bytes) returns (cp: CKPtr)
      requires
        && Valid() && key != [] && Twinless(Meaning(index.bodies, pages.store, names), key, hashOf, subhashOf)
        && FitsIn(Meaning(index.bodies, pages.store, names), index.assign, index.maskBits, index.collisionBits, key,
             hashOf, subhashOf)
      modifies this`slots, this`loose, this`names, pages
      modifies index`links, index`bodies, index`ck, index`assign, index`trees, index`loc, index`pfreeElements
      modifies index`freeElementCount, index`free, index`held
      ensures
        && Valid()
        && Meaning(index.bodies, pages.store, names) == old(Meaning(index.bodies, pages.store, names)) - {key}
        && loose == old(loose)
      ensures
        && key !in names
        && FitsIn(Meaning(index.bodies, pages.store, names), index.assign, index.maskBits, index.collisionBits, key,
             hashOf, subhashOf)
      ensures cp == HomePtr(index.assign, index.maskBits, index.collisionBits, hashOf(key)) && cp in index.ck
      ensures Finer(old(index.assign), index.maskBits, index.assign, index.maskBits, index.collisionBits)
    {
      ghost var abs, ka := Meaning(index.bodies, pages.store, names), index.assign;
      RemoveKey(key);
      ghost var ka1 := index.assign;
      NamesAre();
      var e;
      cp, e := Lookup(key);
      FinerTwice(ka, index.maskBits, ka1, index.maskBits, index.assign, index.maskBits, index.collisionBits);
      FitsInLater(abs, Meaning(index.bodies, pages.store, names), ka, index.maskBits, index.assign, index.maskBits,
        index.collisionBits, key, hashOf, subhashOf);
    }

    lemma NamesAre()
      requires Layers() && Keyed(index.bodies, index.loc.Keys, pages.store, names, hashOf, subhashOf)
      ensures names.Keys == Meaning(index.bodies, pages.store, names).Keys
    {
      forall k | k in names
        ensures k in Meaning(index.bodies, pages.store, names)
      {
        KeyedOf(index.bodies, index.loc.Keys, pages.store, names, hashOf, subhashOf, k);
      }
    }

    /** The ELEMENT of a key, null for an absent one, by a merging lookup. */
    method Find(key: Bytes, ghost keys: set<Bytes>) returns (e: Ptr)
      requires Valid() && Admits(keys) && key != []
      modifies index`links, index`ck, index`assign, index`trees, index`loc
      ensures
        && Valid() && Admits(keys)
        && Meaning(index.bodies, pages.store, names) == old(Meaning(index.bodies, pages.store, names))
      ensures (e == NULL <==> key !in Meaning(index.bodies, pages.store, names)) && (e == NULL <==> key !in names)
      ensures e == if key in names then names[key] else NULL
    {
      ghost var ka := index.assign;
      NamesAre();
      var cp;
      cp, e := Lookup(key);
      ApartLater(keys, ka, index.maskBits, index.assign, index.maskBits, index.collisionBits, hashOf, subhashOf);
    }

    // ---------------------------------------------------------------- merging

    /** A merging lookup of a key that fits, after which it still fits. */
    method LookupFitting(key: Bytes) returns (cp: CKPtr, e: Ptr)
      requires
        && Valid() && key != [] && Twinless(Meaning(index.bodies, pages.store, names), key, hashOf, subhashOf)
        && FitsIn(Meaning(index.bodies, pages.store, names), index.assign, index.maskBits, index.collisionBits, key,
             hashOf, subhashOf)
      modifies index`links, index`ck, index`assign, index`trees, index`loc
      ensures Valid() && Meaning(index.bodies, pages.store, names) == old(Meaning(index.bodies, pages.store, names))
      ensures FoundFitting(Meaning(index.bodies, pages.store, names), names, key, cp, e, index.assign, index.maskBits,
          index.collisionBits, index.ck, hashOf, subhashOf)
      ensures Finer(old(index.assign), index.maskBits, index.assign, index.maskBits, index.collisionBits)
    {
      ghost var abs, ka := Meaning(index.bodies, pages.store, names), index.assign;
      cp, e := Lookup(key);
      FitsInLater(abs, abs, ka, index.maskBits, index.assign, index.maskBits, index.collisionBits, key, hashOf,
        subhashOf);
    }

    /** The bytes of the attributes of a key. */
    method LoadAttrs(e: Ptr, ghost key: Bytes) returns (bytes: Bytes)
      requires Valid() && key in names && e == names[key]
      ensures key in Abs() && bytes == Abs()[key].attrs
    {
      KeyedOf(index.bodies, index.loc.Keys, pages.store, names, hashOf, subhashOf, key);
      OwnsField(index.bodies, index.loc.Keys, pages.store, slots, loose, e, ATTRS);
      assert FieldOf(index.bodies[e], ATTRS) == index.bodies[e].attrs;
      bytes := [];
      if index.bodies[e].attrs != NULL {
        bytes := pages.LoadData(index.bodies[e].attrs);
      }
    }

    /**
     Puts new data under a key in the place of the ELEMENT e, if there is one; a key without data is only
     removed.  The new ELEMENT is made before the old one goes, so without room nothing is lost.
     */
    method Overwrite(key: Bytes, cp: CKPtr, e: Ptr, value: Bytes, subkeys: Bytes, attrs: Bytes) returns (ok: bool)
      requires Valid() && key != []
      requires FoundFitting(Meaning(index.bodies, pages.store, names), names, key, cp, e, index.assign, index.maskBits,
          index.collisionBits, index.ck, hashOf, subhashOf)
      modifies this`slots, this`loose, this`names, pages, areas, areas.table
      modifies index`links, index`bodies, index`ck, index`trees, index`loc
      modifies index`pfreeElements, index`freeElementCount, index`free, index`held
      ensures Valid() && loose == old(loose)
      ensures ok ==>
        Meaning(index.bodies, pages.store, names) ==
          if value == [] && subkeys == [] && attrs == [] then old(Meaning(index.bodies, pages.store, names)) - {key}
          else old(Meaning(index.bodies, pages.store, names))[key := Entry(value, subkeys, attrs)]
      ensures !ok ==>
        && Meaning(index.bodies, pages.store, names) == old(Meaning(index.bodies, pages.store, names))
        && areas.count == MAX_K2HAREA_COUNT
    {
      assert Look(LOCATED, 0);
      if value == [] && subkeys == [] && attrs == [] {
        DropKey(key, cp, e);
        return true;
      }
      ok := Supplant(key, cp, e, value, subkeys, attrs);
    }

    /** Makes a new ELEMENT for the key, then takes the old one away, if there is one. */
    method Supplant(key: Bytes, cp: CKPtr, e: Ptr, value: Bytes, subkeys: Bytes, attrs: Bytes) returns (ok: bool)
      requires
        && Valid() && key != [] && Twinless(Meaning(index.bodies, pages.store, names), key, hashOf, subhashOf)
        && FitsIn(Meaning(index.bodies, pages.store, names), index.assign, index.maskBits, index.collisionBits, key,
             hashOf, subhashOf)
      requires cp == HomePtr(index.assign, index.maskBits, index.collisionBits, hashOf(key)) && cp in index.ck
      requires e == (if key in names then names[key] else NULL) && (e == NULL <==> key !in names)
      modifies this`slots, this`loose, this`names, pages, areas, areas.table
      modifies index`links, index`bodies, index`ck, index`trees, index`loc
      modifies index`pfreeElements, index`freeElementCount, index`free, index`held
      ensures Valid() && loose == old(loose)
      ensures Meaning(index.bodies, pages.store, names) ==
        if ok then old(Meaning(index.bodies, pages.store, names))[key := Entry(value, subkeys, attrs)]
        else old(Meaning(index.bodies, pages.store, names))
      ensures !ok ==> areas.count == MAX_K2HAREA_COUNT
    {
      ghost var abs := Meaning(index.bodies, pages.store, names);
      var e2 := AllocateElement(hashOf(key), subhashOf(key), key, value, subkeys, attrs);
      if e2 == NULL {
        return false;
      }
      RemovedThenPut(abs, key, Entry(value, subkeys, attrs));
      assert unchanged(this`names) && unchanged(index`loc) && unchanged(index`assign);
      PutInstead(key, cp, e, e2);
      ok := true;
    }

    /** Puts the held ELEMENT e2 in the place of the ELEMENT that the key has, if it has one. */
    method PutInstead(key: Bytes, cp: CKPtr, e: Ptr, e2: Ptr)
      requires Layers() && index.held == {e2} && e2 !in index.loc && e2 in index.bodies
      requires Sound(index.loc.Keys + {e2}, index.bodies, index.loc.Keys, pages.store, slots, loose, names, hashOf,
          subhashOf)
      requires Twinless(Meaning(index.bodies, pages.store, names), key, hashOf, subhashOf)
      requires FitsIn(Meaning(index.bodies, pages.store, names), index.assign, index.maskBits, index.collisionBits, key,
          hashOf, subhashOf)
      requires cp == HomePtr(index.assign, index.maskBits, index.collisionBits, hashOf(key)) && cp in index.ck
      requires e == (if key in names then names[key] else NULL) && (e == NULL <==> key !in names)
      requires key != [] && Text(pages.store, index.bodies[e2].key) == key
      requires index.bodies[e2].hash == hashOf(key) && index.bodies[e2].subhash == subhashOf(key)
      modifies this`slots, this`loose, this`names, pages
      modifies index`links, index`bodies, index`ck, index`trees, index`loc, index`pfreeElements, index`freeElementCount
      modifies index`free, index`held
      ensures Valid() && loose == old(loose)
      ensures
        var entry := EntryOf(old(index.bodies)[e2], old(pages.store));
        Meaning(index.bodies, pages.store, names) ==
          (old(Meaning(index.bodies, pages.store, names)) - {key})[key := entry]
    {
      ClearBeside(key, cp, e, e2);
      PutKey(key, cp, e2);
    }

    /** Removes the key if it has an ELEMENT, while e2 is held. */
    method ClearBeside(key: Bytes, cp: CKPtr, e: Ptr, e2: Ptr)
      requires
        && Layers() && index.held == {e2} && e2 !in index.loc && e2 in index.bodies
        && Sound(index.loc.Keys + {e2}, index.bodies, index.loc.Keys, pages.store, slots, loose, names, hashOf,
             subhashOf)
        && Twinless(Meaning(index.bodies, pages.store, names), key, hashOf, subhashOf)
        && FitsIn(Meaning(index.bodies, pages.store, names), index.assign, index.maskBits, index.collisionBits, key,
             hashOf, subhashOf)
      requires cp == HomePtr(index.assign, index.maskBits, index.collisionBits, hashOf(key)) && cp in index.ck
      requires e == (if key in names then names[key] else NULL) && (e == NULL <==> key !in names)
      modifies this`slots, this`loose, this`names, pages
      modifies index`links, index`bodies, index`ck, index`trees, index`loc, index`pfreeElements, index`freeElementCount
      modifies index`free, index`held
      ensures
        && Layers() && index.held == {e2} && e2 !in index.loc && e2 in index.bodies
        && Sound(index.loc.Keys + {e2}, index.bodies, index.loc.Keys, pages.store, slots, loose, names, hashOf,
             subhashOf)
        && FitsIn(Meaning(index.bodies, pages.store, names), index.assign, index.maskBits, index.collisionBits, key,
             hashOf, subhashOf)
      ensures cp in index.ck && key !in names && loose == old(loose)
      ensures Meaning(index.bodies, pages.store, names) == old(Meaning(index.bodies, pages.store, names)) - {key}
      ensures index.bodies[e2] == old(index.bodies)[e2]
      ensures EntryOf(index.bodies[e2], pages.store) == EntryOf(old(index.bodies)[e2], old(pages.store))
      ensures Text(pages.store, index.bodies[e2].key) == Text(old(pages.store), old(index.bodies)[e2].key)
    {
      NamesAre();
      if e != NULL {
        TwinlessStrandsNothing(key);
        RemoveBeside(key, cp, e, e2);
      } else {
        RemovedAbsent(Meaning(index.bodies, pages.store, names), key);
      }
    }

    /** Removes a key while the ELEMENT e2, which is to follow it, is held. */
    method RemoveBeside(key: Bytes, cp: CKPtr, e: Ptr, e2: Ptr)
      requires
        && Layers() && index.held == {e2} && e2 !in index.loc && e2 in index.bodies
        && Sound(index.loc.Keys + {e2}, index.bodies, index.loc.Keys, pages.store, slots, loose, names, hashOf,
             subhashOf)
        && StrandsNothing(e)
        && FitsIn(Meaning(index.bodies, pages.store, names), index.assign, index.maskBits, index.collisionBits, key,
             hashOf, subhashOf)
      requires
        && key in names && e == names[key]
        && cp == HomePtr(index.assign, index.maskBits, index.collisionBits, hashOf(key))
        && cp in index.ck
      modifies this`slots, this`loose, this`names, pages
      modifies index`links, index`bodies, index`ck, index`trees, index`loc, index`pfreeElements, index`freeElementCount
      modifies index`free, index`held
      ensures
        && Layers() && index.held == {e2} && e2 !in index.loc && e2 in index.bodies
        && Sound(index.loc.Keys + {e2}, index.bodies, index.loc.Keys, pages.store, slots, loose, names, hashOf,
             subhashOf)
        && FitsIn(Meaning(index.bodies, pages.store, names), index.assign, index.maskBits, index.collisionBits, key,
             hashOf, subhashOf)
      ensures cp in index.ck && key !in names && loose == old(loose)
      ensures Meaning(index.bodies, pages.store, names) == old(Meaning(index.bodies, pages.store, names)) - {key}
      ensures index.bodies[e2] == old(index.bodies)[e2]
      ensures EntryOf(index.bodies[e2], pages.store) == EntryOf(old(index.bodies)[e2], old(pages.store))
      ensures Text(pages.store, index.bodies[e2].key) == Text(old(pages.store), old(index.bodies)[e2].key)
    {
      ghost var live, s, abs := index.loc.Keys, index.loc.Keys + {e2}, Meaning(index.bodies, pages.store, names);
      KeyedOf(index.bodies, live, pages.store, names, hashOf, subhashOf, key);
      TakeKeyBeside(key, cp, e, s);
      TakenAndBack(s, e);
      TakenFromBoth(live, e, e2);
      FreeBeside(e, e2, s - {e});
      FitsInLater(abs, Meaning(index.bodies, pages.store, names), index.assign, index.maskBits, index.assign,
        index.maskBits, index.collisionBits, key, hashOf, subhashOf);
      HomePtrIn(key);
    }

    lemma HomePtrIn(key: Bytes)
      requires Layers()
      ensures HomePtr(index.assign, index.maskBits, index.collisionBits, hashOf(key)) in index.ck
    {
      IndexedIs(index.bodies, index.links, index.ck, index.assign, index.maskBits, index.collisionBits, index.trees,
        index.loc);
      HomePtrAllocated(index.assign, index.maskBits, index.collisionBits, hashOf(key), index.ck);
    }

    // ---------------------------------------------------------------- replacing

    /** Puts a new chain for the bytes in the place of the value, subkeys or attributes of a live ELEMENT. */
    method ReplacePage(e: Ptr, bytes: Bytes, t: PageType, ghost key: Bytes) returns (ok: bool)
      requires Valid() && t != KEY && key in names && names[key] == e
      modifies this`slots, this`loose, index`bodies, pages, areas, areas.table
      ensures Valid() && loose == old(loose) && names == old(names)
      ensures key in old(Meaning(index.bodies, pages.store, names))
      ensures ok ==>
        var m := old(Meaning(index.bodies, pages.store, names));
        Meaning(index.bodies, pages.store, names) == m[key := WithPart(m[key], t, bytes)]
      ensures !ok ==>
        && Meaning(index.bodies, pages.store, names) == old(Meaning(index.bodies, pages.store, names))
        && areas.count == MAX_K2HAREA_COUNT
    {
      ghost var store0, loose0 := pages.store, loose;
      KeyedOf(index.bodies, index.loc.Keys, store0, names, hashOf, subhashOf, key);
      var p;
      ok, p := ReserveOneText(bytes);
      if ok {
        InstallPage(e, bytes, t, p, store0, loose0, key);
      }
    }

    /** A new chain for the bytes, the only one gathered. */
    method ReserveOneText(bytes: Bytes) returns (ok: bool, p: Ptr)
      requires Layers() && Owns(index.bodies, index.loc.Keys, pages.store, slots, loose)
      modifies this`loose, pages, areas, areas.table
      ensures Layers() && Owns(index.bodies, index.loc.Keys, pages.store, slots, loose)
      ensures Gathered(old(pages.store), old(loose), pages.store, loose, {p} - {NULL})
      ensures !ok ==> areas.count == MAX_K2HAREA_COUNT && pages.store == old(pages.store) && loose == old(loose)
      ensures ok ==> Carries(pages.store, p, bytes)
    {
      ghost var live, store0, loose0 := index.loc.Keys, pages.store, loose;
      LooseIn(index.bodies, live, store0, slots, loose);
      GatheredNone(store0, loose0);
      ok, p := ReserveText(bytes, live, store0, loose0, {});
      assert {} + ({p} - {NULL}) == {p} - {NULL};
      if !ok {
        assert {p} - {NULL} == {};
        GatheredIs(store0, loose0, pages.store, loose, {});
      }
    }

    /** Gives the new chain p, the only one gathered, to the ELEMENT of a key. */
    method InstallPage(e: Ptr, bytes: Bytes, t: PageType, p: Ptr, ghost store0: Store, ghost loose0: set<Ptr>,
                       ghost key: Bytes)
      requires Layers() && t != KEY && key in names && names[key] == e
      requires
        && Owns(index.bodies, index.loc.Keys, pages.store, slots, loose)
        && Owns(index.bodies, index.loc.Keys, store0, slots, loose0)
      requires Keyed(index.bodies, index.loc.Keys, store0, names, hashOf, subhashOf)
      requires Gathered(store0, loose0, pages.store, loose, {p} - {NULL}) && Carries(pages.store, p, bytes)
      modifies this`slots, this`loose, index`bodies, pages
      ensures
        && Layers()
        && Sound(index.loc.Keys, index.bodies, index.loc.Keys, pages.store, slots, loose, names, hashOf, subhashOf)
        && loose == loose0
      ensures
        var m := Meaning(old(index.bodies), store0, names);
        key in m && Meaning(index.bodies, pages.store, names) == m[key := WithPart(m[key], t, bytes)]
    {
      ghost var live, b, store := index.loc.Keys, index.bodies, pages.store;
      KeyedOf(b, live, store0, names, hashOf, subhashOf, key);
      OwnsReplaced(b, live, store0, store, slots, loose0, loose, e, t, p, bytes);
      KeyedReplaced(b, live, store0, store, slots, loose0, loose, e, t, p, bytes, names, hashOf, subhashOf);
      SwapPage(e, bytes, t, p);
      slots, loose := slots - Fields(b[e]) + SlotsOf(e, index.bodies[e]), loose0;
    }

    /** Frees the old chain and names the new one. */
    method SwapPage(e: Ptr, bytes: Bytes, t: PageType, p: Ptr)
      requires Layers() && e in index.loc && e in index.bodies && t != KEY
      requires FieldOf(index.bodies[e], t) == NULL || FieldOf(index.bodies[e], t) in pages.store
      modifies index`bodies, pages
      ensures Layers() && index.bodies == old(index.bodies)[e := WithField(old(index.bodies)[e], t, p, |bytes|)]
      ensures pages.store == old(pages.store) - ({FieldOf(old(index.bodies)[e], t)} - {NULL})
    {
      var body := index.bodies[e];
      var oldPage := FieldOf(body, t);
      if oldPage != NULL {
        pages.Free(oldPage);
        assert {oldPage} - {NULL} == {oldPage};
      }
      index.WriteBody(e, WithField(body, t, p, |bytes|));
    }

    /** Replaces one part of what is stored under a key, which is made when it is absent. */
    method Replace(key: Bytes, bytes: Bytes, t: PageType) returns (ok: bool)
      requires
        && Valid()
        && (key !in Abs() ==> FitsIn(Abs(), index.assign, index.maskBits, index.collisionBits, key, hashOf, subhashOf))
      modifies this`slots, this`loose, this`names, index, pages, areas, areas.table
      ensures Valid() && loose == old(loose)
      ensures key == [] || t == KEY ==> !ok && Abs() == old(Abs())
      ensures ok ==>
        Abs() == old(Abs())[key := WithPart(if key in old(Abs()) then old(Abs())[key] else Entry([], [], []), t, bytes)]
      ensures Finer(old(index.assign), old(index.maskBits), index.assign, index.maskBits, index.collisionBits)
      ensures key != [] && t != KEY && !ok ==> MAX_K2HAREA_COUNT <= areas.count + 1
    {
      FinerSame(index.assign, index.maskBits, index.collisionBits);
      if key == [] || t == KEY {
        return false;
      }
      ghost var abs, ka := Meaning(index.bodies, pages.store, names), index.assign;
      NamesAre();
      var cp, e := Lookup(key);
      ghost var ka1, n1 := index.assign, index.maskBits;
      if e != NULL {
        ok := ReplacePage(e, bytes, t, key);
      } else {
        FitsInLater(abs, Meaning(index.bodies, pages.store, names), ka, index.maskBits, index.assign, index.maskBits,
          index.collisionBits, key, hashOf, subhashOf);
        ok := Set(key, if t == VALUE then bytes else [], if t == SUBKEYS then bytes else [],
          if t == ATTRS then bytes else []);
        FinerTwice(ka, n1, ka1, n1, index.assign, index.maskBits, index.collisionBits);
      }
    }

    // ---------------------------------------------------------------- renaming

    /**
     The new key chain, and a new attributes chain if there are new attributes. Failing at the second leaves the first
     without owner.
     */
    method ReserveRenamed(key: Bytes, attrs: Bytes) returns (ok: bool, keyPage: Ptr, attrPage: Ptr)
      requires Valid()
      modifies this`loose, pages, areas, areas.table
      ensures
        && Valid() && Meaning(index.bodies, pages.store, names) == old(Meaning(index.bodies, pages.store, names))
        && old(loose) <= loose
      ensures !ok ==> areas.count == MAX_K2HAREA_COUNT
      ensures ok ==>
        && Carries(pages.store, keyPage, key) && Carries(pages.store, attrPage, attrs)
        && Different(keyPage, attrPage, NULL, NULL)
        && loose == old(loose) + ({keyPage, attrPage} - {NULL}) && old(loose) !! ({keyPage, attrPage} - {NULL})
    {
      ghost var live, store, loose0 := index.loc.Keys, pages.store, loose;
      LooseIn(index.bodies, live, store, slots, loose);
      GatheredNone(store, loose0);
      attrPage := NULL;
      ghost var ps: set<Ptr> := {};
      ok, keyPage := ReserveText(key, live, store, loose0, ps);
      ps := ps + ({keyPage} - {NULL});
      if ok {
        ok, attrPage := ReserveText(attrs, live, store, loose0, ps);
        ps := ps + ({attrPage} - {NULL});
      }
      GatheredIs(store, loose0, pages.store, loose, ps);
      assert ok ==> ps == {keyPage, attrPage} - {NULL};
      KeyedExtended(index.bodies, index.bodies, live, live, store, pages.store, slots, loose0, names, hashOf,
        subhashOf);
    }

    /** Moves the chains of the old key's ELEMENT e to the held ELEMENT e2 and takes e out of the index. */
    method MoveToElement(oldKey: Bytes, newKey: Bytes, cp: CKPtr, e: Ptr, e2: Ptr, keyPage: Ptr, attrPage: Ptr,
                         attrs: Bytes, ghost loose0: set<Ptr>)
      requires
        && Layers() && index.held == {e2} && e2 !in index.loc && e2 in index.bodies
        && Sound(index.loc.Keys, index.bodies, index.loc.Keys, pages.store, slots, loose, names, hashOf, subhashOf)
        && Twinless(Meaning(index.bodies, pages.store, names), oldKey, hashOf, subhashOf)
      requires
        && oldKey in names && e == names[oldKey]
        && cp == HomePtr(index.assign, index.maskBits, index.collisionBits, hashOf(oldKey))
      requires
        && newKey != [] && Carries(pages.store, keyPage, newKey) && Carries(pages.store, attrPage, attrs)
        && Different(keyPage, attrPage, NULL, NULL)
      requires loose == loose0 + ({keyPage, attrPage} - {NULL}) && loose0 !! ({keyPage, attrPage} - {NULL})
      modifies this`slots, this`loose, this`names, index`links, index`bodies, index`ck, index`trees, index`loc
      modifies index`held
      ensures Layers() && loose == loose0 && e in old(index.bodies)
      ensures
        && index.held == {e2, e} && e !in index.loc && e2 !in index.loc && e2 != e
        && Sound(index.loc.Keys + {e2} + {e}, index.bodies, index.loc.Keys, pages.store, slots, loose, names, hashOf,
             subhashOf)
      ensures
        && Meaning(index.bodies, pages.store, names) == old(Meaning(index.bodies, pages.store, names)) - {oldKey}
        && names == old(names) - {oldKey} && oldKey in old(Meaning(index.bodies, pages.store, names))
      ensures e2 in index.bodies && Text(pages.store, index.bodies[e2].key) == newKey
      ensures index.bodies[e2] ==
        RenamedBody(old(index.bodies)[e], hashOf(newKey), subhashOf(newKey), keyPage, newKey, attrPage, attrs)
      ensures EntryOf(index.bodies[e2], pages.store) ==
        WithAttrs(old(Meaning(index.bodies, pages.store, names))[oldKey], attrs)
    {
      ghost var b := index.bodies;
      KeyedOf(b, index.loc.Keys, pages.store, names, hashOf, subhashOf, oldKey);
      var body := index.bodies[e];
      index.WriteBody(e2, RenamedBody(body, hashOf(newKey), subhashOf(newKey), keyPage, newKey, attrPage, attrs));
      ghost var b1 := index.bodies;
      SoundFrame(b, b1, index.loc.Keys, index.loc.Keys, pages.store, slots, loose, names, hashOf, subhashOf);
      TwinlessStrandsNothing(oldKey);
      TakeKey(oldKey, cp, e);
      KeptHeld(b1, index.links, index.loc, index.free, index.held, index.pfreeElements, areas.used, e2);
      StripElement(e, e2, newKey, keyPage, attrPage, attrs, loose0, index.loc.Keys + {e});
      assert index.loc.Keys + {e2} + {e} == index.loc.Keys + {e} + {e2};
      assert index.held == {e2, e};
    }

    /** Clears the members of e whose chains e2 has taken over. */
    method StripElement(e: Ptr, e2: Ptr, newKey: Bytes, keyPage: Ptr, attrPage: Ptr, attrs: Bytes,
                        ghost loose0: set<Ptr>, ghost s: set<Ptr>)
      requires
        && Layers() && Sound(s, index.bodies, index.loc.Keys, pages.store, slots, loose, names, hashOf, subhashOf)
        && e in s
        && e2 !in s && e in index.bodies && e !in index.loc && e in index.held && index.loc.Keys <= s
      requires e2 in index.bodies
      requires index.bodies[e2] ==
        RenamedBody(index.bodies[e], hashOf(newKey), subhashOf(newKey), keyPage, newKey, attrPage, attrs)
      requires
        && newKey != [] && Carries(pages.store, keyPage, newKey) && Carries(pages.store, attrPage, attrs)
        && Different(keyPage, attrPage, NULL, NULL)
      requires loose == loose0 + ({keyPage, attrPage} - {NULL}) && loose0 !! ({keyPage, attrPage} - {NULL})
      modifies this`slots, this`loose, index`bodies
      ensures
        && Layers()
        && Sound(s + {e2}, index.bodies, index.loc.Keys, pages.store, slots, loose, names, hashOf, subhashOf)
        && Meaning(index.bodies, pages.store, names) == old(Meaning(index.bodies, pages.store, names))
        && loose == loose0
      ensures index.bodies == old(index.bodies)[e := StrippedBody(old(index.bodies)[e], attrs)]
      ensures Text(pages.store, index.bodies[e2].key) == newKey
      ensures EntryOf(index.bodies[e2], pages.store) ==
        WithAttrs(EntryOf(old(index.bodies)[e], pages.store), attrs)
    {
      ghost var b, live := index.bodies, index.loc.Keys;
      OwnsRenamed(b, s, pages.store, slots, loose0, loose, e, e2, hashOf(newKey), subhashOf(newKey), keyPage, newKey,
        attrPage, attrs);
      assert b[e2 := b[e2]] == b;
      index.WriteBody(e, StrippedBody(index.bodies[e], attrs));
      slots := slots - Fields(b[e]) + SlotsOf(e2, b[e2]) + SlotsOf(e, index.bodies[e]);
      loose := loose0;
      KeyedFrame(b, index.bodies, live, pages.store, pages.store, names, hashOf, subhashOf);
    }

    /**
     Renames a key, with new attributes if any are given.  Value and subkeys keep their chains, and so do the
     attributes when no new ones are given.  The new key must not be in use, for it is not looked up.
     */
    method Rename(oldKey: Bytes, newKey: Bytes, attrs: Bytes) returns (ok: bool)
      requires Valid() && Twinless(Abs(), oldKey, hashOf, subhashOf) && (newKey == oldKey || newKey !in Abs())
      requires FitsIn(Abs() - {oldKey}, index.assign, index.maskBits, index.collisionBits, newKey, hashOf, subhashOf)
      modifies this`slots, this`loose, this`names, index, pages, areas, areas.table
      ensures Valid()
      ensures oldKey == [] || newKey == [] || oldKey !in old(Abs()) ==>
        !ok && Abs() == old(Abs()) && loose == old(loose)
      ensures ok ==>
        && oldKey in old(Abs()) && loose == old(loose)
        && Abs() == Renamed(old(Abs()), oldKey, newKey, attrs)
      ensures !ok ==>
        Abs() == old(Abs()) || (oldKey in old(Abs()) && Abs() == Renamed(old(Abs()), oldKey, newKey, attrs))
      ensures ok ==>
        && newKey in names && names[newKey] in index.bodies && oldKey in old(names)
        && old(names)[oldKey] in old(index.bodies)
      ensures ok ==>
        && index.bodies[names[newKey]].value == old(index.bodies)[old(names)[oldKey]].value
        && index.bodies[names[newKey]].subkeys == old(index.bodies)[old(names)[oldKey]].subkeys
        && (attrs == [] ==> index.bodies[names[newKey]].attrs == old(index.bodies)[old(names)[oldKey]].attrs)
      ensures Finer(old(index.assign), old(index.maskBits), index.assign, index.maskBits, index.collisionBits)
      ensures oldKey != [] && newKey != [] && oldKey in old(Abs()) && !ok ==> MAX_K2HAREA_COUNT <= areas.count + 1
    {
      NamesAre();
      FinerSame(index.assign, index.maskBits, index.collisionBits);
      if oldKey == [] || newKey == [] {
        return false;
      }
      ghost var abs, ka := Meaning(index.bodies, pages.store, names), index.assign;
      var cp, e := Lookup(oldKey);
      if e == NULL {
        return false;
      }
      FitsInLater(abs - {oldKey}, Meaning(index.bodies, pages.store, names) - {oldKey}, ka, index.maskBits,
        index.assign, index.maskBits, index.collisionBits, newKey, hashOf, subhashOf);
      ghost var ka1, n1 := index.assign, index.maskBits;
      ok := RenameFound(oldKey, newKey, attrs, cp, e);
      FinerTwice(ka, n1, ka1, n1, index.assign, index.maskBits, index.collisionBits);
    }

    /** Rename once the ELEMENT of the old key is found. */
    method RenameFound(oldKey: Bytes, newKey: Bytes, attrs: Bytes, cp: CKPtr, e: Ptr) returns (ok: bool)
      requires
        && Valid() && Twinless(Meaning(index.bodies, pages.store, names), oldKey, hashOf, subhashOf) && newKey != []
        && (newKey == oldKey || newKey !in names)
      requires
        && oldKey in names && e == names[oldKey]
        && cp == HomePtr(index.assign, index.maskBits, index.collisionBits, hashOf(oldKey))
      requires FitsIn(Meaning(index.bodies, pages.store, names) - {oldKey}, index.assign, index.maskBits,
          index.collisionBits, newKey, hashOf, subhashOf)
      modifies this`slots, this`loose, this`names, index, pages, areas, areas.table
      ensures Valid() && oldKey in old(Meaning(index.bodies, pages.store, names)) && e in old(index.bodies)
      ensures ok ==>
        && loose == old(loose)
        && Meaning(index.bodies, pages.store, names) ==
             Renamed(old(Meaning(index.bodies, pages.store, names)), oldKey, newKey, attrs)
        && newKey in names && names[newKey] in index.bodies
        && index.bodies[names[newKey]].value == old(index.bodies)[e].value
        && index.bodies[names[newKey]].subkeys == old(index.bodies)[e].subkeys
        && (attrs == [] ==> index.bodies[names[newKey]].attrs == old(index.bodies)[e].attrs)
      ensures !ok ==>
        || Meaning(index.bodies, pages.store, names) == old(Meaning(index.bodies, pages.store, names))
        || Meaning(index.bodies, pages.store, names) ==
             Renamed(old(Meaning(index.bodies, pages.store, names)), oldKey, newKey, attrs)
      ensures Finer(old(index.assign), old(index.maskBits), index.assign, index.maskBits, index.collisionBits)
      ensures !ok ==> MAX_K2HAREA_COUNT <= areas.count + 1
    {
      KeyedOf(index.bodies, index.loc.Keys, pages.store, names, hashOf, subhashOf, oldKey);
      FinerSame(index.assign, index.maskBits, index.collisionBits);
      ghost var loose0, b := loose, index.bodies;
      var keyPage, attrPage;
      ok, keyPage, attrPage := ReserveRenamed(newKey, attrs);
      if !ok {
        return;
      }
      var e2 := HoldElement();
      if e2 == NULL {
        return false;
      }
      SameBodiesAt(b, index.bodies, index.loc.Keys, e);
      ok := RenameHeld(oldKey, newKey, cp, e, e2, keyPage, attrPage, attrs, loose0);
    }

    /** Rename once everything it needs is reserved. */
    method RenameHeld(oldKey: Bytes, newKey: Bytes, cp: CKPtr, e: Ptr, e2: Ptr, keyPage: Ptr, attrPage: Ptr,
                      attrs: Bytes, ghost loose0: set<Ptr>)
      returns (ok: bool)
      requires
        && Layers() && index.held == {e2} && e2 !in index.loc && e2 in index.bodies
        && Sound(index.loc.Keys, index.bodies, index.loc.Keys, pages.store, slots, loose, names, hashOf, subhashOf)
      requires
        && Twinless(Meaning(index.bodies, pages.store, names), oldKey, hashOf, subhashOf) && newKey != []
        && (newKey == oldKey || newKey !in names)
      requires
        && oldKey in names && e == names[oldKey]
        && cp == HomePtr(index.assign, index.maskBits, index.collisionBits, hashOf(oldKey))
      requires FitsIn(Meaning(index.bodies, pages.store, names) - {oldKey}, index.assign, index.maskBits,
          index.collisionBits, newKey, hashOf, subhashOf)
      requires
        && Carries(pages.store, keyPage, newKey) && Carries(pages.store, attrPage, attrs)
        && Different(keyPage, attrPage, NULL, NULL)
      requires loose == loose0 + ({keyPage, attrPage} - {NULL}) && loose0 !! ({keyPage, attrPage} - {NULL})
      modifies this`slots, this`loose, this`names, index, pages, areas, areas.table
      ensures
        && Valid() && loose == loose0 && oldKey in old(Meaning(index.bodies, pages.store, names))
        && e in old(index.bodies)
      ensures Meaning(index.bodies, pages.store, names) ==
        Renamed(old(Meaning(index.bodies, pages.store, names)), oldKey, newKey, attrs)
      ensures newKey in names && names[newKey] in index.bodies
      ensures
        && index.bodies[names[newKey]].value == old(index.bodies)[e].value
        && index.bodies[names[newKey]].subkeys == old(index.bodies)[e].subkeys
        && (attrs == [] ==> index.bodies[names[newKey]].attrs == old(index.bodies)[e].attrs)
      ensures Finer(old(index.assign), old(index.maskBits), index.assign, index.maskBits, index.collisionBits)
      ensures !ok ==> MAX_K2HAREA_COUNT <= areas.count + 1
    {
      MoveToElement(oldKey, newKey, cp, e, e2, keyPage, attrPage, attrs, loose0);
      ok := HangRenamed(newKey, e, e2);
    }

    /** Frees the old ELEMENT and puts the new one where its key belongs. */
    method HangRenamed(newKey: Bytes, e: Ptr, e2: Ptr) returns (ok: bool)
      requires
        && Layers() && index.held == {e2, e} && e !in index.loc && e2 !in index.loc && e2 != e
        && Sound(index.loc.Keys + {e2} + {e}, index.bodies, index.loc.Keys, pages.store, slots, loose, names, hashOf,
             subhashOf)
      requires
        && newKey != [] && newKey !in names && e2 in index.bodies && Text(pages.store, index.bodies[e2].key) == newKey
      requires
        && index.bodies[e2].hash == hashOf(newKey) && index.bodies[e2].subhash == subhashOf(newKey)
        && FitsIn(Meaning(index.bodies, pages.store, names), index.assign, index.maskBits, index.collisionBits, newKey,
             hashOf, subhashOf)
      modifies this`slots, this`loose, this`names, index, pages, areas, areas.table
      ensures Valid() && loose == old(loose)
      ensures Meaning(index.bodies, pages.store, names) ==
        old(Meaning(index.bodies, pages.store, names))[newKey := EntryOf(old(index.bodies)[e2], old(pages.store))]
      ensures names == old(names)[newKey := e2] && e2 in index.bodies && index.bodies[e2] == old(index.bodies)[e2]
      ensures Finer(old(index.assign), old(index.maskBits), index.assign, index.maskBits, index.collisionBits)
      ensures !ok ==> MAX_K2HAREA_COUNT <= areas.count + 1
    {
      FreeBeside(e, e2, index.loc.Keys + {e2});
      assert unchanged(this`names) && unchanged(index`loc) && unchanged(index`assign);
      ok := HangNew(newKey, e2);
    }

    /** Puts a held ELEMENT where its key belongs, after a merging lookup. */
    method HangNew(key: Bytes, e: Ptr) returns (ok: bool)
      requires Layers() && index.held == {e} && e !in index.loc && e in index.bodies
      requires Sound(index.loc.Keys + {e}, index.bodies, index.loc.Keys, pages.store, slots, loose, names, hashOf,
          subhashOf)
      requires key != [] && key !in names && Text(pages.store, index.bodies[e].key) == key
      requires index.bodies[e].hash == hashOf(key) && index.bodies[e].subhash == subhashOf(key)
      requires FitsIn(Meaning(index.bodies, pages.store, names), index.assign, index.maskBits, index.collisionBits, key,
          hashOf, subhashOf)
      modifies this`names, index`links, index`ck, index`assign, index`maskBits, index`trees, index`loc, index`held
      modifies areas
      modifies areas.table
      ensures Valid() && names == old(names)[key := e]
      ensures Meaning(index.bodies, pages.store, names) ==
        old(Meaning(index.bodies, pages.store, names))[key := EntryOf(index.bodies[e], pages.store)]
      ensures Finer(old(index.assign), old(index.maskBits), index.assign, index.maskBits, index.collisionBits)
      ensures !ok ==> MAX_K2HAREA_COUNT <= areas.count + 1
    {
      ghost var abs, ka, n := Meaning(index.bodies, pages.store, names), index.assign, index.maskBits;
      var cp := LocateCKIndex(key, index.loc.Keys + {e});
      ghost var ka1 := index.assign;
      FitsInLater(abs, abs, ka, index.maskBits, index.assign, index.maskBits, index.collisionBits, key, hashOf,
        subhashOf);
      ok := PutAndExpand(key, cp, e);
      FinerTwice(ka, n, ka1, n, index.assign, index.maskBits, index.collisionBits);
    }
  }
}
