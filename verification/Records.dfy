/**
 What the ELEMENTs stand for: which page chain belongs to which member of which ELEMENT, and the
 map from keys to values, subkeys and attributes that they spell out.
 */
module Records {
  import opened Layout
  import opened ElementTree

  datatype PageType = KEY | VALUE | SUBKEYS | ATTRS

  /** What is stored under a key, each part as its raw bytes. */
  datatype Entry = Entry(value: Bytes, subkeys: Bytes, attrs: Bytes)

  /** What a store holds, key by key. */
  type Content = map<Bytes, Entry>

  type Store = map<Ptr, Bytes>

  /** The ELEMENT member that names a chain. */
  datatype Slot = Slot(element: Ptr, pageType: PageType)

  type Slots = map<Ptr, Slot>

  /** The live ELEMENT of each key. */
  type Names = map<Bytes, Ptr>

  function FieldOf(body: Body, t: PageType): Ptr
  {
    match t
    case KEY => body.key
    case VALUE => body.value
    case SUBKEYS => body.subkeys
    case ATTRS => body.attrs
  }

  function LengthOf(body: Body, t: PageType): nat
  {
    match t
    case KEY => body.keylength
    case VALUE => body.vallength
    case SUBKEYS => body.skeylength
    case ATTRS => body.attrlength
  }

  function WithField(body: Body, t: PageType, p: Ptr, length: nat): Body
  {
    match t
    case KEY => body.(key := p, keylength := length)
    case VALUE => body.(value := p, vallength := length)
    case SUBKEYS => body.(subkeys := p, skeylength := length)
    case ATTRS => body.(attrs := p, attrlength := length)
  }

  /** The bytes that a member names: none when it is null. */
  function Text(store: Store, p: Ptr): Bytes
  {
    if p in store then store[p] else []
  }

  function EntryOf(body: Body, store: Store): Entry
  {
    Entry(Text(store, body.value), Text(store, body.subkeys), Text(store, body.attrs))
  }

  function Fields(body: Body): set<Ptr>
  {
    {body.key, body.value, body.subkeys, body.attrs} - {NULL}
  }

  /** Members of one ELEMENT never name the same chain. */
  ghost predicate Spread(body: Body)
  {
    forall t1: PageType, t2: PageType | t1 != t2 && FieldOf(body, t1) == FieldOf(body, t2) :: FieldOf(body, t1) == NULL
  }

  ghost predicate Measured(body: Body, store: Store)
  {
    forall t: PageType :: LengthOf(body, t) == |Text(store, FieldOf(body, t))|
  }

  /** The bodies of the ELEMENTs s are not written. */
  ghost predicate SameBodies(b: BodyHeap, b': BodyHeap, s: set<Ptr>)
  {
    forall u: nat {:trigger Look(SAME_BODIES, u)} ::
      Look(SAME_BODIES, u) ==> forall p | p in s && p in b :: p in b' && b'[p] == b[p]
  }

  lemma SameBodiesAt(b: BodyHeap, b': BodyHeap, s: set<Ptr>, p: Ptr)
    requires SameBodies(b, b', s) && p in s && p in b
    ensures p in b' && b'[p] == b[p]
  {
    assert Look(SAME_BODIES, 0);
  }

  /** The chains ps all store something. */
  ghost predicate Filled(store: Store, ps: set<Ptr>)
  {
    forall p | p in ps && p in store :: store[p] != []
  }

  // ---------------------------------------------------------------- ownership of chains

  /**
   Every chain belongs to exactly one member of exactly one ELEMENT of s, as `slots` says, or to
   none and is loose; and the length members are right.
   */
  ghost predicate Owns(b: BodyHeap, s: set<Ptr>, store: Store, slots: Slots, loose: set<Ptr>)
  {
    forall u: nat {:trigger Look(OWNS, u)} :: Look(OWNS, u) ==> OwnsFacts(b, s, store, slots, loose)
  }

  ghost predicate OwnsFacts(b: BodyHeap, s: set<Ptr>, store: Store, slots: Slots, loose: set<Ptr>)
  {
    && NULL !in store
    && (forall p :: p in store <==> p in slots || p in loose)
    && Filled(store, slots.Keys)
    && (forall p | p in slots ::
          && p !in loose && slots[p].element in s && slots[p].element in b
          && FieldOf(b[slots[p].element], slots[p].pageType) == p)
    && (forall e | e in s :: e in b && Measured(b[e], store))
    && (forall e, t: PageType | e in s && e in b && FieldOf(b[e], t) != NULL ::
          FieldOf(b[e], t) in slots && slots[FieldOf(b[e], t)] == Slot(e, t))
  }

  lemma OwnsIs(b: BodyHeap, s: set<Ptr>, store: Store, slots: Slots, loose: set<Ptr>)
    ensures Owns(b, s, store, slots, loose) <==> OwnsFacts(b, s, store, slots, loose)
  {
    assert Look(OWNS, 0);
  }

  lemma LooseIn(b: BodyHeap, s: set<Ptr>, store: Store, slots: Slots, loose: set<Ptr>)
    requires Owns(b, s, store, slots, loose)
    ensures NULL !in store && NULL !in loose && forall p | p in loose :: p in store
  {
    OwnsIs(b, s, store, slots, loose);
  }

  lemma OwnsReserved(b: BodyHeap, s: set<Ptr>, store: Store, slots: Slots, loose: set<Ptr>, r: Ptr, bytes: Bytes)
    requires Owns(b, s, store, slots, loose) && r !in store && r != NULL
    ensures Owns(b, s, store[r := bytes], slots, loose + {r})
  {
    OwnsIs(b, s, store, slots, loose);
    forall e | e in s
      ensures Measured(b[e], store[r := bytes])
    {
      forall t: PageType
        ensures Text(store[r := bytes], FieldOf(b[e], t)) == Text(store, FieldOf(b[e], t))
      {
      }
    }
    OwnsIs(b, s, store[r := bytes], slots, loose + {r});
  }

  lemma OwnsFreed(b: BodyHeap, s: set<Ptr>, store: Store, slots: Slots, loose: set<Ptr>, r: Ptr)
    requires Owns(b, s, store, slots, loose) && r in loose
    ensures r in store && r != NULL && Owns(b, s, store - {r}, slots, loose - {r})
  {
    OwnsIs(b, s, store, slots, loose);
    forall e | e in s
      ensures Measured(b[e], store - {r})
    {
      forall t: PageType
        ensures Text(store - {r}, FieldOf(b[e], t)) == Text(store, FieldOf(b[e], t))
      {
      }
    }
    OwnsIs(b, s, store - {r}, slots, loose - {r});
  }

  /** The owners of the chains that body names, when e has it. */
  function SlotsOf(e: Ptr, body: Body): Slots
  {
    map p | p in Fields(body) ::
      Slot(e,
        if p == body.key then KEY
        else if p == body.value then VALUE
        else if p == body.subkeys then SUBKEYS
        else ATTRS)
  }

  lemma SlotsOfField(e: Ptr, body: Body, t: PageType)
    requires Spread(body) && FieldOf(body, t) != NULL
    ensures FieldOf(body, t) in SlotsOf(e, body) && SlotsOf(e, body)[FieldOf(body, t)] == Slot(e, t)
  {
    assert
      && FieldOf(body, KEY) == body.key && FieldOf(body, VALUE) == body.value && FieldOf(body, SUBKEYS) == body.subkeys;
  }

  /** An ELEMENT takes over loose chains. */
  lemma OwnsAdopted(b: BodyHeap, s: set<Ptr>, store: Store, slots: Slots, loose: set<Ptr>, e: Ptr, body: Body)
    requires Owns(b, s, store, slots, loose) && e !in s
    requires Fields(body) <= loose && Spread(body) && Measured(body, store) && Filled(store, Fields(body))
    ensures Owns(b[e := body], s + {e}, store, slots + SlotsOf(e, body), loose - Fields(body))
  {
    OwnsIs(b, s, store, slots, loose);
    var b', s', slots', loose' := b[e := body], s + {e}, slots + SlotsOf(e, body), loose - Fields(body);
    assert forall p :: p in slots' <==> p in slots || p in Fields(body);
    assert forall p | p in slots && p in store :: p !in Fields(body);
    SlotsOfFields(e, body);
    assert Filled(store, slots'.Keys);
    forall e1, t: PageType | e1 in s' && e1 in b' && FieldOf(b'[e1], t) != NULL
      ensures FieldOf(b'[e1], t) in slots' && slots'[FieldOf(b'[e1], t)] == Slot(e1, t)
    {
      if e1 == e {
        SlotsOfField(e, body, t);
      }
    }
    OwnsIs(b', s', store, slots', loose');
  }

  lemma SlotsOfFields(e: Ptr, body: Body)
    ensures forall p | p in SlotsOf(e, body) ::
      SlotsOf(e, body)[p].element == e && FieldOf(body, SlotsOf(e, body)[p].pageType) == p
  {
  }

  /** An ELEMENT lets go of its chains. */
  lemma OwnsReleased(b: BodyHeap, s: set<Ptr>, store: Store, slots: Slots, loose: set<Ptr>, e: Ptr)
    requires Owns(b, s, store, slots, loose) && e in s
    ensures
      && e in b && Spread(b[e]) && Fields(b[e]) !! loose && Fields(b[e]) <= store.Keys && Measured(b[e], store)
      && Filled(store, Fields(b[e]))
    ensures Owns(b, s - {e}, store, slots - Fields(b[e]), loose + Fields(b[e]))
  {
    OwnsIs(b, s, store, slots, loose);
    var body := b[e];
    assert forall t: PageType | FieldOf(body, t) != NULL ::
      FieldOf(body, t) in slots && slots[FieldOf(body, t)] == Slot(e, t);
    FieldsAre(body);
    OwnsIs(b, s - {e}, store, slots - Fields(body), loose + Fields(body));
  }

  lemma FieldsAre(body: Body)
    ensures forall t: PageType | FieldOf(body, t) != NULL :: FieldOf(body, t) in Fields(body)
    ensures forall p | p in Fields(body) ::
      p == FieldOf(body, KEY) || p == FieldOf(body, VALUE) || p == FieldOf(body, SUBKEYS) || p == FieldOf(body, ATTRS)
  {
  }

  /** Bodies of other ELEMENTs do not matter. */
  lemma OwnsFrame(b: BodyHeap, b': BodyHeap, s: set<Ptr>, store: Store, slots: Slots, loose: set<Ptr>)
    requires Owns(b, s, store, slots, loose) && forall e | e in s :: e in b' && (e in b ==> b'[e] == b[e])
    ensures Owns(b', s, store, slots, loose)
  {
    OwnsIs(b, s, store, slots, loose);
    OwnsIs(b', s, store, slots, loose);
  }

  // ---------------------------------------------------------------- keys

  /** Each live ELEMENT has a key of its own, with the right hashes, and `names` finds it. */
  ghost predicate Keyed(b: BodyHeap, live: set<Ptr>, store: Store, names: Names, hashOf: Bytes -> nat,
                        subhashOf: Bytes -> nat)
  {
    forall u: nat {:trigger Look(KEYED, u)} :: Look(KEYED, u) ==> KeyedFacts(b, live, store, names, hashOf, subhashOf)
  }

  ghost predicate KeyedFacts(b: BodyHeap, live: set<Ptr>, store: Store, names: Names, hashOf: Bytes -> nat,
                             subhashOf: Bytes -> nat)
  {
    && (forall k | k in names ::
          && k != [] && names[k] in live && names[k] in b && b[names[k]].key in store
          && store[b[names[k]].key] == k)
    && (forall e | e in live :: e in b && b[e].key in store && store[b[e].key] in names && names[store[b[e].key]] == e)
    && (forall e | e in live && e in b && b[e].key in store ::
          b[e].hash == hashOf(store[b[e].key]) && b[e].subhash == subhashOf(store[b[e].key]))
  }

  lemma KeyedIs(b: BodyHeap, live: set<Ptr>, store: Store, names: Names, hashOf: Bytes -> nat, subhashOf: Bytes -> nat)
    ensures Keyed(b, live, store, names, hashOf, subhashOf) <==> KeyedFacts(b, live, store, names, hashOf, subhashOf)
  {
    assert Look(KEYED, 0);
  }

  lemma KeyedAt(b: BodyHeap, live: set<Ptr>, store: Store, names: Names, hashOf: Bytes -> nat, subhashOf: Bytes -> nat,
                e: Ptr)
    requires Keyed(b, live, store, names, hashOf, subhashOf) && e in live
    ensures
      && e in b && b[e].key in store && store[b[e].key] in names && names[store[b[e].key]] == e && store[b[e].key] != []
    ensures b[e].hash == hashOf(store[b[e].key]) && b[e].subhash == subhashOf(store[b[e].key])
  {
    KeyedIs(b, live, store, names, hashOf, subhashOf);
  }

  lemma KeyedOf(b: BodyHeap, live: set<Ptr>, store: Store, names: Names, hashOf: Bytes -> nat, subhashOf: Bytes -> nat,
                k: Bytes)
    requires Keyed(b, live, store, names, hashOf, subhashOf) && k in names
    ensures names[k] in live && names[k] in b && b[names[k]].key in store && store[b[names[k]].key] == k
    ensures b[names[k]].hash == hashOf(k) && b[names[k]].subhash == subhashOf(k)
  {
    KeyedIs(b, live, store, names, hashOf, subhashOf);
  }

  /** What the live ELEMENTs spell out. */
  function Meaning(b: BodyHeap, store: Store, names: Names): Content
  {
    map k | k in names && names[k] in b :: EntryOf(b[names[k]], store)
  }

  /** Names and meaning depend on the bodies of the live ELEMENTs and on their chains. */
  lemma KeyedFrame(b: BodyHeap, b': BodyHeap, live: set<Ptr>, store: Store, store': Store, names: Names,
                   hashOf: Bytes -> nat, subhashOf: Bytes -> nat)
    requires Keyed(b, live, store, names, hashOf, subhashOf)
    requires forall e | e in live && e in b :: e in b' && b'[e] == b[e]
    requires forall e, t: PageType | e in live && e in b ::
      Text(store', FieldOf(b[e], t)) == Text(store, FieldOf(b[e], t))
    ensures Keyed(b', live, store', names, hashOf, subhashOf)
    ensures Meaning(b', store', names) == Meaning(b, store, names)
  {
    KeyedIs(b, live, store, names, hashOf, subhashOf);
    forall e | e in live
      ensures b[e].key in store' && store'[b[e].key] == store[b[e].key] && EntryOf(b[e], store') == EntryOf(b[e], store)
    {
      var k := store[b[e].key];
      assert Text(store', FieldOf(b[e], KEY)) == Text(store, FieldOf(b[e], KEY)) == k && k != [];
      assert Text(store', FieldOf(b[e], VALUE)) == Text(store, FieldOf(b[e], VALUE));
      assert Text(store', FieldOf(b[e], SUBKEYS)) == Text(store, FieldOf(b[e], SUBKEYS));
      assert Text(store', FieldOf(b[e], ATTRS)) == Text(store, FieldOf(b[e], ATTRS));
    }
    KeyedIs(b', live, store', names, hashOf, subhashOf);
  }

  lemma KeyedAdded(b: BodyHeap, live: set<Ptr>, store: Store, names: Names, hashOf: Bytes -> nat,
                   subhashOf: Bytes -> nat, e: Ptr)
    requires Keyed(b, live, store, names, hashOf, subhashOf) && e !in live && e in b && b[e].key in store
    requires
      var k := store[b[e].key];
      k != [] && k !in names && b[e].hash == hashOf(k) && b[e].subhash == subhashOf(k)
    ensures
      var k := store[b[e].key];
      && Keyed(b, live + {e}, store, names[k := e], hashOf, subhashOf)
      && Meaning(b, store, names[k := e]) == Meaning(b, store, names)[k := EntryOf(b[e], store)]
  {
    KeyedIs(b, live, store, names, hashOf, subhashOf);
    KeyedIs(b, live + {e}, store, names[store[b[e].key] := e], hashOf, subhashOf);
  }

  lemma KeyedRemoved(b: BodyHeap, live: set<Ptr>, store: Store, names: Names, hashOf: Bytes -> nat,
                     subhashOf: Bytes -> nat, k: Bytes)
    requires Keyed(b, live, store, names, hashOf, subhashOf) && k in names
    ensures Keyed(b, live - {names[k]}, store, names - {k}, hashOf, subhashOf)
    ensures Meaning(b, store, names - {k}) == Meaning(b, store, names) - {k}
  {
    KeyedIs(b, live, store, names, hashOf, subhashOf);
    KeyedIs(b, live - {names[k]}, store, names - {k}, hashOf, subhashOf);
  }

  /** Nothing stored was changed, though something may have been added. */
  ghost predicate Extends(store: Store, store': Store)
  {
    NULL !in store' && forall p | p in store :: p in store' && store'[p] == store[p]
  }

  /** What the live ELEMENTs say does not depend on further chains. */
  lemma KeyedExtended(b: BodyHeap, b': BodyHeap, s: set<Ptr>, live: set<Ptr>, store: Store, store': Store, slots: Slots,
                      loose: set<Ptr>,
                      names: Names, hashOf: Bytes -> nat, subhashOf: Bytes -> nat)
    requires Owns(b, s, store, slots, loose) && live <= s && Extends(store, store')
    requires Keyed(b, live, store, names, hashOf, subhashOf)
    requires forall e | e in live && e in b :: e in b' && b'[e] == b[e]
    ensures Keyed(b', live, store', names, hashOf, subhashOf)
    ensures Meaning(b', store', names) == Meaning(b, store, names)
  {
    OwnsIs(b, s, store, slots, loose);
    KeyedFrame(b, b', live, store, store', names, hashOf, subhashOf);
  }

  /** The body of a new ELEMENT with the four chains p. */
  function BodyOf(hash: nat, subhash: nat, key: Ptr, value: Ptr, subkeys: Ptr, attrs: Ptr, k: Bytes, v: Bytes,
                  sk: Bytes, a: Bytes): Body
  {
    Body(hash, subhash, key, value, subkeys, attrs,
         if key == NULL then 0 else |k|, if value == NULL then 0 else |v|,
         if subkeys == NULL then 0 else |sk|, if attrs == NULL then 0 else |a|)
  }

  /** p is a new chain for the bytes, or null when there are none. */
  ghost predicate Carries(store: Store, p: Ptr, bytes: Bytes)
  {
    if bytes == [] then p == NULL else p != NULL && p in store && store[p] == bytes
  }

  /** No chain is named twice. */
  predicate Different(key: Ptr, value: Ptr, subkeys: Ptr, attrs: Ptr)
  {
    && (key == NULL || (key != value && key != subkeys && key != attrs))
    && (value == NULL || (value != subkeys && value != attrs))
    && (subkeys == NULL || subkeys != attrs)
  }

  lemma BodyCarries(store: Store, hash: nat, subhash: nat, key: Ptr, value: Ptr, subkeys: Ptr, attrs: Ptr, k: Bytes,
                    v: Bytes, sk: Bytes, a: Bytes)
    requires NULL !in store && Different(key, value, subkeys, attrs)
    requires
      && Carries(store, key, k) && Carries(store, value, v) && Carries(store, subkeys, sk) && Carries(store, attrs, a)
    ensures
      var body := BodyOf(hash, subhash, key, value, subkeys, attrs, k, v, sk, a);
      && Spread(body) && Measured(body, store) && Filled(store, Fields(body))
      && EntryOf(body, store) == Entry(v, sk, a) && Text(store, body.key) == k
  {
    var body := BodyOf(hash, subhash, key, value, subkeys, attrs, k, v, sk, a);
    forall t: PageType
      ensures LengthOf(body, t) == |Text(store, FieldOf(body, t))|
    {
    }
  }

  // ---------------------------------------------------------------- chains gathered by one operation

  /** The chains ps, all loose, were added since the store was store0 and the loose chains loose0. */
  ghost predicate Gathered(store0: Store, loose0: set<Ptr>, store: Store, loose: set<Ptr>, ps: set<Ptr>)
  {
    forall u: nat {:trigger Look(GATHERED, u)} :: Look(GATHERED, u) ==>
      && NULL !in ps && NULL !in store0 && NULL !in loose0 && (forall p | p in ps :: p !in store0 && p !in loose0)
      && (forall p :: p in store <==> p in store0 || p in ps)
      && (forall p | p in store0 && p in store :: store[p] == store0[p])
      && loose == loose0 + ps
  }

  lemma GatheredIs(store0: Store, loose0: set<Ptr>, store: Store, loose: set<Ptr>, ps: set<Ptr>)
    requires Gathered(store0, loose0, store, loose, ps)
    ensures
      && NULL !in ps && NULL !in store && NULL !in store0 && ps !! loose0 && loose == loose0 + ps
      && Extends(store0, store)
    ensures forall p | p in ps :: p in store && p !in store0
    ensures ps == {} ==> store == store0 && loose == loose0
  {
    assert Look(GATHERED, 0);
    if ps == {} {
      assert store == store0;
    }
  }

  lemma GatheredNone(store: Store, loose: set<Ptr>)
    requires NULL !in store && NULL !in loose
    ensures Gathered(store, loose, store, loose, {})
  {
  }

  lemma GatheredMore(store0: Store, loose0: set<Ptr>, store: Store, loose: set<Ptr>, ps: set<Ptr>, p: Ptr, bytes: Bytes)
    requires Gathered(store0, loose0, store, loose, ps) && p != NULL && p !in store && p !in loose
    ensures Gathered(store0, loose0, store[p := bytes], loose + {p}, ps + {p})
  {
    assert Look(GATHERED, 0);
  }

  lemma GatheredLess(store0: Store, loose0: set<Ptr>, store: Store, loose: set<Ptr>, ps: set<Ptr>, p: Ptr)
    requires Gathered(store0, loose0, store, loose, ps) && (p in ps || p == NULL)
    ensures Gathered(store0, loose0, store - {p}, loose - {p}, ps - {p})
  {
    assert Look(GATHERED, 0);
  }

  /** The chains of a body, gathered one after the other. */
  function NonNull(key: Ptr, value: Ptr, subkeys: Ptr, attrs: Ptr): (ps: set<Ptr>)
  {
    {} + ({key} - {NULL}) + ({value} - {NULL}) + ({subkeys} - {NULL}) + ({attrs} - {NULL})
  }

  lemma NonNullAre(body: Body)
    ensures NonNull(body.key, body.value, body.subkeys, body.attrs) == Fields(body)
  {
  }

  /** Bodies of ELEMENTs that are neither owners nor live do not matter. */
  lemma SoundFrame(b: BodyHeap, b': BodyHeap, s: set<Ptr>, live: set<Ptr>, store: Store, slots: Slots, loose: set<Ptr>,
                   names: Names, hashOf: Bytes -> nat, subhashOf: Bytes -> nat)
    requires Owns(b, s, store, slots, loose) && Keyed(b, live, store, names, hashOf, subhashOf) && live <= s
    requires forall e | e in s && e in b :: e in b' && b'[e] == b[e]
    ensures Owns(b', s, store, slots, loose) && Keyed(b', live, store, names, hashOf, subhashOf)
    ensures Meaning(b', store, names) == Meaning(b, store, names)
  {
    OwnsIs(b, s, store, slots, loose);
    OwnsFrame(b, b', s, store, slots, loose);
    KeyedFrame(b, b', live, store, store, names, hashOf, subhashOf);
  }

  lemma SpreadDifferent(body: Body)
    requires Spread(body)
    ensures Different(body.key, body.value, body.subkeys, body.attrs)
  {
    assert FieldOf(body, KEY) == body.key && FieldOf(body, VALUE) == body.value;
    assert FieldOf(body, SUBKEYS) == body.subkeys && FieldOf(body, ATTRS) == body.attrs;
  }

  /** The chains an ELEMENT let go of, seen as gathered. */
  lemma GatheredReleased(b: BodyHeap, s: set<Ptr>, store: Store, slots: Slots, loose: set<Ptr>, e: Ptr)
    requires Owns(b, s, store, slots, loose) && e in s
    ensures e in b && Gathered(store - Fields(b[e]), loose, store, loose + Fields(b[e]), Fields(b[e]))
  {
    OwnsReleased(b, s, store, slots, loose, e);
    LooseIn(b, s, store, slots, loose);
  }

  /** What the live ELEMENTs say does not depend on the chains of another ELEMENT. */
  lemma KeyedReduced(b: BodyHeap, s: set<Ptr>, live: set<Ptr>, store: Store, slots: Slots, loose: set<Ptr>, e: Ptr,
                     names: Names, hashOf: Bytes -> nat, subhashOf: Bytes -> nat)
    requires Owns(b, s, store, slots, loose) && live <= s && e in s && e !in live && e in b
    requires Keyed(b, live, store, names, hashOf, subhashOf)
    ensures Keyed(b, live, store - Fields(b[e]), names, hashOf, subhashOf)
    ensures Meaning(b, store - Fields(b[e]), names) == Meaning(b, store, names)
  {
    OwnsIs(b, s, store, slots, loose);
    FieldsAre(b[e]);
    assert forall q | q in Fields(b[e]) :: q in slots && slots[q].element == e;
    forall e1, t: PageType | e1 in live && e1 in b
      ensures Text(store - Fields(b[e]), FieldOf(b[e1], t)) == Text(store, FieldOf(b[e1], t))
    {
      var p := FieldOf(b[e1], t);
      assert p != NULL ==> p in slots && slots[p] == Slot(e1, t);
    }
    KeyedFrame(b, b, live, store, store - Fields(b[e]), names, hashOf, subhashOf);
  }

  /** The body of one live ELEMENT is written, all but its key and hashes: only what is stored under its key changes. */
  lemma KeyedRewritten(b: BodyHeap, live: set<Ptr>, store: Store, store': Store, names: Names, hashOf: Bytes -> nat,
                       subhashOf: Bytes -> nat,
                       e: Ptr, body: Body)
    requires Keyed(b, live, store, names, hashOf, subhashOf) && e in live && e in b
    requires body.key == b[e].key && body.hash == b[e].hash && body.subhash == b[e].subhash && b[e].key in store
    requires Text(store', body.key) == Text(store, body.key)
    requires forall e1, t: PageType | e1 in live && e1 in b && e1 != e ::
      Text(store', FieldOf(b[e1], t)) == Text(store, FieldOf(b[e1], t))
    ensures Keyed(b[e := body], live, store', names, hashOf, subhashOf)
    ensures Meaning(b[e := body], store', names) == Meaning(b, store, names)[store[b[e].key] := EntryOf(body, store')]
  {
    KeyedIs(b, live, store, names, hashOf, subhashOf);
    var b' := b[e := body];
    forall e1 | e1 in live
      ensures b'[e1].key in store' && store'[b'[e1].key] == store[b[e1].key]
      ensures e1 != e ==> EntryOf(b'[e1], store') == EntryOf(b[e1], store)
    {
      if e1 != e {
        assert Text(store', FieldOf(b[e1], KEY)) == Text(store, FieldOf(b[e1], KEY));
        assert Text(store', FieldOf(b[e1], VALUE)) == Text(store, FieldOf(b[e1], VALUE));
        assert Text(store', FieldOf(b[e1], SUBKEYS)) == Text(store, FieldOf(b[e1], SUBKEYS));
        assert Text(store', FieldOf(b[e1], ATTRS)) == Text(store, FieldOf(b[e1], ATTRS));
      }
    }
    KeyedIs(b', live, store', names, hashOf, subhashOf);
  }

  /** Two different ELEMENTs share no chain. */
  lemma OwnersDiffer(b: BodyHeap, s: set<Ptr>, store: Store, slots: Slots, loose: set<Ptr>, e1: Ptr, e2: Ptr,
                     t: PageType)
    requires Owns(b, s, store, slots, loose) && e1 in s && e2 in s && e1 != e2
    ensures e1 in b && e2 in b && FieldOf(b[e1], t) !in Fields(b[e2]) && FieldOf(b[e1], t) !in loose
    ensures FieldOf(b[e1], t) != NULL ==> FieldOf(b[e1], t) in store
  {
    OwnsIs(b, s, store, slots, loose);
    FieldsAre(b[e2]);
  }

  lemma NoEmptyKey(b: BodyHeap, live: set<Ptr>, store: Store, names: Names, hashOf: Bytes -> nat,
                   subhashOf: Bytes -> nat)
    requires Keyed(b, live, store, names, hashOf, subhashOf)
    ensures [] !in names
  {
    KeyedIs(b, live, store, names, hashOf, subhashOf);
  }

  lemma OwnsField(b: BodyHeap, s: set<Ptr>, store: Store, slots: Slots, loose: set<Ptr>, e: Ptr, t: PageType)
    requires Owns(b, s, store, slots, loose) && e in s
    ensures
      && e in b && NULL !in store
      && (FieldOf(b[e], t) == NULL || (FieldOf(b[e], t) in store && store[FieldOf(b[e], t)] != []))
  {
    OwnsIs(b, s, store, slots, loose);
  }

  /** If the key is in m, no other key of m has both its hashes. */
  ghost predicate Twinless(m: Content, key: Bytes, hashOf: Bytes -> nat, subhashOf: Bytes -> nat)
  {
    forall u: nat {:trigger Look(TWINLESS, u)} :: Look(TWINLESS, u) ==>
      key in m ==> forall k | k in m && k != key :: hashOf(k) != hashOf(key) || subhashOf(k) != subhashOf(key)
  }

  /** When no other key has both hashes of one, no other live ELEMENT has those of its ELEMENT. */
  lemma TwinlessElement(b: BodyHeap, live: set<Ptr>, store: Store, names: Names, hashOf: Bytes -> nat,
                        subhashOf: Bytes -> nat, key: Bytes)
    requires Keyed(b, live, store, names, hashOf, subhashOf) && key in names
    requires Twinless(Meaning(b, store, names), key, hashOf, subhashOf)
    ensures names[key] in b
    ensures forall q | q in live && q in b && q != names[key] ::
      b[q].hash != b[names[key]].hash || b[q].subhash != b[names[key]].subhash
  {
    assert Look(TWINLESS, 0);
    KeyedOf(b, live, store, names, hashOf, subhashOf, key);
    forall q | q in live && q in b && q != names[key]
      ensures b[q].hash != b[names[key]].hash || b[q].subhash != b[names[key]].subhash
    {
      KeyedAt(b, live, store, names, hashOf, subhashOf, q);
      assert store[b[q].key] in Meaning(b, store, names);
    }
  }

  /** What an ELEMENT stores does not depend on the chains of another. */
  lemma EntryKept(b: BodyHeap, s: set<Ptr>, store: Store, slots: Slots, loose: set<Ptr>, e1: Ptr, e2: Ptr)
    requires Owns(b, s, store, slots, loose) && e1 in s && e2 in s && e1 != e2
    ensures e1 in b && e2 in b && EntryOf(b[e1], store - Fields(b[e2])) == EntryOf(b[e1], store)
    ensures Text(store - Fields(b[e2]), b[e1].key) == Text(store, b[e1].key)
  {
    OwnersDiffer(b, s, store, slots, loose, e1, e2, KEY);
    OwnersDiffer(b, s, store, slots, loose, e1, e2, VALUE);
    OwnersDiffer(b, s, store, slots, loose, e1, e2, SUBKEYS);
    OwnersDiffer(b, s, store, slots, loose, e1, e2, ATTRS);
  }

  // ---------------------------------------------------------------- replacing one chain of an ELEMENT

  /** The entry with one part replaced. */
  function WithPart(entry: Entry, t: PageType, bytes: Bytes): Entry
  {
    match t
    case KEY => entry
    case VALUE => entry.(value := bytes)
    case SUBKEYS => entry.(subkeys := bytes)
    case ATTRS => entry.(attrs := bytes)
  }

  /** Bytes overwritten from an offset within them, or at their end, on. */
  function WriteAt(old': Bytes, offset: nat, bytes: Bytes): Bytes
    requires offset <= |old'|
  {
    old'[..offset] + bytes + if offset + |bytes| <= |old'| then old'[offset + |bytes|..] else []
  }

  /** The bytes are at the offset; those before and behind them are the old ones. */
  ghost predicate WrittenInto(old': Bytes, offset: nat, bytes: Bytes, r: Bytes)
  {
    && |r| == (if offset + |bytes| <= |old'| then |old'| else offset + |bytes|)
    && r[offset..offset + |bytes|] == bytes
    && forall i | 0 <= i < |old'| && (i < offset || offset + |bytes| <= i) :: r[i] == old'[i]
  }

  lemma WrittenAt(old': Bytes, offset: nat, bytes: Bytes)
    requires offset <= |old'|
    ensures WrittenInto(old', offset, bytes, WriteAt(old', offset, bytes))
  {
  }

  /** The key is there, if only with nothing under it. */
  function Opened(m: Content, key: Bytes): Content
  {
    if key in m then m else m[key := Entry([], [], [])]
  }

  /** The entry under its new key: new attributes take the place of the old ones, if there are any. */
  function WithAttrs(entry: Entry, attrs: Bytes): Entry
  {
    if attrs == [] then entry else entry.(attrs := attrs)
  }

  function Renamed(m: Content, oldKey: Bytes, newKey: Bytes, attrs: Bytes): Content
    requires oldKey in m
  {
    (m - {oldKey})[newKey := WithAttrs(m[oldKey], attrs)]
  }

  /** The body of an ELEMENT after a new chain for the bytes took the place of one of its chains. */
  lemma FieldReplaced(body: Body, t: PageType, p: Ptr, bytes: Bytes, store: Store, loose: set<Ptr>)
    requires
      && NULL !in store && Spread(body) && Measured(body, store) && Filled(store, Fields(body))
      && Fields(body) <= store.Keys
    requires Carries(store, p, bytes) && (p == NULL || p !in Fields(body))
    ensures
      var body', q := WithField(body, t, p, |bytes|), FieldOf(body, t);
      var store' := store - ({q} - {NULL});
      && Spread(body') && Measured(body', store') && Filled(store', Fields(body'))
      && Fields(body') == Fields(body) - {q} + ({p} - {NULL})
      && (forall t': PageType :: FieldOf(body', t') == if t' == t then p else FieldOf(body, t'))
      && Text(store', p) == bytes
      && (forall t': PageType | t' != t :: Text(store', FieldOf(body, t')) == Text(store, FieldOf(body, t')))
  {
    FieldsAre(body);
    WithFieldAt(body, t, p, |bytes|);
    WithFieldSet(body, t, p, |bytes|);
  }

  lemma WithFieldAt(body: Body, t: PageType, p: Ptr, length: nat)
    ensures forall t': PageType ::
      FieldOf(WithField(body, t, p, length), t') == if t' == t then p else FieldOf(body, t')
    ensures forall t': PageType ::
      LengthOf(WithField(body, t, p, length), t') == if t' == t then length else LengthOf(body, t')
  {
  }

  lemma WithFieldSet(body: Body, t: PageType, p: Ptr, length: nat)
    requires Spread(body) && (p == NULL || p !in Fields(body))
    ensures Fields(WithField(body, t, p, length)) == Fields(body) - {FieldOf(body, t)} + ({p} - {NULL})
  {
    assert
      && body.key == FieldOf(body, KEY) && body.value == FieldOf(body, VALUE) && body.subkeys == FieldOf(body, SUBKEYS)
      && body.attrs == FieldOf(body, ATTRS);
  }

  /** The same for a chain that may be none. */
  lemma OwnsFreedIfAny(b: BodyHeap, s: set<Ptr>, store: Store, slots: Slots, loose: set<Ptr>, q: Ptr)
    requires Owns(b, s, store, slots, loose) && (q == NULL || q in loose)
    ensures Owns(b, s, store - ({q} - {NULL}), slots, loose - ({q} - {NULL}))
  {
    if q == NULL {
      assert store - ({q} - {NULL}) == store && loose - ({q} - {NULL}) == loose;
    } else {
      assert {q} - {NULL} == {q};
      OwnsFreed(b, s, store, slots, loose, q);
    }
  }

  lemma OwnsReplaced(b: BodyHeap, s: set<Ptr>, store0: Store, store: Store, slots: Slots, loose0: set<Ptr>,
                     loose: set<Ptr>, e: Ptr, t: PageType, p: Ptr, bytes: Bytes)
    requires Owns(b, s, store, slots, loose) && Gathered(store0, loose0, store, loose, {p} - {NULL}) && e in s
    requires Carries(store, p, bytes)
    ensures e in b && (FieldOf(b[e], t) == NULL || FieldOf(b[e], t) in store) && FieldOf(b[e], t) !in loose
    ensures
      var body, q := WithField(b[e], t, p, |bytes|), FieldOf(b[e], t);
      && Owns(b[e := body], s, store - ({q} - {NULL}), slots - Fields(b[e]) + SlotsOf(e, body), loose0)
      && EntryOf(body, store - ({q} - {NULL})) == WithPart(EntryOf(b[e], store), t, bytes)
      && (t != KEY ==> body.key == b[e].key && Text(store - ({q} - {NULL}), body.key) == Text(store, b[e].key))
      && body.hash == b[e].hash && body.subhash == b[e].subhash
  {
    OwnsReleased(b, s, store, slots, loose, e);
    LooseIn(b, s, store, slots, loose);
    GatheredIs(store0, loose0, store, loose, {p} - {NULL});
    FieldsAre(b[e]);
    var body, q := WithField(b[e], t, p, |bytes|), FieldOf(b[e], t);
    FieldReplaced(b[e], t, p, bytes, store, loose);
    var slots1, loose1 := slots - Fields(b[e]), loose + Fields(b[e]);
    OwnsFreedIfAny(b, s - {e}, store, slots1, loose1, q);
    OwnsAdopted(b, s - {e}, store - ({q} - {NULL}), slots1, loose1 - ({q} - {NULL}), e, body);
    assert s - {e} + {e} == s;
    LooseAgain(loose0, {p} - {NULL}, Fields(b[e]), {q} - {NULL}, Fields(body));
    assert FieldOf(b[e], KEY) == b[e].key;
  }

  /** What was gathered, and what was released but for the chain that is freed, is owned again. */
  lemma LooseAgain(loose0: set<Ptr>, ps: set<Ptr>, fields: set<Ptr>, freed: set<Ptr>, fields': set<Ptr>)
    requires loose0 !! ps && loose0 !! fields && freed <= fields && fields' == fields - freed + ps
    ensures loose0 + ps + fields - freed - fields' == loose0
  {
  }

  lemma OwnsSame(b: BodyHeap, s: set<Ptr>, store0: Store, store: Store, slots: Slots, loose0: set<Ptr>, e: Ptr)
    requires Owns(b, s, store0, slots, loose0) && e in s && Extends(store0, store)
    ensures e in b && EntryOf(b[e], store) == EntryOf(b[e], store0)
  {
    OwnsField(b, s, store0, slots, loose0, e, VALUE);
    OwnsField(b, s, store0, slots, loose0, e, SUBKEYS);
    OwnsField(b, s, store0, slots, loose0, e, ATTRS);
    assert
      && FieldOf(b[e], VALUE) == b[e].value && FieldOf(b[e], SUBKEYS) == b[e].subkeys
      && FieldOf(b[e], ATTRS) == b[e].attrs;
  }

  lemma KeyedReplaced(b: BodyHeap, live: set<Ptr>, store0: Store, store: Store, slots: Slots, loose0: set<Ptr>,
                      loose: set<Ptr>, e: Ptr, t: PageType, p: Ptr, bytes: Bytes, names: Names, hashOf: Bytes -> nat,
                      subhashOf: Bytes -> nat)
    requires
      && Owns(b, live, store, slots, loose) && Owns(b, live, store0, slots, loose0)
      && Gathered(store0, loose0, store, loose, {p} - {NULL})
    requires Keyed(b, live, store0, names, hashOf, subhashOf) && e in live && t != KEY && Carries(store, p, bytes)
    ensures e in b && b[e].key in store0
    ensures
      var body, q := WithField(b[e], t, p, |bytes|), FieldOf(b[e], t);
      && Keyed(b[e := body], live, store - ({q} - {NULL}), names, hashOf, subhashOf)
      && Meaning(b[e := body], store - ({q} - {NULL}), names) ==
        Meaning(b, store0, names)[store0[b[e].key] := WithPart(EntryOf(b[e], store0), t, bytes)]
  {
    GatheredIs(store0, loose0, store, loose, {p} - {NULL});
    OwnsSame(b, live, store0, store, slots, loose0, e);
    OwnsReplaced(b, live, store0, store, slots, loose0, loose, e, t, p, bytes);
    KeyedAt(b, live, store0, names, hashOf, subhashOf, e);
    var body, q := WithField(b[e], t, p, |bytes|), FieldOf(b[e], t);
    var store' := store - ({q} - {NULL});
    forall e1, t1: PageType | e1 in live && e1 in b && e1 != e
      ensures Text(store', FieldOf(b[e1], t1)) == Text(store0, FieldOf(b[e1], t1))
    {
      OwnersDiffer(b, live, store0, slots, loose0, e1, e, t1);
      FieldsAre(b[e]);
    }
    KeyedRewritten(b, live, store0, store', names, hashOf, subhashOf, e, body);
  }

  // ---------------------------------------------------------------- renaming

  /**
   The body of the ELEMENT under the new key: its own key chain, perhaps its own attributes, the other chains of the
   old one.
   */
  function RenamedBody(body: Body, hash: nat, subhash: nat, keyPage: Ptr, key: Bytes, attrPage: Ptr, attrs: Bytes): Body
  {
    Body(hash, subhash, keyPage, body.value, body.subkeys, if attrs == [] then body.attrs else attrPage,
         |key|, body.vallength, body.skeylength, if attrs == [] then body.attrlength else |attrs|)
  }

  /** What is left to the ELEMENT under the old key. */
  function StrippedBody(body: Body, attrs: Bytes): Body
  {
    Body(body.hash, body.subhash, body.key, NULL, NULL, if attrs == [] then NULL else body.attrs,
         body.keylength, 0, 0, if attrs == [] then 0 else body.attrlength)
  }

  lemma RenamedFields(body: Body, hash: nat, subhash: nat, keyPage: Ptr, key: Bytes, attrPage: Ptr, attrs: Bytes,
                      store: Store)
    requires
      && NULL !in store && Spread(body) && Measured(body, store) && Filled(store, Fields(body))
      && Fields(body) <= store.Keys
    requires
      && key != [] && Carries(store, keyPage, key) && Carries(store, attrPage, attrs)
      && Different(keyPage, attrPage, NULL, NULL)
    requires keyPage !in Fields(body) && attrPage !in Fields(body)
    ensures
      var new', old' := RenamedBody(body, hash, subhash, keyPage, key, attrPage, attrs), StrippedBody(body, attrs);
      && Spread(new') && Measured(new', store) && Filled(store, Fields(new'))
      && Spread(old') && Measured(old', store) && Filled(store, Fields(old'))
      && Fields(new') !! Fields(old') && Fields(new') + Fields(old') == Fields(body) + ({keyPage, attrPage} - {NULL})
      && Text(store, new'.key) == key
      && EntryOf(new', store) == WithAttrs(EntryOf(body, store), attrs)
  {
    var new', old' := RenamedBody(body, hash, subhash, keyPage, key, attrPage, attrs), StrippedBody(body, attrs);
    SpreadDifferent(body);
    assert LengthOf(body, KEY) == body.keylength && LengthOf(body, VALUE) == body.vallength;
    assert LengthOf(body, SUBKEYS) == body.skeylength && LengthOf(body, ATTRS) == body.attrlength;
    MeasuredBy(body, store);
    DifferentSpread(new');
    DifferentSpread(old');
    MeasuredFrom(new', store);
    MeasuredFrom(old', store);
  }

  lemma MeasuredBy(body: Body, store: Store)
    requires Measured(body, store)
    ensures body.keylength == |Text(store, body.key)| && body.vallength == |Text(store, body.value)|
    ensures body.skeylength == |Text(store, body.subkeys)| && body.attrlength == |Text(store, body.attrs)|
  {
    assert LengthOf(body, KEY) == body.keylength && LengthOf(body, VALUE) == body.vallength;
    assert LengthOf(body, SUBKEYS) == body.skeylength && LengthOf(body, ATTRS) == body.attrlength;
  }

  lemma MeasuredFrom(body: Body, store: Store)
    requires body.keylength == |Text(store, body.key)| && body.vallength == |Text(store, body.value)|
    requires body.skeylength == |Text(store, body.subkeys)| && body.attrlength == |Text(store, body.attrs)|
    ensures Measured(body, store)
  {
    forall t: PageType
      ensures LengthOf(body, t) == |Text(store, FieldOf(body, t))|
    {
    }
  }

  lemma DifferentSpread(body: Body)
    requires Different(body.key, body.value, body.subkeys, body.attrs)
    ensures Spread(body)
  {
  }

  /** The chains of the old ELEMENT are divided between it and the new one, which also takes the new chains. */
  lemma OwnsRenamed(b: BodyHeap, s: set<Ptr>, store: Store, slots: Slots, loose0: set<Ptr>, loose: set<Ptr>, e: Ptr,
                    e2: Ptr,
                    hash: nat, subhash: nat, keyPage: Ptr, key: Bytes, attrPage: Ptr, attrs: Bytes)
    requires Owns(b, s, store, slots, loose) && e in s && e2 !in s
    requires
      && key != [] && Carries(store, keyPage, key) && Carries(store, attrPage, attrs)
      && Different(keyPage, attrPage, NULL, NULL)
    requires loose == loose0 + ({keyPage, attrPage} - {NULL}) && loose0 !! ({keyPage, attrPage} - {NULL})
    ensures e in b
    ensures
      var new', old' := RenamedBody(b[e], hash, subhash, keyPage, key, attrPage, attrs), StrippedBody(b[e], attrs);
      && Owns(b[e2 := new'][e := old'], s + {e2}, store, slots - Fields(b[e]) + SlotsOf(e2, new') + SlotsOf(e, old'),
           loose0)
      && Text(store, new'.key) == key
      && EntryOf(new', store) == WithAttrs(EntryOf(b[e], store), attrs)
  {
    OwnsReleased(b, s, store, slots, loose, e);
    LooseIn(b, s, store, slots, loose);
    var body := b[e];
    assert keyPage !in Fields(body) && attrPage !in Fields(body);
    RenamedFields(body, hash, subhash, keyPage, key, attrPage, attrs, store);
    var new', old' := RenamedBody(body, hash, subhash, keyPage, key, attrPage, attrs), StrippedBody(body, attrs);
    var slots1, loose1 := slots - Fields(body), loose + Fields(body);
    OwnsAdopted(b, s - {e}, store, slots1, loose1, e2, new');
    OwnsAdopted(b[e2 := new'], s - {e} + {e2}, store, slots1 + SlotsOf(e2, new'), loose1 - Fields(new'), e, old');
    assert s - {e} + {e2} + {e} == s + {e2};
    assert loose1 - Fields(new') - Fields(old') == loose0;
  }
}
