/**
 A byte string of an ELEMENT that moves to another chain: what the ELEMENTs stand for stays the same.
 */
module ChainMoves {
  import opened Layout
  import opened ElementTree
  import opened Records

  /** The store after a copy of chain q was made in p and q was freed. */
  function MovedStore(store: Store, q: Ptr, p: Ptr): Store
    requires q in store
  {
    store[p := store[q]] - {q}
  }

  /** The texts of all members are the same after one chain moved. */
  lemma TextsMoved(b: BodyHeap, live: set<Ptr>, store: Store, slots: Slots, loose: set<Ptr>, e: Ptr, t: PageType,
                   p: Ptr, e1: Ptr, t1: PageType)
    requires
      && Owns(b, live, store, slots, loose) && e in live && e1 in live && e in b && e1 in b && FieldOf(b[e], t) in store
    requires p != NULL && p !in store
    ensures
      var q, body := FieldOf(b[e], t), if e1 == e then WithField(b[e], t, p, LengthOf(b[e], t)) else b[e1];
      Text(MovedStore(store, q, p), FieldOf(body, t1)) == Text(store, FieldOf(b[e1], t1))
  {
    OwnsIs(b, live, store, slots, loose);
    var q := FieldOf(b[e], t);
    if e1 == e && t1 == t {
      assert FieldOf(WithField(b[e], t, p, LengthOf(b[e], t)), t) == p;
    } else {
      if FieldOf(b[e1], t1) != NULL {
        assert slots[FieldOf(b[e1], t1)] == Slot(e1, t1) && slots[q] == Slot(e, t);
      }
      WithFieldAt(b[e], t, p, LengthOf(b[e], t));
    }
  }

  /** The keys, and what is stored under them, are told by the texts. */
  lemma KeyedSameTexts(b: BodyHeap, b': BodyHeap, live: set<Ptr>, store: Store, store': Store, names: Names,
                       hashOf: Bytes -> nat, subhashOf: Bytes -> nat)
    requires Keyed(b, live, store, names, hashOf, subhashOf) && NULL !in store'
    requires forall e | e in live && e in b :: e in b' && b'[e].hash == b[e].hash && b'[e].subhash == b[e].subhash
    requires forall e, t: PageType | e in live && e in b && e in b' ::
      Text(store', FieldOf(b'[e], t)) == Text(store, FieldOf(b[e], t))
    ensures Keyed(b', live, store', names, hashOf, subhashOf)
    ensures Meaning(b', store', names) == Meaning(b, store, names)
  {
    KeyedIs(b, live, store, names, hashOf, subhashOf);
    forall e | e in live
      ensures
        && b'[e].key in store' && store'[b'[e].key] == store[b[e].key] && EntryOf(b'[e], store') == EntryOf(b[e], store)
    {
      var k := store[b[e].key];
      assert Text(store', FieldOf(b'[e], KEY)) == Text(store, FieldOf(b[e], KEY)) == k && k != [];
      assert Text(store', FieldOf(b'[e], VALUE)) == Text(store, FieldOf(b[e], VALUE));
      assert Text(store', FieldOf(b'[e], SUBKEYS)) == Text(store, FieldOf(b[e], SUBKEYS));
      assert Text(store', FieldOf(b'[e], ATTRS)) == Text(store, FieldOf(b[e], ATTRS));
    }
    KeyedIs(b', live, store', names, hashOf, subhashOf);
  }

  /** One chain of a live ELEMENT moved from q to p. */
  lemma KeyedMoved(b: BodyHeap, live: set<Ptr>, store: Store, slots: Slots, loose: set<Ptr>, e: Ptr, t: PageType,
                   p: Ptr, names: Names, hashOf: Bytes -> nat, subhashOf: Bytes -> nat)
    requires Owns(b, live, store, slots, loose) && Keyed(b, live, store, names, hashOf, subhashOf)
    requires e in live && e in b && FieldOf(b[e], t) in store && p != NULL && p !in store
    ensures
      var b', store' := b[e := WithField(b[e], t, p, LengthOf(b[e], t))], MovedStore(store, FieldOf(b[e], t), p);
      Keyed(b', live, store', names, hashOf, subhashOf) && Meaning(b', store', names) == Meaning(b, store, names)
  {
    var b', store' := b[e := WithField(b[e], t, p, LengthOf(b[e], t))], MovedStore(store, FieldOf(b[e], t), p);
    LooseIn(b, live, store, slots, loose);
    forall e1, t1: PageType | e1 in live && e1 in b
      ensures Text(store', FieldOf(b'[e1], t1)) == Text(store, FieldOf(b[e1], t1))
    {
      TextsMoved(b, live, store, slots, loose, e, t, p, e1, t1);
    }
    KeyedSameTexts(b, b', live, store, store', names, hashOf, subhashOf);
  }

  /** The chain p is owned where q was. */
  lemma OwnsMoved(b: BodyHeap, live: set<Ptr>, store: Store, slots: Slots, loose: set<Ptr>, e: Ptr, t: PageType, p: Ptr)
    requires
      && Owns(b, live, store, slots, loose) && e in live && e in b && FieldOf(b[e], t) in store && p != NULL
      && p !in store
    ensures
      var body := WithField(b[e], t, p, LengthOf(b[e], t));
      Owns(b[e := body], live, MovedStore(store, FieldOf(b[e], t), p), slots - Fields(b[e]) + SlotsOf(e, body), loose)
  {
    LooseIn(b, live, store, slots, loose);
    var bytes, q := store[FieldOf(b[e], t)], FieldOf(b[e], t);
    GatheredNone(store, loose);
    GatheredMore(store, loose, store, loose, {}, p, bytes);
    OneGathered(p);
    OwnsReserved(b, live, store, slots, loose, p, bytes);
    OwnsField(b, live, store, slots, loose, e, t);
    LengthIs(b, live, store, slots, loose, e, t);
    OwnsReplaced(b, live, store, store[p := bytes], slots, loose, loose + {p}, e, t, p, bytes);
    OneGathered(q);
  }

  lemma OneGathered(p: Ptr)
    requires p != NULL
    ensures {} + {p} == {p} - {NULL} && {p} - {NULL} == {p}
  {
  }

  lemma LengthIs(b: BodyHeap, live: set<Ptr>, store: Store, slots: Slots, loose: set<Ptr>, e: Ptr, t: PageType)
    requires Owns(b, live, store, slots, loose) && e in live
    ensures e in b && LengthOf(b[e], t) == |Text(store, FieldOf(b[e], t))|
  {
    OwnsIs(b, live, store, slots, loose);
    assert Measured(b[e], store);
  }
}
