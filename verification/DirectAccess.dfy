/**
 Writing a part of a value in its place (K2HDAccess::Open, SetWriteOffset, Write): the chain is written at an offset,
 and the recorded length of the value follows.
 */
module DirectAccess {
  import opened Layout
  import opened AreaLayout
  import opened ElementTree
  import opened Forest
  import opened Records
  import opened ChainMoves
  import opened K2HShm
  import ElementStore
  import PageArena
  import opened PageStore
  import opened PageWrites
  import opened PagePacking

  // ---------------------------------------------------------------- one chain with other bytes

  /** The texts of all members but one stay the same when one chain gets other bytes. */
  lemma TextsBeside(b: BodyHeap, live: set<Ptr>, store: Store, slots: Slots, loose: set<Ptr>, e: Ptr, t: PageType,
                    bytes: Bytes, e1: Ptr, t1: PageType)
    requires Owns(b, live, store, slots, loose) && e in live && e1 in live && (e1 != e || t1 != t)
    requires e in b && FieldOf(b[e], t) != NULL
    ensures e1 in b
    ensures Text(store[FieldOf(b[e], t) := bytes], FieldOf(b[e1], t1)) == Text(store, FieldOf(b[e1], t1))
  {
    OwnsIs(b, live, store, slots, loose);
  }

  /** The ELEMENTs own the same chains after one has got other bytes and its length is recorded. */
  lemma OwnsRewritten(b: BodyHeap, live: set<Ptr>, store: Store, slots: Slots, loose: set<Ptr>, e: Ptr, t: PageType,
                      bytes: Bytes)
    requires Owns(b, live, store, slots, loose) && e in live && e in b && FieldOf(b[e], t) in store && bytes != []
    ensures Owns(b[e := WithField(b[e], t, FieldOf(b[e], t), |bytes|)], live, store[FieldOf(b[e], t) := bytes], slots,
      loose)
  {
    OwnsIs(b, live, store, slots, loose);
    var p := FieldOf(b[e], t);
    var body := WithField(b[e], t, p, |bytes|);
    var b', store' := b[e := body], store[p := bytes];
    WithFieldAt(b[e], t, p, |bytes|);
    forall e1 | e1 in live
      ensures e1 in b' && Measured(b'[e1], store')
    {
      assert Measured(b[e1], store);
      forall t1: PageType
        ensures LengthOf(b'[e1], t1) == |Text(store', FieldOf(b'[e1], t1))|
      {
        if e1 != e || t1 != t {
          TextsBeside(b, live, store, slots, loose, e, t, bytes, e1, t1);
        }
      }
    }
    OwnsIs(b', live, store', slots, loose);
  }

  /** What the ELEMENTs stand for changes in this one part. */
  lemma MeaningRewritten(b: BodyHeap, live: set<Ptr>, store: Store, slots: Slots, loose: set<Ptr>, e: Ptr, bytes: Bytes,
                         names: Names, hashOf: Bytes -> nat, subhashOf: Bytes -> nat)
    requires Owns(b, live, store, slots, loose) && Keyed(b, live, store, names, hashOf, subhashOf)
    requires e in live && e in b && b[e].value in store && b[e].key in store
    ensures
      var b', store' := b[e := b[e].(vallength := |bytes|)], store[b[e].value := bytes];
      && Keyed(b', live, store', names, hashOf, subhashOf)
      && Meaning(b', store', names) ==
        Meaning(b, store, names)[store[b[e].key] := WithPart(EntryOf(b[e], store), VALUE, bytes)]
  {
    var body, store' := b[e].(vallength := |bytes|), store[b[e].value := bytes];
    OwnsIs(b, live, store, slots, loose);
    forall e1, t1: PageType | e1 in live && e1 in b && e1 != e
      ensures Text(store', FieldOf(b[e1], t1)) == Text(store, FieldOf(b[e1], t1))
    {
      TextsBeside(b, live, store, slots, loose, e, VALUE, bytes, e1, t1);
    }
    TextsBeside(b, live, store, slots, loose, e, VALUE, bytes, e, KEY);
    TextsBeside(b, live, store, slots, loose, e, VALUE, bytes, e, SUBKEYS);
    TextsBeside(b, live, store, slots, loose, e, VALUE, bytes, e, ATTRS);
    KeyedRewritten(b, live, store, store', names, hashOf, subhashOf, e, body);
  }

  /** Overwriting within the bytes, or at their end, leaves nothing open. */
  lemma OverwrittenAt(a: Bytes, b: Bytes, offset: nat, bytes: Bytes)
    requires Overwritten(a, b, offset, bytes) && offset <= |a|
    ensures b == WriteAt(a, offset, bytes)
  {
  }

  /** The recorded length of a value after a write that ended. */
  function LengthAfter(length: nat, offset: nat, bytes: Bytes): nat
  {
    if length < offset + |bytes| then offset + |bytes| else length
  }

  /** What a write that ended does. */
  lemma ValueWritten(b: BodyHeap, live: set<Ptr>, store: Store, store': Store, slots: Slots, loose: set<Ptr>,
                     names: Names, hashOf: Bytes -> nat, subhashOf: Bytes -> nat, e: Ptr, key: Bytes, offset: nat,
                     bytes: Bytes)
    requires Sound(live, b, live, store, slots, loose, names, hashOf, subhashOf) && key in names && names[key] == e
    requires e in b && Rewritten(store, store', b[e].value) && bytes != [] && offset <= |store[b[e].value]|
    requires Overwritten(store[b[e].value], store'[b[e].value], offset, bytes)
    ensures b[e].vallength == |store[b[e].value]|
    ensures
      var b', m := b[e := b[e].(vallength := LengthAfter(b[e].vallength, offset, bytes))], Meaning(b, store, names);
      && Sound(live, b', live, store', slots, loose, names, hashOf, subhashOf) && key in m && offset <= |m[key].value|
      && Meaning(b', store', names) == m[key := WithPart(m[key], VALUE, WriteAt(m[key].value, offset, bytes))]
  {
    KeyedOf(b, live, store, names, hashOf, subhashOf, key);
    var v := b[e].value;
    OverwrittenAt(store[v], store'[v], offset, bytes);
    assert FieldOf(b[e], VALUE) == v && LengthOf(b[e], VALUE) == b[e].vallength;
    LengthIs(b, live, store, slots, loose, e, VALUE);
    OwnsRewritten(b, live, store, slots, loose, e, VALUE, store'[v]);
    MeaningRewritten(b, live, store, slots, loose, e, store'[v], names, hashOf, subhashOf);
    assert WithField(b[e], VALUE, v, |store'[v]|) == b[e].(vallength := LengthAfter(b[e].vallength, offset, bytes));
  }

  // ---------------------------------------------------------------- writing

  /** The lookup of a key that is to be written to; the key is made if it is not there. */
  method Open(shm: Shm, key: Bytes) returns (ok: bool, e: Ptr)
    requires shm.Valid() && key != []
    requires key !in shm.Abs() ==>
      FitsIn(shm.Abs(), shm.index.assign, shm.index.maskBits, shm.index.collisionBits, key, shm.hashOf, shm.subhashOf)
    modifies shm`slots, shm`loose, shm`names, shm.index, shm.pages, shm.areas, shm.areas.table
    ensures shm.Valid() && shm.loose == old(shm.loose)
    ensures Finer(old(shm.index.assign), old(shm.index.maskBits), shm.index.assign, shm.index.maskBits,
        shm.index.collisionBits)
    ensures ok ==>
      shm.Abs() == Opened(old(shm.Abs()), key) && key in shm.names && e == shm.names[key]
    ensures !ok ==> MAX_K2HAREA_COUNT <= shm.areas.count + 1
  {
    shm.NamesAre();
    ghost var m, ka, n := shm.Abs(), shm.index.assign, shm.index.maskBits;
    var cp;
    cp, e := shm.Lookup(key);
    if e != NULL {
      return true, e;
    }
    ghost var ka1 := shm.index.assign;
    FitsInLater(m, m, ka, n, ka1, n, shm.index.collisionBits, key, shm.hashOf, shm.subhashOf);
    ok := shm.Set(key, [], [], []);
    FinerTwice(ka, n, ka1, n, shm.index.assign, shm.index.maskBits, shm.index.collisionBits);
    if ok {
      ghost var ka2, n2 := shm.index.assign, shm.index.maskBits;
      shm.NamesAre();
      cp, e := shm.Lookup(key);
      FinerTwice(ka, n, ka2, n2, shm.index.assign, shm.index.maskBits, shm.index.collisionBits);
    }
  }

  /**
   Writes over the value from an offset on.  The recorded length follows when the value grows.  Without room for
   the pages it needs the write stops where the chain ends, and the recorded length stays what it was.
   */
  method WriteChain(shm: Shm, e: Ptr, bytes: Bytes, offset: nat, ghost key: Bytes) returns (ok: bool)
    requires shm.Valid() && key in shm.names && shm.names[key] == e && bytes != []
    requires e in shm.index.bodies && shm.index.bodies[e].value != NULL
    requires offset <= |Text(shm.pages.store, shm.index.bodies[e].value)|
    modifies shm.index`bodies, shm.pages, shm.areas, shm.areas.table
    ensures ok ==> shm.Valid()
    ensures ok ==>
      var m := old(Meaning(shm.index.bodies, shm.pages.store, shm.names));
      && key in m && offset <= |m[key].value|
      && Meaning(shm.index.bodies, shm.pages.store, shm.names) ==
        m[key := WithPart(m[key], VALUE, WriteAt(m[key].value, offset, bytes))]
    ensures !ok ==> shm.areas.count == MAX_K2HAREA_COUNT && shm.index.bodies == old(shm.index.bodies)
    ensures
      var p := old(shm.index.bodies)[e].value;
      && p in old(shm.pages.store) && Rewritten(old(shm.pages.store), shm.pages.store, p) && p in shm.pages.chains
      && (!ok ==>
        && |shm.pages.store[p]| == Room(shm.pages.capacity, |shm.pages.chains[p]|) && e in shm.index.bodies
        && (shm.index.bodies[e].vallength == |shm.pages.store[p]| <==>
             |old(shm.pages.store)[p]| == |shm.pages.store[p]|))
  {
    ghost var live, store, b, end := shm.index.loc.Keys, shm.pages.store, shm.index.bodies, shm.areas.used;
    KeyedOf(b, live, store, shm.names, shm.hashOf, shm.subhashOf, key);
    OwnsField(b, live, store, shm.slots, shm.loose, e, VALUE);
    var body := shm.index.bodies[e];
    assert FieldOf(body, VALUE) == body.value;
    PackedAt(shm.pages.heads, shm.pages.chains, shm.pages.capacity, body.value);
    var page, isChangeSize, nextWritePos;
    ghost var i;
    ok, page, isChangeSize, nextWritePos, i := shm.pages.SetDataAt(body.value, bytes, offset, shm.PageAreaCount());
    ElementStore.KeptWider(shm.index.bodies, shm.index.links, shm.index.loc, shm.index.free, shm.index.held,
      shm.index.pfreeElements, end, shm.areas.used);
    if ok {
      ValueWritten(b, live, store, shm.pages.store, shm.slots, shm.loose, shm.names, shm.hashOf, shm.subhashOf, e, key,
        offset, bytes);
      if isChangeSize {
        shm.index.WriteBody(e, body.(vallength := offset + |bytes|));
      } else {
        assert b[e := b[e].(vallength := b[e].vallength)] == b;
      }
    } else {
      LengthIs(b, live, store, shm.slots, shm.loose, e, VALUE);
      assert LengthOf(body, VALUE) == body.vallength;
    }
  }

  /** Writes over a value from an offset within it, or at its end, on; a value that is empty gets a chain. */
  method Write(shm: Shm, e: Ptr, bytes: Bytes, offset: nat, ghost key: Bytes) returns (ok: bool)
    requires shm.Valid() && key in shm.names && shm.names[key] == e && bytes != []
    requires
      var m := Meaning(shm.index.bodies, shm.pages.store, shm.names);
      key in m && offset <= |m[key].value|
    modifies shm`slots, shm`loose, shm.index`bodies, shm.pages, shm.areas, shm.areas.table
    ensures ok ==> shm.Valid()
    ensures ok ==>
      var m := old(Meaning(shm.index.bodies, shm.pages.store, shm.names));
      && Meaning(shm.index.bodies, shm.pages.store, shm.names) ==
        m[key := WithPart(m[key], VALUE, WriteAt(m[key].value, offset, bytes))]
    ensures !ok ==> shm.areas.count == MAX_K2HAREA_COUNT
  {
    KeyedOf(shm.index.bodies, shm.index.loc.Keys, shm.pages.store, shm.names, shm.hashOf, shm.subhashOf, key);
    assert Meaning(shm.index.bodies, shm.pages.store, shm.names)[key].value ==
      Text(shm.pages.store, shm.index.bodies[e].value);
    if shm.index.bodies[e].value == NULL {
      OwnsField(shm.index.bodies, shm.index.loc.Keys, shm.pages.store, shm.slots, shm.loose, e, VALUE);
      assert WriteAt([], 0, bytes) == bytes;
      ok := shm.ReplacePage(e, bytes, VALUE, key);
    } else {
      ok := WriteChain(shm, e, bytes, offset, key);
    }
  }
}
