/**
 Removing a key together with its subkeys and theirs (K2HShm::RemoveEx over a key and a transaction list).
 */
module RecursiveRemoval {
  import opened Layout
  import opened Records
  import opened SortedArray
  import opened Subtree
  import opened K2HShm
  import SubKeys

  /** No two keys have both hashes in common. */
  ghost predicate Apart(m: Content, hashOf: Bytes -> nat, subhashOf: Bytes -> nat)
  {
    forall k1, k2 | k1 in m && k2 in m && k1 != k2 :: hashOf(k1) != hashOf(k2) || subhashOf(k1) != subhashOf(k2)
  }

  lemma ApartTwinless(m: Content, key: Bytes, hashOf: Bytes -> nat, subhashOf: Bytes -> nat)
    requires Apart(m, hashOf, subhashOf)
    ensures Twinless(m, key, hashOf, subhashOf)
  {
  }

  /** Removes one key and gives its subkeys, none for an absent key. */
  method RemoveOne(shm: Shm, key: Bytes) returns (subKeys: Sorted<()>)
    requires
      && shm.Valid() && key != []
      && Apart(Meaning(shm.index.bodies, shm.pages.store, shm.names), shm.hashOf, shm.subhashOf)
    modifies shm`slots, shm`loose, shm`names, shm.pages
    modifies shm.index`links, shm.index`bodies, shm.index`ck, shm.index`assign, shm.index`trees, shm.index`loc
    modifies shm.index`pfreeElements, shm.index`freeElementCount, shm.index`free, shm.index`held
    ensures
      && shm.Valid()
      && Meaning(shm.index.bodies, shm.pages.store, shm.names) ==
           old(Meaning(shm.index.bodies, shm.pages.store, shm.names)) - {key}
      && shm.loose == old(shm.loose)
    ensures fresh(subKeys) && subKeys.Valid()
    ensures KeySet(subKeys) ==
      if key in old(Meaning(shm.index.bodies, shm.pages.store, shm.names))
      then Below(old(Meaning(shm.index.bodies, shm.pages.store, shm.names)), key)
      else {}
  {
    ApartTwinless(Meaning(shm.index.bodies, shm.pages.store, shm.names), key, shm.hashOf, shm.subhashOf);
    subKeys := new Sorted();
    shm.NamesAre();
    var cp, e := shm.Lookup(key);
    if e == 0 {
      RemovedAbsent(Meaning(shm.index.bodies, shm.pages.store, shm.names), key);
    } else {
      var bytes := shm.LoadSubkeys(e, key);
      var ending := SubKeys.Load(subKeys, bytes);
      shm.TwinlessStrandsNothing(key);
      shm.RemoveFound(key, cp, e);
    }
  }

  ghost function KeySet(subKeys: Sorted<()>): set<Bytes>
    reads subKeys
  {
    Dict(subKeys.items).Keys
  }

  lemma KeysLess(m: map<Bytes, ()>, k: Bytes)
    requires k in m
    ensures (m - {k}).Keys == m.Keys - {k} && m.Keys == {k} + (m - {k}).Keys
  {
  }

  lemma FirstOut(items: SubKeys.Keys)
    requires Ascending(items) && items != []
    ensures Ascending(items[1..]) && Dict(items).Keys == {items[0].key} + Dict(items[1..]).Keys
  {
    ErasedAscending(items, 0);
    assert items[..0] + items[1..] == items[1..];
    assert Dict(items[1..]) == Dict(items) - {items[0].key} by {
      ErasedDict(items, 0);
    }
    DictAt(items, 0);
    KeysLess(Dict(items), items[0].key);
  }

  /**
   Removes a key and everything below it, depth first, each key before those below it; keys that
   exist grow fewer with every one, so a circle of subkeys comes to its end.
   */
  method RemoveAll(shm: Shm, key: Bytes) returns (ok: bool)
    requires shm.Valid() && Apart(Meaning(shm.index.bodies, shm.pages.store, shm.names), shm.hashOf, shm.subhashOf)
    modifies shm`slots, shm`loose, shm`names, shm.pages
    modifies shm.index`links, shm.index`bodies, shm.index`ck, shm.index`assign, shm.index`trees, shm.index`loc
    modifies shm.index`pfreeElements, shm.index`freeElementCount, shm.index`free, shm.index`held
    ensures shm.Valid() && shm.loose == old(shm.loose) && ok == (key != [])
    ensures Meaning(shm.index.bodies, shm.pages.store, shm.names) ==
        if ok then Pruned(old(Meaning(shm.index.bodies, shm.pages.store, shm.names)), {key})
        else old(Meaning(shm.index.bodies, shm.pages.store, shm.names))
    decreases Meaning(shm.index.bodies, shm.pages.store, shm.names).Keys, 0
  {
    if key == [] {
      return false;
    }
    ghost var m := Meaning(shm.index.bodies, shm.pages.store, shm.names);
    var subKeys := RemoveOne(shm, key);
    if key in m {
      PrunedStep(m, key);
    } else {
      PrunedAbsent(m, key);
      KeysOfNone(subKeys.items);
    }
    if |subKeys.items| > 0 {
      RemoveBelow(shm, subKeys.items);
    } else {
      PrunedNone(m - {key});
      RemovedAbsentKey(m, key);
    }
    ok := true;
  }

  lemma KeysOfNone(items: SubKeys.Keys)
    ensures Dict(items).Keys == {} ==> items == []
  {
    if items != [] {
      assert items[|items| - 1].key in Dict(items);
    }
  }

  lemma RemovedAbsentKey(m: Content, key: Bytes)
    ensures key !in m ==> m - {key} == m
  {
  }

  /** The loop of the recursive removal over the subkeys, each taken off the list when it is done. */
  method RemoveBelow(shm: Shm, subKeys: SubKeys.Keys)
    requires
      && shm.Valid() && Apart(Meaning(shm.index.bodies, shm.pages.store, shm.names), shm.hashOf, shm.subhashOf)
      && Ascending(subKeys)
    modifies shm`slots, shm`loose, shm`names, shm.pages
    modifies shm.index`links, shm.index`bodies, shm.index`ck, shm.index`assign, shm.index`trees, shm.index`loc
    modifies shm.index`pfreeElements, shm.index`freeElementCount, shm.index`free, shm.index`held
    ensures shm.Valid() && shm.loose == old(shm.loose)
    ensures Meaning(shm.index.bodies, shm.pages.store, shm.names) ==
        Pruned(old(Meaning(shm.index.bodies, shm.pages.store, shm.names)), Dict(subKeys).Keys)
    decreases Meaning(shm.index.bodies, shm.pages.store, shm.names).Keys, 1
  {
    ghost var m, done := Meaning(shm.index.bodies, shm.pages.store, shm.names), {};
    PrunedNone(m);
    var left := subKeys;
    while |left| > 0
      invariant shm.Valid() && shm.loose == old(shm.loose) && Ascending(left)
      invariant
        && Dict(subKeys).Keys == done + Dict(left).Keys
        && Meaning(shm.index.bodies, shm.pages.store, shm.names) == Pruned(m, done)
      decreases |left|
    {
      NextBelow(m, done, Dict(subKeys).Keys, left, shm.hashOf, shm.subhashOf);
      var removed := RemoveAll(shm, left[0].key);
      done := done + {left[0].key};
      left := left[1..];
    }
    assert Dict(subKeys).Keys == done;
  }

  lemma NextBelow(m: Content, done: set<Bytes>, all: set<Bytes>, left: SubKeys.Keys, hashOf: Bytes -> nat,
                  subhashOf: Bytes -> nat)
    requires Apart(m, hashOf, subhashOf) && Ascending(left) && left != [] && all == done + Dict(left).Keys
    ensures Pruned(m, done).Keys <= m.Keys && Apart(Pruned(m, done), hashOf, subhashOf)
    ensures left[0].key != [] && Pruned(Pruned(m, done), {left[0].key}) == Pruned(m, done + {left[0].key})
    ensures Ascending(left[1..]) && all == done + {left[0].key} + Dict(left[1..]).Keys
  {
    PrunedWithin(m, done);
    ApartWithin(m, done, hashOf, subhashOf);
    PrunedTwice(m, done, {left[0].key});
    FirstOut(left);
  }

  lemma ApartWithin(m: Content, roots: set<Bytes>, hashOf: Bytes -> nat, subhashOf: Bytes -> nat)
    requires Apart(m, hashOf, subhashOf)
    ensures Apart(Pruned(m, roots), hashOf, subhashOf)
  {
  }
}
