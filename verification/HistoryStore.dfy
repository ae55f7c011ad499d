/**
 Setting a key with history on, in the store itself: K2HShm::Set and K2HShm::RenameForHistory over the attributes
 and subkeys that the ELEMENTs keep as bytes.
 */
module HistoryStore {
  import opened Layout
  import opened AreaLayout
  import opened SizeCodec
  import opened SortedArray
  import opened Records
  import opened K2HShm
  import opened History
  import Attrs
  import SubKeys

  // ---------------------------------------------------------------- what the bytes stand for

  ghost function AttrsOf(bytes: Bytes): AttrMap
  {
    Attrs.Put(map[], Attrs.WalkAll(bytes).attrs)
  }

  ghost function VersionOf(entry: Entry): Version
  {
    Version(entry.value, SubKeys.Listed(entry.subkeys), AttrsOf(entry.attrs))
  }

  ghost function VersionsOf(m: Content): Versions
  {
    map k | k in m :: VersionOf(m[k])
  }

  /** No length in the attributes of a key misleads the loader. */
  ghost predicate Readable(m: Content)
  {
    forall k | k in m :: !Attrs.WalkAll(m[k].attrs).misled
  }

  /** However these attributes are written, their length is a size_t. */
  ghost predicate AttrsFit(attrs: AttrMap)
  {
    forall items: Attrs.AttrList | Ascending(items) && Dict(items) == attrs :: |Attrs.Serialized(items)| < Limit(SIZE_T)
  }

  ghost predicate SubkeysFit(subkeys: set<Bytes>)
  {
    forall items: SubKeys.Keys | Ascending(items) && Dict(items).Keys == subkeys ::
      |SubKeys.Serialized(items)| < Limit(SIZE_T)
  }

  lemma AttrsBack(items: Attrs.AttrList)
    requires Ascending(items) && AttrsFit(Dict(items))
    ensures AttrsOf(Attrs.Serialized(items)) == Dict(items) && !Attrs.WalkAll(Attrs.Serialized(items)).misled
  {
    Attrs.SerializedWalked(items);
    Attrs.PutAll(items);
  }

  // ---------------------------------------------------------------- attributes

  /** K2hAttrBuiltin::DirectSetUniqId. */
  method SetUniqId(attrs: Sorted<Bytes>, oldUid: Bytes, newUid: Bytes)
    requires attrs.Valid()
    modifies attrs
    ensures attrs.Valid() && attrs.Abs() == DirectSetUniqId(old(attrs.Abs()), oldUid, newUid)
    ensures
      var was := old(attrs.Abs());
      var parent := if oldUid == [] && UNIQID in was then History.Text(was[UNIQID]) else oldUid;
      attrs.Abs() ==
        (if parent == [] then was[UNIQID := Ended(newUid)]
         else was[UNIQID := Ended(newUid)][PUNIQID := Ended(parent)])
  {
    var parent := oldUid;
    if parent == [] {
      var found, pos := attrs.Find(UNIQID);
      if found {
        parent := History.Text(attrs.items[pos].val);
      }
    }
    var ok := attrs.Insert(UNIQID, Ended(newUid));
    if parent != [] {
      ok := attrs.Insert(PUNIQID, Ended(parent));
    }
  }

  /** K2hAttrBuiltin::UpdateAttr with nothing but history on. */
  method Update(attrs: Sorted<Bytes>, encType: EncType, newUid: Bytes)
    requires attrs.Valid()
    modifies attrs
    ensures attrs.Valid() && attrs.Abs() == UpdateAttr(old(attrs.Abs()), encType, newUid)
    ensures forall name | name in attrs.Abs() ::
        name != MTIME && name != EXPIRE && name != EncAttr(encType) &&
        attrs.Abs()[name] == if name in old(attrs.Abs()) then old(attrs.Abs())[name] else Ended(newUid)
    ensures UNIQID in attrs.Abs() && forall name | name in old(attrs.Abs()) ::
        name in attrs.Abs() || name == MTIME || name == EXPIRE || name == EncAttr(encType)
    ensures attrs.Abs().Keys <= old(attrs.Abs()).Keys + {UNIQID}
  {
    var found := attrs.Erase(MTIME);
    found := attrs.Erase(EXPIRE);
    found := attrs.Erase(EncAttr(encType));
    var pos;
    found, pos := attrs.Find(UNIQID);
    if !found {
      var ok := attrs.Insert(UNIQID, Ended(newUid));
    }
  }

  /** The attributes of a version that is to be archived, and the id it is archived under. */
  method Mark(bytes: Bytes, newUid: Bytes, ghost v: Version) returns (uniqid: Bytes, marked: Bytes)
    requires v.attrs == AttrsOf(bytes) && CString(newUid) && AttrsFit(Marked(v, newUid).attrs)
    ensures uniqid == ArchiveId(v, newUid)
    ensures marked != [] && AttrsOf(marked) == Marked(v, newUid).attrs && !Attrs.WalkAll(marked).misled
  {
    var attrs := new Sorted();
    var misled := Attrs.Load(attrs, bytes);
    var found, pos := attrs.Find(UNIQID);
    if !found {
      SetUniqId(attrs, [], newUid);
      TextEnded(newUid);
      found, pos := attrs.Find(UNIQID);
    }
    uniqid := History.Text(attrs.items[pos].val);
    var ok := attrs.Insert(HISMARK, [1]);
    marked := Attrs.Serialize(attrs);
    AttrsBack(attrs.items);
    assert HISMARK in Dict(attrs.items);
  }

  /** The attributes of a new version that follows one archived under parentUid, if there is one. */
  method Renew(attrs: Sorted<Bytes>, encType: EncType, parentUid: Bytes, uid1: Bytes, uid2: Bytes)
    returns (bytes: Bytes)
    requires attrs.Valid()
    requires AttrsFit(Renewed(attrs.Abs(), encType, parentUid, uid1, uid2))
    modifies attrs
    ensures AttrsOf(bytes) == Renewed(old(attrs.Abs()), encType, parentUid, uid1, uid2) && !Attrs.WalkAll(bytes).misled
  {
    Update(attrs, encType, uid1);
    if parentUid != [] {
      SetUniqId(attrs, parentUid, uid2);
    }
    bytes := Attrs.Serialize(attrs);
    AttrsBack(attrs.items);
  }

  function Renewed(attrs: AttrMap, encType: EncType, parentUid: Bytes, uid1: Bytes, uid2: Bytes): AttrMap
  {
    if parentUid == [] then UpdateAttr(attrs, encType, uid1) else DirectSetUniqId(UpdateAttr(attrs, encType, uid1),
      parentUid, uid2)
  }

  // ---------------------------------------------------------------- the store

  /** Only the key itself may have gone. */
  ghost predicate OthersStay(m: Content, m': Content, key: Bytes)
  {
    forall k | k in m && k != key :: k in m' && m'[k] == m[k]
  }

  /** The key may be archived: its history key is free, and the marked attributes can be written. */
  ghost predicate Archivable(m: Content, key: Bytes, newUid: Bytes, keys: set<Bytes>)
  {
    key in m && key != [] && CString(newUid) &&
    var v := VersionOf(m[key]);
    var id := ArchiveId(v, newUid);
    id != [] && HistoryKey(key, id) in keys && HistoryKey(key, id) !in m && AttrsFit(Marked(v, newUid).attrs)
  }

  /** What was under the key is under its history key, with marked attributes; nothing else has changed. */
  ghost predicate ArchivedIn(m: Content, m': Content, key: Bytes, newUid: Bytes)
    requires key in m
  {
    forall u: nat {:trigger Look(ARCHIVED_IN, u)} :: Look(ARCHIVED_IN, u) ==>
      var v := VersionOf(m[key]);
      var hisKey := HistoryKey(key, ArchiveId(v, newUid));
      && hisKey in m' && m' == (m - {key})[hisKey := m'[hisKey]]
      && VersionOf(m'[hisKey]) == Marked(v, newUid) && !Attrs.WalkAll(m'[hisKey].attrs).misled
  }

  lemma RenamedArchived(m: Content, key: Bytes, hisKey: Bytes, marked: Bytes, newUid: Bytes)
    requires key in m && hisKey == HistoryKey(key, ArchiveId(VersionOf(m[key]), newUid))
    requires marked != [] && AttrsOf(marked) == Marked(VersionOf(m[key]), newUid).attrs && !Attrs.WalkAll(marked).misled
    ensures ArchivedIn(m, Renamed(m, key, hisKey, marked), key, newUid)
  {
  }

  lemma RenamedOthers(m: Content, key: Bytes, newKey: Bytes, attrs: Bytes, keys: set<Bytes>)
    requires key in m && newKey !in m && m.Keys <= keys && newKey in keys
    ensures OthersStay(m, Renamed(m, key, newKey, attrs), key) && Renamed(m, key, newKey, attrs).Keys <= keys
  {
  }

  /** Moves what is stored under a key to its history key and marks it. */
  method RenameForHistory(shm: Shm, key: Bytes, newUid: Bytes, ghost m: Content, ghost keys: set<Bytes>)
    returns (ok: bool, uniqid: Bytes)
    requires shm.Valid() && m == Meaning(shm.index.bodies, shm.pages.store, shm.names) && shm.Admits(keys)
    requires Archivable(m, key, newUid, keys)
    modifies shm, shm.index, shm.pages, shm.areas, shm.areas.table
    ensures shm.Valid() && shm.Admits(keys)
    ensures uniqid == ArchiveId(VersionOf(m[key]), newUid)
    ensures OthersStay(m, Meaning(shm.index.bodies, shm.pages.store, shm.names), key)
    ensures ok ==> ArchivedIn(m, Meaning(shm.index.bodies, shm.pages.store, shm.names), key, newUid)
    ensures !ok ==> MAX_K2HAREA_COUNT <= shm.areas.count + 1
  {
    var bytes := ReadAttrs(shm, key, keys);
    var hisKey, marked;
    uniqid, hisKey, marked := MakeArchived(key, newUid, bytes, m, keys);
    RenamedOthers(m, key, hisKey, marked, keys);
    ok := MoveToHistory(shm, key, hisKey, marked, m, keys);
  }

  /** The history key, and the attributes to go with it. */
  method MakeArchived(key: Bytes, newUid: Bytes, bytes: Bytes, ghost m: Content, ghost keys: set<Bytes>)
    returns (uniqid: Bytes, hisKey: Bytes, marked: Bytes)
    requires Archivable(m, key, newUid, keys) && bytes == m[key].attrs
    ensures uniqid == ArchiveId(VersionOf(m[key]), newUid) && hisKey in keys && hisKey !in m && hisKey != []
    ensures ArchivedIn(m, Renamed(m, key, hisKey, marked), key, newUid)
  {
    uniqid, marked := Mark(bytes, newUid, VersionOf(m[key]));
    var made;
    made, hisKey := MakeHistoryKey(key, uniqid);
    RenamedArchived(m, key, hisKey, marked, newUid);
  }

  /** The attributes of a key that is there. */
  method ReadAttrs(shm: Shm, key: Bytes, ghost keys: set<Bytes>) returns (bytes: Bytes)
    requires
      && shm.Valid() && shm.Admits(keys) && key != [] && key in Meaning(shm.index.bodies, shm.pages.store, shm.names)
    modifies shm.index`links, shm.index`ck, shm.index`assign, shm.index`trees, shm.index`loc
    ensures
      && shm.Valid() && shm.Admits(keys)
      && Meaning(shm.index.bodies, shm.pages.store, shm.names) ==
           old(Meaning(shm.index.bodies, shm.pages.store, shm.names))
    ensures bytes == old(Meaning(shm.index.bodies, shm.pages.store, shm.names))[key].attrs
  {
    var e := shm.Find(key, keys);
    bytes := shm.LoadAttrs(e, key);
  }

  /** Renames the key, or leaves everything as it is; a failure to widen the mask comes after the renaming. */
  method MoveToHistory(shm: Shm, key: Bytes, hisKey: Bytes, marked: Bytes, ghost m: Content,
                       ghost keys: set<Bytes>) returns (ok: bool)
    requires shm.Valid() && m == Meaning(shm.index.bodies, shm.pages.store, shm.names) && shm.Admits(keys)
    requires key in m && key != [] && hisKey in keys && hisKey !in m && hisKey != []
    modifies shm, shm.index, shm.pages, shm.areas, shm.areas.table
    ensures
      && shm.Valid()
      && KeysApart(keys, shm.index.assign, shm.index.maskBits, shm.index.collisionBits, shm.hashOf, shm.subhashOf)
    ensures ok ==> Meaning(shm.index.bodies, shm.pages.store, shm.names) == Renamed(m, key, hisKey, marked)
    ensures
      var now := Meaning(shm.index.bodies, shm.pages.store, shm.names);
      now == m || now == Renamed(m, key, hisKey, marked)
    ensures !ok ==> MAX_K2HAREA_COUNT <= shm.areas.count + 1
  {
    ApartFits(m, keys, shm.index.assign, shm.index.maskBits, shm.index.collisionBits, key, shm.hashOf, shm.subhashOf);
    ApartFits(m - {key}, keys, shm.index.assign, shm.index.maskBits, shm.index.collisionBits, hisKey, shm.hashOf,
      shm.subhashOf);
    ghost var ka, n := shm.index.assign, shm.index.maskBits;
    ok := shm.Rename(key, hisKey, marked);
    ApartLater(keys, ka, n, shm.index.assign, shm.index.maskBits, shm.index.collisionBits, shm.hashOf, shm.subhashOf);
  }

  // ---------------------------------------------------------------- setting a key

  /** The version a key gets. */
  ghost function NextVersion(m: Content, key: Bytes, encType: EncType, value: Bytes, uid0: Bytes, uid1: Bytes,
                             uid2: Bytes): Version
  {
    if key in m then Following(VersionOf(m[key]), encType, value, uid0, uid1, uid2) else First(encType, value, uid1)
  }

  lemma ArchivedVersions(m: Content, m1: Content, key: Bytes, uid0: Bytes)
    requires key in m && ArchivedIn(m, m1, key, uid0)
    ensures VersionsOf(m1) == Archive(VersionsOf(m), key, uid0) && (Readable(m) ==> Readable(m1))
  {
    assert Look(ARCHIVED_IN, 0);
  }

  lemma PutVersion(m: Content, key: Bytes, entry: Entry)
    requires !Attrs.WalkAll(entry.attrs).misled
    ensures
      && VersionsOf(m[key := entry]) == VersionsOf(m)[key := VersionOf(entry)]
      && (Readable(m) ==> Readable(m[key := entry]))
  {
  }

  /** The entry is the next version of the key. */
  ghost predicate Prepared(m: Content, key: Bytes, entry: Entry, encType: EncType, value: Bytes, uid0: Bytes,
                           uid1: Bytes, uid2: Bytes)
  {
    forall u: nat {:trigger Look(PREPARED, u)} :: Look(PREPARED, u) ==>
      VersionOf(entry) == NextVersion(m, key, encType, value, uid0, uid1, uid2) && !Attrs.WalkAll(entry.attrs).misled
  }

  /** What was under the key is archived, if it was there. */
  ghost predicate Cleared(m: Content, m1: Content, key: Bytes, uid0: Bytes)
  {
    if key in m then ArchivedIn(m, m1, key, uid0) else m1 == m
  }

  /** What the store holds once the key has its next version is what the history asks for. */
  lemma NextStored(m: Content, m1: Content, key: Bytes, entry: Entry, encType: EncType, value: Bytes, uid0: Bytes,
                   uid1: Bytes, uid2: Bytes)
    requires Cleared(m, m1, key, uid0) && Prepared(m, key, entry, encType, value, uid0, uid1, uid2)
    ensures VersionsOf(m1[key := entry]) == Superseded(VersionsOf(m), key, encType, value, uid0, uid1, uid2)
    ensures Readable(m) ==> Readable(m1[key := entry])
  {
    assert Look(PREPARED, 0);
    PutVersion(m1, key, entry);
    if key in m {
      ArchivedVersions(m, m1, key, uid0);
    }
  }

  /** A key with a history, under an id that is fresh, may be archived. */
  lemma KeptArchivable(m: Content, given: map<Bytes, seq<Bytes>>, key: Bytes, uid0: Bytes, keys: set<Bytes>)
    requires Kept(VersionsOf(m), given) && Settable(VersionsOf(m), key) && FreshId(VersionsOf(m), uid0) && key in m
    requires
      && HistoryKey(key, ArchiveId(VersionOf(m[key]), uid0)) in keys && AttrsFit(Marked(VersionOf(m[key]), uid0).attrs)
    ensures Archivable(m, key, uid0, keys)
  {
    var c := VersionsOf(m);
    assert c[key] == VersionOf(m[key]);
    assert KeptAt(c, key, given[key]);
    assert HistoryKey(key, ArchiveId(c[key], uid0)) !in c;
  }

  /** The entry of a key, an empty one for an absent key. */
  method ReadEntry(shm: Shm, key: Bytes, ghost keys: set<Bytes>) returns (isThere: bool, attrs: Bytes, subkeys: Bytes)
    requires shm.Valid() && shm.Admits(keys) && key != []
    modifies shm.index`links, shm.index`ck, shm.index`assign, shm.index`trees, shm.index`loc
    ensures
      && shm.Valid() && shm.Admits(keys)
      && Meaning(shm.index.bodies, shm.pages.store, shm.names) ==
           old(Meaning(shm.index.bodies, shm.pages.store, shm.names))
    ensures
      var m := old(Meaning(shm.index.bodies, shm.pages.store, shm.names));
      && isThere == (key in m) && attrs == (if key in m then m[key].attrs else [])
      && subkeys == if key in m then m[key].subkeys else []
  {
    attrs, subkeys := [], [];
    var e := shm.Find(key, keys);
    isThere := e != 0;
    if isThere {
      attrs := shm.LoadAttrs(e, key);
      subkeys := shm.LoadSubkeys(e, key);
    }
  }

  /** The entry of a new version, from the attributes and subkeys there were. */
  method MakeEntry(bytes: Bytes, list: Bytes, encType: EncType, value: Bytes, parentUid: Bytes, uid1: Bytes,
                   uid2: Bytes) returns (entry: Entry)
    requires AttrsFit(Renewed(AttrsOf(bytes), encType, parentUid, uid1, uid2)) && SubkeysFit(SubKeys.Listed(list))
    ensures VersionOf(entry) ==
      Version(value, SubKeys.Listed(list), Renewed(AttrsOf(bytes), encType, parentUid, uid1, uid2))
    ensures !Attrs.WalkAll(entry.attrs).misled
  {
    var subkeys := new Sorted();
    var ending := SubKeys.Load(subkeys, list);
    var list' := SubKeys.Serialize(subkeys);
    SubKeys.SerializedListed(subkeys.items);
    var attrs := new Sorted();
    var misled := Attrs.Load(attrs, bytes);
    var bytes' := Renew(attrs, encType, parentUid, uid1, uid2);
    entry := Entry(value, list', bytes');
  }

  /** The bytes of an absent key, which are none, stand for no attributes and no subkeys. */
  lemma NothingThere()
    ensures AttrsOf([]) == map[] && SubKeys.Listed([]) == {}
  {
  }

  /** Everything that is written can be read back. */
  ghost predicate NextFits(m: Content, key: Bytes, encType: EncType, value: Bytes, uid0: Bytes, uid1: Bytes,
                           uid2: Bytes)
  {
    forall u: nat {:trigger Look(PREPARED, u)} :: Look(PREPARED, u) ==>
      var next := NextVersion(m, key, encType, value, uid0, uid1, uid2);
      AttrsFit(next.attrs) && SubkeysFit(next.subkeys)
  }

  /** What is under the key, if anything, may be archived. */
  ghost predicate Clearable(m: Content, key: Bytes, uid0: Bytes, keys: set<Bytes>)
  {
    forall u: nat {:trigger Look(PREPARED, u)} :: Look(PREPARED, u) ==> (key in m ==> Archivable(m, key, uid0, keys))
  }

  /** The id of the version that is to be the parent of the next one, none when there is no version. */
  ghost function ParentOf(m: Content, key: Bytes, uid0: Bytes): Bytes
  {
    if key in m then ArchiveId(VersionOf(m[key]), uid0) else []
  }

  /** What was read of the key, nothing for an absent one. */
  ghost predicate ReadFrom(m: Content, key: Bytes, bytes: Bytes, list: Bytes, parentUid: Bytes, uid0: Bytes)
  {
    forall u: nat {:trigger Look(PREPARED, u)} :: Look(PREPARED, u) ==>
      && (if key in m then bytes == m[key].attrs && list == m[key].subkeys && parentUid != [] else bytes == list == [])
      && parentUid == ParentOf(m, key, uid0)
  }

  method MakeNext(key: Bytes, value: Bytes, encType: EncType, bytes: Bytes, list: Bytes, parentUid: Bytes, uid1: Bytes,
                  uid2: Bytes,
                  ghost m: Content, ghost uid0: Bytes)
    returns (entry: Entry)
    requires ReadFrom(m, key, bytes, list, parentUid, uid0) && NextFits(m, key, encType, value, uid0, uid1, uid2)
    ensures Prepared(m, key, entry, encType, value, uid0, uid1, uid2)
  {
    assert Look(PREPARED, 0);
    NothingThere();
    entry := MakeEntry(bytes, list, encType, value, parentUid, uid1, uid2);
  }

  /** Reads what is under the key and archives it, if it is there. */
  method ArchiveKey(shm: Shm, key: Bytes, uid0: Bytes, ghost m: Content, ghost keys: set<Bytes>)
    returns (ok: bool, parentUid: Bytes, bytes: Bytes, list: Bytes)
    requires
      && shm.Valid() && m == Meaning(shm.index.bodies, shm.pages.store, shm.names) && shm.Admits(keys)
      && key != []
    requires Clearable(m, key, uid0, keys)
    modifies shm, shm.index, shm.pages, shm.areas, shm.areas.table
    ensures shm.Valid() && shm.Admits(keys)
    ensures OthersStay(m, Meaning(shm.index.bodies, shm.pages.store, shm.names), key)
    ensures ReadFrom(m, key, bytes, list, parentUid, uid0)
    ensures ok ==> Cleared(m, Meaning(shm.index.bodies, shm.pages.store, shm.names), key, uid0)
    ensures !ok ==> MAX_K2HAREA_COUNT <= shm.areas.count + 1
  {
    var isThere;
    isThere, bytes, list := ReadEntry(shm, key, keys);
    ok, parentUid := true, [];
    assert Look(PREPARED, 0);
    if isThere {
      ok, parentUid := RenameForHistory(shm, key, uid0, m, keys);
    }
  }

  /** Archives what is under the key, if it is there, and makes the entry that is to follow it. */
  method Prepare(shm: Shm, key: Bytes, value: Bytes, encType: EncType, uid0: Bytes, uid1: Bytes, uid2: Bytes,
                 ghost m: Content, ghost keys: set<Bytes>)
    returns (ok: bool, entry: Entry)
    requires
      && shm.Valid() && m == Meaning(shm.index.bodies, shm.pages.store, shm.names) && shm.Admits(keys)
      && key != []
    requires Clearable(m, key, uid0, keys) && NextFits(m, key, encType, value, uid0, uid1, uid2)
    modifies shm, shm.index, shm.pages, shm.areas, shm.areas.table
    ensures shm.Valid() && shm.Admits(keys)
    ensures OthersStay(m, Meaning(shm.index.bodies, shm.pages.store, shm.names), key)
    ensures Prepared(m, key, entry, encType, value, uid0, uid1, uid2)
    ensures ok ==> Cleared(m, Meaning(shm.index.bodies, shm.pages.store, shm.names), key, uid0)
    ensures !ok ==> MAX_K2HAREA_COUNT <= shm.areas.count + 1
  {
    var parentUid, bytes, list;
    ok, parentUid, bytes, list := ArchiveKey(shm, key, uid0, m, keys);
    entry := MakeNext(key, value, encType, bytes, list, parentUid, uid1, uid2, m, uid0);
  }

  /** Stores the entry of a new version. */
  method PutEntry(shm: Shm, key: Bytes, entry: Entry, ghost m: Content, ghost keys: set<Bytes>) returns (ok: bool)
    requires
      && shm.Valid() && m == Meaning(shm.index.bodies, shm.pages.store, shm.names) && shm.Admits(keys)
      && key in keys && key != []
    modifies shm, shm.index, shm.pages, shm.areas, shm.areas.table
    ensures
      && shm.Valid()
      && KeysApart(keys, shm.index.assign, shm.index.maskBits, shm.index.collisionBits, shm.hashOf, shm.subhashOf)
    ensures ok ==> Meaning(shm.index.bodies, shm.pages.store, shm.names) == m[key := entry]
    ensures
      var now := Meaning(shm.index.bodies, shm.pages.store, shm.names);
      now == m - {key} || now == m[key := entry]
    ensures !ok ==> MAX_K2HAREA_COUNT <= shm.areas.count + 1
  {
    ApartFits(m, keys, shm.index.assign, shm.index.maskBits, shm.index.collisionBits, key, shm.hashOf, shm.subhashOf);
    ghost var ka, n := shm.index.assign, shm.index.maskBits;
    ok := shm.Set(key, entry.value, entry.subkeys, entry.attrs);
    ApartLater(keys, ka, n, shm.index.assign, shm.index.maskBits, shm.index.collisionBits, shm.hashOf, shm.subhashOf);
  }

  lemma PutOthers(m: Content, m1: Content, m2: Content, key: Bytes, entry: Entry, keys: set<Bytes>)
    requires OthersStay(m, m1, key) && m1.Keys <= keys && key in keys && (m2 == m1 - {key} || m2 == m1[key := entry])
    ensures OthersStay(m, m2, key) && m2.Keys <= keys
  {
  }

  /**
   The entry of a version that follows another one: it has the same subkeys, new ids, and otherwise the attributes
   there were, but not those of features that are off.
   */
  ghost predicate Follows(now: Entry, was: Entry, encType: EncType, value: Bytes, id: Bytes, uid2: Bytes)
  {
    && now.value == value && SubKeys.Listed(now.subkeys) == SubKeys.Listed(was.subkeys) &&
    var a, b := AttrsOf(now.attrs), AttrsOf(was.attrs);
    && a.Keys == b.Keys - {MTIME, EXPIRE, EncAttr(encType)} + {UNIQID, PUNIQID}
    && a[UNIQID] == Ended(uid2) && a[PUNIQID] == Ended(id)
    && forall name | name in a && name != UNIQID && name != PUNIQID :: a[name] == b[name]
  }

  /** The entry of an archived version: all that was there, and besides it only its mark and, if it had none, its id. */
  ghost predicate Copies(copy: Entry, was: Entry, uid0: Bytes)
  {
    && copy.value == was.value && SubKeys.Listed(copy.subkeys) == SubKeys.Listed(was.subkeys) &&
    var a, b := AttrsOf(copy.attrs), AttrsOf(was.attrs);
    && a.Keys == b.Keys + {UNIQID, HISMARK} && a[HISMARK] == [1]
    && a[UNIQID] == (if UNIQID in b then b[UNIQID] else Ended(uid0))
    && forall name | name in b && name != HISMARK :: a[name] == b[name]
  }

  /** What setting a key makes of a key that is there. */
  lemma SupersededThere(m: Content, m': Content, key: Bytes, encType: EncType, value: Bytes, uid0: Bytes, uid1: Bytes,
                        uid2: Bytes, id: Bytes)
    requires key in m && VersionsOf(m') == Superseded(VersionsOf(m), key, encType, value, uid0, uid1, uid2)
    requires id == ArchiveId(VersionOf(m[key]), uid0) && id != []
    ensures m'.Keys == m.Keys + {key, HistoryKey(key, id)}
    ensures Follows(m'[key], m[key], encType, value, id, uid2) && Copies(m'[HistoryKey(key, id)], m[key], uid0)
  {
    var v, hisKey := VersionOf(m[key]), HistoryKey(key, id);
    var c, c' := VersionsOf(m), VersionsOf(m');
    assert c.Keys == m.Keys && c'.Keys == m'.Keys && hisKey != key;
    assert c'[key] == VersionOf(m'[key]) && c'[hisKey] == VersionOf(m'[hisKey]) && c[key] == v;
    FollowingAttrs(v, encType, value, uid0, uid1, uid2);
    MarkedAttrs(v, uid0);
  }

  /** What setting a key makes of a key that is not there. */
  lemma SupersededAbsent(m: Content, m': Content, key: Bytes, encType: EncType, value: Bytes, uid0: Bytes, uid1: Bytes,
                         uid2: Bytes)
    requires key !in m && VersionsOf(m') == Superseded(VersionsOf(m), key, encType, value, uid0, uid1, uid2)
    ensures m'.Keys == m.Keys + {key} && m'[key].value == value && SubKeys.Listed(m'[key].subkeys) == {}
    ensures AttrsOf(m'[key].attrs) == map[UNIQID := Ended(uid1)]
  {
    var c, c' := VersionsOf(m), VersionsOf(m');
    assert c.Keys == m.Keys && c'.Keys == m'.Keys;
    assert c'[key] == VersionOf(m'[key]) == First(encType, value, uid1);
  }

  /**
   K2HShm::Set with history on, for a caller that keeps subkeys and attributes.  The store then holds the version
   in front of those the key had before, and all versions of all keys can be followed as before.
   */
  method Set(shm: Shm, key: Bytes, value: Bytes, encType: EncType, uid0: Bytes, uid1: Bytes, uid2: Bytes,
             ghost m: Content, ghost given: map<Bytes, seq<Bytes>>, ghost keys: set<Bytes>)
    returns (ok: bool)
    requires shm.Valid() && m == shm.Abs() && shm.Admits(keys) && Readable(m) && key in keys
    requires Kept(VersionsOf(m), given) && Settable(VersionsOf(m), key)
    requires
      && FreshId(VersionsOf(m), uid0) && FreshId(VersionsOf(m), uid1) && FreshId(VersionsOf(m), uid2) && uid0 != uid2
    requires key in m ==>
      HistoryKey(key, ArchiveId(VersionOf(m[key]), uid0)) in keys && AttrsFit(Marked(VersionOf(m[key]), uid0).attrs)
    requires NextFits(m, key, encType, value, uid0, uid1, uid2)
    modifies shm, shm.index, shm.pages, shm.areas, shm.areas.table
    ensures shm.Valid() && shm.Admits(keys) && OthersStay(m, shm.Abs(), key)
    ensures ok ==>
      && Readable(shm.Abs())
      && VersionsOf(shm.Abs()) == Superseded(VersionsOf(m), key, encType, value, uid0, uid1, uid2)
      && Kept(VersionsOf(shm.Abs()), given[key := [value] + if key in given then given[key] else []])
    ensures ok && key in m ==>
      var was := AttrsOf(m[key].attrs);
      var id := if UNIQID in was then History.Text(was[UNIQID]) else uid0;
      && shm.Abs().Keys == m.Keys + {key, HistoryKey(key, id)}
      && Follows(shm.Abs()[key], m[key], encType, value, id, uid2)
      && Copies(shm.Abs()[HistoryKey(key, id)], m[key], uid0)
    ensures ok && key !in m ==>
      && key in shm.Abs() && shm.Abs().Keys == m.Keys + {key}
      && shm.Abs()[key].value == value && SubKeys.Listed(shm.Abs()[key].subkeys) == {}
      && AttrsOf(shm.Abs()[key].attrs) == map[UNIQID := Ended(uid1)]
    ensures !ok ==> MAX_K2HAREA_COUNT <= shm.areas.count + 1
  {
    if key in m {
      KeptArchivable(m, given, key, uid0, keys);
    }
    var entry;
    ok, entry := Prepare(shm, key, value, encType, uid0, uid1, uid2, m, keys);
    if !ok {
      return;
    }
    ghost var m1 := Meaning(shm.index.bodies, shm.pages.store, shm.names);
    ok := PutEntry(shm, key, entry, m1, keys);
    PutOthers(m, m1, Meaning(shm.index.bodies, shm.pages.store, shm.names), key, entry, keys);
    NextStored(m, m1, key, entry, encType, value, uid0, uid1, uid2);
    VersionAdded(VersionsOf(m), given, key, encType, value, uid0, uid1, uid2);
    if key in m {
      SupersededThere(m, m1[key := entry], key, encType, value, uid0, uid1, uid2, ArchiveId(VersionOf(m[key]), uid0));
    } else {
      SupersededAbsent(m, m1[key := entry], key, encType, value, uid0, uid1, uid2);
    }
  }
}
