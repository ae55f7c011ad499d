/**
 Loading an archive into a store (K2HArchive::Load): every command goes to the operation of the store that it is for.
 */
module ArchiveLoad {
  import opened Layout
  import opened AreaLayout
  import opened SizeCodec
  import opened Records
  import opened CommandArchive
  import opened ArchiveFile
  import opened K2HShm
  import DirectAccess

  /** How a command ended: done, refused, beyond what is modelled, or without room. */
  datatype Ending = Applied | Refused | Beyond | NoRoom

  /** How a command ends that nothing is in the way of. */
  function EndingOf(outcome: Outcome): Ending
  {
    match outcome
    case Done(_) => Applied
    case Failed(_) => Refused
    case Outside => Beyond
  }

  /** The ending, and the content after it, are what the command is to do. */
  ghost predicate Follows(m: Content, c: Command, ending: Ending, m': Content)
  {
    forall u: nat {:trigger Look(FOLLOWS, u)} :: Look(FOLLOWS, u) ==>
      match Apply(m, c)
      case Done(m1) => ending == Applied && m' == m1
      case Failed(m1) => ending == Refused && m' == m1
      case Outside => ending == Beyond && m' == m
  }

  /** The commands that replace one part, or remove the key. */
  lemma PartFollows(m: Content, c: Command)
    requires c.key != []
    ensures c.comType == SCOM_REPLACE_VAL ==> Follows(m, c, Applied, Replaced(m, c.key, VALUE, c.val))
    ensures c.comType == SCOM_REPLACE_SKEY ==> Follows(m, c, Applied, Replaced(m, c.key, SUBKEYS, c.skey))
    ensures c.comType == SCOM_REPLACE_ATTRS ==> Follows(m, c, Applied, Replaced(m, c.key, ATTRS, c.attrs))
    ensures c.comType == SCOM_DEL_KEY ==> Follows(m, c, Applied, m - {c.key})
    ensures c.comType > SCOM_TYPE_MAX ==> Follows(m, c, Refused, m)
  {
  }

  lemma SetAllFollows(m: Content, c: Command)
    requires c.key != [] && c.comType == SCOM_SET_ALL
    ensures
      var m1 := Replaced(m, c.key, VALUE, c.val);
      var m2 := if c.skey == [] then m1 else Replaced(m1, c.key, SUBKEYS, c.skey);
      Follows(m, c, Applied, if c.attrs == [] then m2 else Replaced(m2, c.key, ATTRS, c.attrs))
  {
  }

  lemma OverwriteFollows(m: Content, c: Command)
    requires c.key != [] && c.comType == SCOM_OW_VAL
    ensures
      if c.exdata == [] then Follows(m, c, Refused, m)
      else if SIZE_T < |c.exdata| || |EntryAt(m, c.key).value| < Number(c.exdata) then Follows(m, c, Beyond, m)
      else if c.val == [] then Follows(m, c, Refused, Opened(m, c.key))
      else
        var m1 := Opened(m, c.key);
        && Number(c.exdata) <= |m1[c.key].value|
        && Follows(m, c, Applied,
             m1[c.key := WithPart(m1[c.key], VALUE, WriteAt(m1[c.key].value, Number(c.exdata), c.val))])
  {
    if c.key !in m && c.exdata != [] && Number(c.exdata) == 0 {
      PutAgain(m, c.key, Entry([], [], []), WithPart(Entry([], [], []), VALUE, WriteAt([], 0, c.val)));
    }
  }

  lemma PutAgain(m: Content, key: Bytes, entry: Entry, entry': Entry)
    ensures m[key := entry][key := entry'] == m[key := entry']
  {
  }

  lemma RenameFollows(m: Content, c: Command)
    requires c.key != [] && c.comType == SCOM_RENAME
    ensures
      if c.exdata == [] || c.key !in m then Follows(m, c, Refused, m)
      else if c.exdata in m && c.exdata != c.key then Follows(m, c, Beyond, m)
      else Follows(m, c, Applied, Renamed(m, c.key, c.exdata, c.attrs))
  {
  }

  /** Replaces one part of what is stored under a key. */
  method ReplacePart(shm: Shm, key: Bytes, bytes: Bytes, t: PageType, ghost keys: set<Bytes>) returns (ok: bool)
    requires
      && shm.Valid() && shm.Admits(keys) && key in keys
      && key != [] && t != KEY
    modifies shm, shm.index, shm.pages, shm.areas, shm.areas.table
    ensures shm.Valid() && (ok ==> shm.Admits(keys))
    ensures ok ==>
      Meaning(shm.index.bodies, shm.pages.store, shm.names) ==
        Replaced(old(Meaning(shm.index.bodies, shm.pages.store, shm.names)), key, t, bytes)
    ensures key != [] && t != KEY && !ok ==> MAX_K2HAREA_COUNT <= shm.areas.count + 1
  {
    ApartFits(Meaning(shm.index.bodies, shm.pages.store, shm.names), keys, shm.index.assign, shm.index.maskBits,
      shm.index.collisionBits, key, shm.hashOf, shm.subhashOf);
    ghost var ka, n := shm.index.assign, shm.index.maskBits;
    ok := shm.Replace(key, bytes, t);
    ApartLater(keys, ka, n, shm.index.assign, shm.index.maskBits, shm.index.collisionBits, shm.hashOf, shm.subhashOf);
  }

  /** ReplaceAll: the value, and the subkeys and attributes if there are any. */
  method ReplaceAll(shm: Shm, c: Command, ghost keys: set<Bytes>) returns (ending: Ending)
    requires
      && shm.Valid() && shm.Admits(keys) && c.key in keys
      && c.key != [] && c.comType == SCOM_SET_ALL
    modifies shm, shm.index, shm.pages, shm.areas, shm.areas.table
    ensures
      && shm.Valid()
      && (ending != NoRoom ==> shm.Admits(keys))
    ensures ending != NoRoom ==>
      Follows(old(Meaning(shm.index.bodies, shm.pages.store, shm.names)), c, ending,
        Meaning(shm.index.bodies, shm.pages.store, shm.names))
    ensures ending == NoRoom ==> MAX_K2HAREA_COUNT <= shm.areas.count + 1
  {
    SetAllFollows(Meaning(shm.index.bodies, shm.pages.store, shm.names), c);
    var ok := ReplacePart(shm, c.key, c.val, VALUE, keys);
    if ok && c.skey != [] {
      ok := ReplacePart(shm, c.key, c.skey, SUBKEYS, keys);
    }
    if ok && c.attrs != [] {
      ok := ReplacePart(shm, c.key, c.attrs, ATTRS, keys);
    }
    ending := if ok then Applied else NoRoom;
  }

  /** Writes over the value from an offset on; the key is made first. */
  method OverwriteValue(shm: Shm, c: Command, ghost keys: set<Bytes>) returns (ending: Ending)
    requires
      && shm.Valid() && shm.Admits(keys) && c.key in keys
      && c.key != [] && c.comType == SCOM_OW_VAL
    modifies shm, shm.index, shm.pages, shm.areas, shm.areas.table
    ensures ending != NoRoom ==> shm.Valid() && shm.Admits(keys)
    ensures ending != NoRoom ==>
      Follows(old(Meaning(shm.index.bodies, shm.pages.store, shm.names)), c, ending,
        Meaning(shm.index.bodies, shm.pages.store, shm.names))
    ensures ending == NoRoom ==> MAX_K2HAREA_COUNT <= shm.areas.count + 1
  {
    OverwriteFollows(Meaning(shm.index.bodies, shm.pages.store, shm.names), c);
    if c.exdata == [] {
      return Refused;
    }
    var value := ReadValue(shm, c.key, keys);
    var offset := Number(c.exdata);
    if SIZE_T < |c.exdata| || |value| < offset {
      return Beyond;
    }
    ending := OpenAndWrite(shm, c.key, c.val, offset, keys);
  }

  method OpenKey(shm: Shm, key: Bytes, ghost keys: set<Bytes>) returns (ok: bool, e: Ptr)
    requires shm.Valid() && shm.Admits(keys) && key in keys && key != []
    modifies shm, shm.index, shm.pages, shm.areas, shm.areas.table
    ensures shm.Valid() && (ok ==> shm.Admits(keys) && key in shm.names && e == shm.names[key])
    ensures ok ==>
      Meaning(shm.index.bodies, shm.pages.store, shm.names) ==
        Opened(old(Meaning(shm.index.bodies, shm.pages.store, shm.names)), key)
    ensures !ok ==> MAX_K2HAREA_COUNT <= shm.areas.count + 1
  {
    ApartFits(Meaning(shm.index.bodies, shm.pages.store, shm.names), keys, shm.index.assign, shm.index.maskBits,
      shm.index.collisionBits, key, shm.hashOf, shm.subhashOf);
    ghost var ka, n := shm.index.assign, shm.index.maskBits;
    ok, e := DirectAccess.Open(shm, key);
    ApartLater(keys, ka, n, shm.index.assign, shm.index.maskBits, shm.index.collisionBits, shm.hashOf, shm.subhashOf);
  }

  method WriteOpened(shm: Shm, e: Ptr, key: Bytes, bytes: Bytes, offset: nat, ghost keys: set<Bytes>)
    returns (ok: bool)
    requires shm.Valid() && shm.Admits(keys) && key in keys && bytes != [] && key in shm.names && shm.names[key] == e
    requires
      var m := Meaning(shm.index.bodies, shm.pages.store, shm.names);
      key in m && offset <= |m[key].value|
    modifies shm`slots, shm`loose, shm.index`bodies, shm.pages, shm.areas, shm.areas.table
    ensures if ok then shm.Valid() && shm.Admits(keys) else shm.areas.count == MAX_K2HAREA_COUNT
    ensures ok ==>
      var m := old(Meaning(shm.index.bodies, shm.pages.store, shm.names));
      Meaning(shm.index.bodies, shm.pages.store, shm.names) ==
        m[key := WithPart(m[key], VALUE, WriteAt(m[key].value, offset, bytes))]
  {
    ok := DirectAccess.Write(shm, e, bytes, offset, key);
    assert unchanged(shm.index`assign) && unchanged(shm.index`maskBits);
  }

  /** Makes the key if it is not there, and writes the bytes if there are any. */
  method OpenAndWrite(shm: Shm, key: Bytes, bytes: Bytes, offset: nat, ghost keys: set<Bytes>) returns (ending: Ending)
    requires shm.Valid() && shm.Admits(keys) && key in keys && key != []
    requires offset <= |EntryAt(Meaning(shm.index.bodies, shm.pages.store, shm.names), key).value|
    modifies shm, shm.index, shm.pages, shm.areas, shm.areas.table
    ensures ending != NoRoom ==> shm.Valid() && shm.Admits(keys)
    ensures ending != NoRoom ==>
      var m := Opened(old(Meaning(shm.index.bodies, shm.pages.store, shm.names)), key);
      if bytes == [] then ending == Refused && Meaning(shm.index.bodies, shm.pages.store, shm.names) == m
      else
        && ending == Applied && offset <= |m[key].value|
        && Meaning(shm.index.bodies, shm.pages.store, shm.names) ==
             m[key := WithPart(m[key], VALUE, WriteAt(m[key].value, offset, bytes))]
    ensures ending == NoRoom ==> MAX_K2HAREA_COUNT <= shm.areas.count + 1
  {
    var ok, e := OpenKey(shm, key, keys);
    if !ok {
      return NoRoom;
    }
    if bytes == [] {
      return Refused;
    }
    ok := WriteOpened(shm, e, key, bytes, offset, keys);
    ending := if ok then Applied else NoRoom;
  }

  /** The value of a key, empty for an absent one. */
  method ReadValue(shm: Shm, key: Bytes, ghost keys: set<Bytes>) returns (value: Bytes)
    requires shm.Valid() && shm.Admits(keys)
    modifies shm.index`links, shm.index`ck, shm.index`assign, shm.index`trees, shm.index`loc
    ensures
      && shm.Valid() && shm.Admits(keys)
      && value == EntryAt(Meaning(shm.index.bodies, shm.pages.store, shm.names), key).value
    ensures Meaning(shm.index.bodies, shm.pages.store, shm.names) ==
        old(Meaning(shm.index.bodies, shm.pages.store, shm.names))
  {
    var found;
    ghost var ka := shm.index.assign;
    found, value := shm.Get(key);
    ApartLater(keys, ka, shm.index.maskBits, shm.index.assign, shm.index.maskBits, shm.index.collisionBits, shm.hashOf,
      shm.subhashOf);
    if !found {
      value := [];
    }
  }

  /** Renames a key that is there to one that is not. */
  method RenameKey(shm: Shm, c: Command, ghost keys: set<Bytes>) returns (ending: Ending)
    requires
      && shm.Valid() && shm.Admits(keys) && c.key in keys
      && c.key != [] && c.comType == SCOM_RENAME && (c.exdata != [] ==> c.exdata in keys)
    modifies shm, shm.index, shm.pages, shm.areas, shm.areas.table
    ensures
      && shm.Valid()
      && (ending != NoRoom ==> shm.Admits(keys))
    ensures ending != NoRoom ==>
      Follows(old(Meaning(shm.index.bodies, shm.pages.store, shm.names)), c, ending,
        Meaning(shm.index.bodies, shm.pages.store, shm.names))
    ensures ending == NoRoom ==> MAX_K2HAREA_COUNT <= shm.areas.count + 1
  {
    RenameFollows(Meaning(shm.index.bodies, shm.pages.store, shm.names), c);
    if c.exdata == [] {
      return Refused;
    }
    var isThere := Contains(shm, c.key, keys);
    if !isThere {
      return Refused;
    }
    var isUsed := Contains(shm, c.exdata, keys);
    if isUsed && c.exdata != c.key {
      return Beyond;
    }
    var ok := MoveKey(shm, c.key, c.exdata, c.attrs, keys);
    ending := if ok then Applied else NoRoom;
  }

  method MoveKey(shm: Shm, key: Bytes, newKey: Bytes, attrs: Bytes, ghost keys: set<Bytes>) returns (ok: bool)
    requires shm.Valid() && shm.Admits(keys)
    requires
      && key in keys && newKey in keys
      && (newKey == key || newKey !in Meaning(shm.index.bodies, shm.pages.store, shm.names))
    modifies shm, shm.index, shm.pages, shm.areas, shm.areas.table
    ensures shm.Valid() && (ok ==> shm.Admits(keys))
    ensures ok ==>
      var m := old(Meaning(shm.index.bodies, shm.pages.store, shm.names));
      key in m && Meaning(shm.index.bodies, shm.pages.store, shm.names) == Renamed(m, key, newKey, attrs)
    ensures !ok && key != [] && newKey != [] && key in old(Meaning(shm.index.bodies, shm.pages.store, shm.names)) ==>
      MAX_K2HAREA_COUNT <= shm.areas.count + 1
  {
    ghost var m := Meaning(shm.index.bodies, shm.pages.store, shm.names);
    ApartFits(m, keys, shm.index.assign, shm.index.maskBits, shm.index.collisionBits, key, shm.hashOf, shm.subhashOf);
    ApartFits(m - {key}, keys, shm.index.assign, shm.index.maskBits, shm.index.collisionBits, newKey, shm.hashOf,
      shm.subhashOf);
    ghost var ka, n := shm.index.assign, shm.index.maskBits;
    ok := shm.Rename(key, newKey, attrs);
    ApartLater(keys, ka, n, shm.index.assign, shm.index.maskBits, shm.index.collisionBits, shm.hashOf, shm.subhashOf);
  }

  method Contains(shm: Shm, key: Bytes, ghost keys: set<Bytes>) returns (isThere: bool)
    requires shm.Valid() && shm.Admits(keys) && key != []
    modifies shm.index`links, shm.index`ck, shm.index`assign, shm.index`trees, shm.index`loc
    ensures shm.Valid() && shm.Admits(keys) && isThere == (key in Meaning(shm.index.bodies, shm.pages.store, shm.names))
    ensures Meaning(shm.index.bodies, shm.pages.store, shm.names) ==
        old(Meaning(shm.index.bodies, shm.pages.store, shm.names))
  {
    var e := shm.Find(key, keys);
    isThere := e != NULL;
  }

  method RemoveOne(shm: Shm, key: Bytes, ghost keys: set<Bytes>)
    requires shm.Valid() && shm.Admits(keys) && key in keys && key != []
    modifies shm, shm.index, shm.pages, shm.areas, shm.areas.table
    ensures shm.Valid() && shm.Admits(keys)
    ensures Meaning(shm.index.bodies, shm.pages.store, shm.names) ==
        old(Meaning(shm.index.bodies, shm.pages.store, shm.names)) - {key}
  {
    ApartFits(Meaning(shm.index.bodies, shm.pages.store, shm.names), keys, shm.index.assign, shm.index.maskBits,
      shm.index.collisionBits, key, shm.hashOf, shm.subhashOf);
    ghost var ka := shm.index.assign;
    shm.RemoveKey(key);
    ApartLater(keys, ka, shm.index.maskBits, shm.index.assign, shm.index.maskBits, shm.index.collisionBits, shm.hashOf,
      shm.subhashOf);
  }

  /** The keys that the command names are among these. */
  predicate AboutKeys(c: Command, keys: set<Bytes>)
  {
    && (c.key != [] ==> c.key in keys)
    && (c.comType == SCOM_RENAME && c.exdata != [] ==> c.exdata in keys)
  }

  /** What a command does to the store. */
  method ApplyTo(shm: Shm, c: Command, ghost keys: set<Bytes>) returns (ending: Ending)
    requires
      && shm.Valid() && shm.Admits(keys) && AboutKeys(c, keys)
    modifies shm, shm.index, shm.pages, shm.areas, shm.areas.table
    ensures ending != NoRoom ==> shm.Valid() && shm.Admits(keys)
    ensures ending != NoRoom ==>
      Follows(old(Meaning(shm.index.bodies, shm.pages.store, shm.names)), c, ending,
        Meaning(shm.index.bodies, shm.pages.store, shm.names))
    ensures ending == NoRoom ==> MAX_K2HAREA_COUNT <= shm.areas.count + 1
  {
    if c.key == [] {
      return Refused;
    }
    PartFollows(Meaning(shm.index.bodies, shm.pages.store, shm.names), c);
    var ok;
    match c.comType {
      case 0 => ending := ReplaceAll(shm, c, keys);
      case 1 =>
        ok := ReplacePart(shm, c.key, c.val, VALUE, keys);
        ending := if ok then Applied else NoRoom;
      case 2 =>
        ok := ReplacePart(shm, c.key, c.skey, SUBKEYS, keys);
        ending := if ok then Applied else NoRoom;
      case 3 =>
        RemoveOne(shm, c.key, keys);
        ending := Applied;
      case 4 => ending := OverwriteValue(shm, c, keys);
      case 5 =>
        ok := ReplacePart(shm, c.key, c.attrs, ATTRS, keys);
        ending := if ok then Applied else NoRoom;
      case 6 => ending := RenameKey(shm, c, keys);
      case _ => ending := Refused;
    }
  }

  /** The command of the record, if it can be read, is about some of the keys. */
  ghost predicate KeysAt(file: Bytes, offset: nat, keys: set<Bytes>)
    requires offset + SCOM_SIZE <= |file|
  {
    forall u: nat {:trigger Look(KEYS_ALONG, u)} ::
      Look(KEYS_ALONG, u) && AllReadable(file, offset, ScomAt(file, offset)) ==>
      AboutKeys(CommandAt(file, offset, ScomAt(file, offset)), keys)
  }

  /** Every command that a walk over the file comes to is about some of the keys. */
  ghost predicate KeysAlong(file: Bytes, offset: nat, keys: set<Bytes>)
    decreases |file| - offset
  {
    forall u: nat {:trigger Look(KEYS_ALONG, u)} :: Look(KEYS_ALONG, u) && offset + SCOM_SIZE <= |file| ==>
      KeysAt(file, offset, keys) && KeysAlong(file, offset + TotalLength(ScomAt(file, offset)), keys)
  }

  lemma AlongAt(file: Bytes, offset: nat, keys: set<Bytes>)
    requires KeysAlong(file, offset, keys) && offset + SCOM_SIZE <= |file|
    ensures KeysAt(file, offset, keys)
  {
    assert Look(KEYS_ALONG, 0);
  }

  /** What is left of the load gives what the whole load is to give. */
  ghost predicate LoadingFrom(file: Bytes, offset: nat, m: Content, isErrSkip: bool, m0: Content, depth: nat := DEPTH)
    decreases depth
  {
    if depth == 0 then LoadedFrom(file, offset, m, isErrSkip) == LoadedFrom(file, 0, m0, isErrSkip)
    else LoadingFrom(file, offset, m, isErrSkip, m0, depth - 1)
  }

  lemma {:induction false} LoadingIs(file: Bytes, offset: nat, m: Content, isErrSkip: bool, m0: Content,
                                     depth: nat := DEPTH)
    ensures LoadingFrom(file, offset, m, isErrSkip, m0, depth) <==>
      LoadedFrom(file, offset, m, isErrSkip) == LoadedFrom(file, 0, m0, isErrSkip)
    decreases depth
  {
    if depth > 0 {
      LoadingIs(file, offset, m, isErrSkip, m0, depth - 1);
    }
  }

  /**
   How the record at an offset ended, the content after it, and where the next one starts, are what the record says.
   */
  ghost predicate RecordFollows(file: Bytes, offset: nat, m: Content, ending: Ending, m': Content, next: nat)
    requires offset + SCOM_SIZE <= |file|
  {
    forall u: nat {:trigger Look(RECORD_FOLLOWS, u)} :: Look(RECORD_FOLLOWS, u) ==>
      next == offset + TotalLength(ScomAt(file, offset)) &&
      match ApplyAt(file, offset, m)
      case Done(m1) => ending == Applied && m' == m1
      case Failed(m1) => ending == Refused && m' == m1
      case Outside => ending == Beyond && m' == m
  }

  /** The load goes on behind a record that was taken or skipped, and ends at any other. */
  lemma LoadingStep(file: Bytes, offset: nat, m: Content, isErrSkip: bool, m0: Content, ending: Ending, m': Content,
                    next: nat)
    requires
      && LoadingFrom(file, offset, m, isErrSkip, m0) && offset + SCOM_SIZE <= |file|
      && RecordFollows(file, offset, m, ending, m', next)
    ensures
      if GoesOn(ending, isErrSkip) then LoadingFrom(file, next, m', isErrSkip, m0)
      else LoadFollows(file, m0, isErrSkip, ending, m')
  {
    assert Look(RECORD_FOLLOWS, 0);
    LoadingIs(file, offset, m, isErrSkip, m0);
    LoadingIs(file, next, m', isErrSkip, m0);
    LoadedNext(file, offset, m, isErrSkip, next, ApplyAt(file, offset, m));
  }

  lemma NextRecord(file: Bytes, offset: nat, m: Content, ending: Ending, m': Content, next: nat)
    requires offset + SCOM_SIZE <= |file| && RecordFollows(file, offset, m, ending, m', next)
    ensures next == offset + TotalLength(ScomAt(file, offset))
  {
    assert Look(RECORD_FOLLOWS, 0);
  }

  lemma AlongNext(file: Bytes, offset: nat, m: Content, ending: Ending, m': Content, next: nat, keys: set<Bytes>)
    requires offset + SCOM_SIZE <= |file| && RecordFollows(file, offset, m, ending, m', next)
    requires KeysAlong(file, offset, keys)
    ensures KeysAlong(file, next, keys)
  {
    NextRecord(file, offset, m, ending, m', next);
    AlongOn(file, offset, keys);
  }

  lemma AlongOn(file: Bytes, offset: nat, keys: set<Bytes>)
    requires offset + SCOM_SIZE <= |file| && KeysAlong(file, offset, keys)
    ensures KeysAlong(file, offset + TotalLength(ScomAt(file, offset)), keys)
  {
    assert Look(KEYS_ALONG, 0);
  }

  lemma LoadingStarts(file: Bytes, m0: Content, isErrSkip: bool)
    ensures LoadingFrom(file, 0, m0, isErrSkip, m0)
  {
    LoadingIs(file, 0, m0, isErrSkip, m0);
  }

  lemma LoadingDone(file: Bytes, offset: nat, m: Content, isErrSkip: bool, m0: Content)
    requires LoadingFrom(file, offset, m, isErrSkip, m0) && |file| < offset + SCOM_SIZE
    ensures LoadFollows(file, m0, isErrSkip, Applied, m)
  {
    LoadingIs(file, offset, m, isErrSkip, m0);
  }

  /** A record does what its command does; one of unknown type, or with missing data, is refused. */
  lemma RecordIs(file: Bytes, offset: nat, m: Content, ending: Ending, m': Content)
    requires offset + SCOM_SIZE <= |file|
    ensures
      var s, next := ScomAt(file, offset), offset + TotalLength(ScomAt(file, offset));
      if SCOM_TYPE_MAX < s.comType || !AllReadable(file, offset, s) then
        RecordFollows(file, offset, m, Refused, m, next)
      else Follows(m, CommandAt(file, offset, s), ending, m') ==> RecordFollows(file, offset, m, ending, m', next)
  {
    assert Look(FOLLOWS, 0) && Look(RECORD_FOLLOWS, 0);
  }

  /** How a load ended, and the content after it, are what the file says. */
  ghost predicate LoadFollows(file: Bytes, m0: Content, isErrSkip: bool, ending: Ending, m: Content)
  {
    forall u: nat {:trigger Look(LOAD_FOLLOWS, u)} :: Look(LOAD_FOLLOWS, u) ==>
      var all := LoadedFrom(file, 0, m0, isErrSkip);
      m == all.1 && ending == EndingOf(all.0)
  }

  /** The record at an offset of the file, taken or refused, and where the next one starts. */
  method LoadRecord(shm: Shm, file: Bytes, offset: nat, ghost keys: set<Bytes>) returns (ending: Ending, next: nat)
    requires
      && shm.Valid() && shm.Admits(keys)
      && offset + SCOM_SIZE <= |file| && KeysAt(file, offset, keys)
    modifies shm, shm.index, shm.pages, shm.areas, shm.areas.table
    ensures offset < next && (ending != NoRoom ==> shm.Valid() && shm.Admits(keys))
    ensures ending != NoRoom ==>
      RecordFollows(file, offset, old(Meaning(shm.index.bodies, shm.pages.store, shm.names)), ending,
        Meaning(shm.index.bodies, shm.pages.store, shm.names), next)
    ensures ending == NoRoom ==> MAX_K2HAREA_COUNT <= shm.areas.count + 1
  {
    ghost var m := Meaning(shm.index.bodies, shm.pages.store, shm.names);
    var s := ScomAt(file, offset);
    next := offset + TotalLength(s);
    if SCOM_TYPE_MAX < s.comType || !AllReadable(file, offset, s) {
      ending := Refused;
      RecordIs(file, offset, m, Refused, m);
    } else {
      assert Look(KEYS_ALONG, 0);
      ending := ApplyTo(shm, CommandAt(file, offset, s), keys);
      RecordIs(file, offset, m, ending, Meaning(shm.index.bodies, shm.pages.store, shm.names));
    }
  }

  /** The load goes on behind a record that was taken, or refused and is skipped. */
  predicate GoesOn(ending: Ending, isErrSkip: bool)
  {
    ending == Applied || (ending == Refused && isErrSkip)
  }

  /**
   Walks over the records of a file and applies them.  Refused ones are skipped if that is wanted and end the
   load otherwise.
   */
  method Load(shm: Shm, file: Bytes, isErrSkip: bool, ghost keys: set<Bytes>) returns (ending: Ending)
    requires
      && shm.Valid() && shm.Admits(keys)
      && KeysAlong(file, 0, keys)
    modifies shm, shm.index, shm.pages, shm.areas, shm.areas.table
    ensures ending != NoRoom ==> shm.Valid()
    ensures ending != NoRoom ==>
      LoadFollows(file, old(Meaning(shm.index.bodies, shm.pages.store, shm.names)), isErrSkip, ending,
        Meaning(shm.index.bodies, shm.pages.store, shm.names))
    ensures ending == NoRoom ==> MAX_K2HAREA_COUNT <= shm.areas.count + 1
  {
    ghost var m0 := Meaning(shm.index.bodies, shm.pages.store, shm.names);
    var offset: nat := 0;
    LoadingStarts(file, m0, isErrSkip);
    while offset + SCOM_SIZE <= |file|
      invariant shm.Valid() && shm.Admits(keys) && KeysAlong(file, offset, keys)
      invariant LoadingFrom(file, offset, Meaning(shm.index.bodies, shm.pages.store, shm.names), isErrSkip, m0)
      decreases |file| - offset
    {
      AlongAt(file, offset, keys);
      ghost var from, m := offset, Meaning(shm.index.bodies, shm.pages.store, shm.names);
      ending, offset := LoadRecord(shm, file, offset, keys);
      if ending == NoRoom {
        return;
      }
      LoadingStep(file, from, m, isErrSkip, m0, ending, Meaning(shm.index.bodies, shm.pages.store, shm.names), offset);
      AlongNext(file, from, m, ending, Meaning(shm.index.bodies, shm.pages.store, shm.names), offset, keys);
      if !GoesOn(ending, isErrSkip) {
        return;
      }
    }
    LoadingDone(file, offset, Meaning(shm.index.bodies, shm.pages.store, shm.names), isErrSkip, m0);
    ending := Applied;
  }

  /** What it means that a load follows the file. */
  lemma LoadEnded(file: Bytes, m0: Content, isErrSkip: bool, ending: Ending, m: Content)
    requires LoadFollows(file, m0, isErrSkip, ending, m)
    ensures
      var all := LoadedFrom(file, 0, m0, isErrSkip);
      m == all.1 && ending == EndingOf(all.0)
  {
    assert Look(LOAD_FOLLOWS, 0);
  }
}
