/**
 Saving a store into an archive (K2HArchive::Save), and what loading the archive into an empty store gives: what
 the first store held.
 */
module ArchiveSave {
  import opened Layout
  import opened AreaLayout
  import opened ElementTree
  import opened SizeCodec
  import opened Records
  import opened CommandArchive
  import opened ArchiveFile
  import opened ArchiveLoad
  import opened K2HShm
  import AreaCompress
  import ElementStore

  // ---------------------------------------------------------------- what has been saved

  /** What the ELEMENTs seen stand for. */
  ghost function MeaningOf(b: BodyHeap, store: Store, names: Names, seen: seq<Ptr>): Content
  {
    map k | k in names && names[k] in b && names[k] in seen :: EntryOf(b[names[k]], store)
  }

  predicate KeysDiffer(all: seq<Stored>)
  {
    && (forall i | 0 <= i < |all| :: all[i].key != [])
    && (forall i, j | 0 <= i < j < |all| :: all[i].key != all[j].key)
  }

  /** The list has what the ELEMENTs seen stand for, each key once. */
  ghost predicate Noted(all: seq<Stored>, b: BodyHeap, store: Store, names: Names, seen: seq<Ptr>)
  {
    forall u: nat {:trigger Look(NOTED, u)} :: Look(NOTED, u) ==>
      KeysDiffer(all) && ContentOf(all) == MeaningOf(b, store, names, seen)
  }

  lemma NotedNone(b: BodyHeap, store: Store, names: Names)
    ensures Noted([], b, store, names, [])
  {
  }

  lemma NotedMore(all: seq<Stored>, b: BodyHeap, live: set<Ptr>, store: Store, names: Names, hashOf: Bytes -> nat,
                  subhashOf: Bytes -> nat, seen: seq<Ptr>, e: Ptr, s: Stored)
    requires Noted(all, b, store, names, seen) && e !in seen && Keyed(b, live, store, names, hashOf, subhashOf)
    requires s.key in names && names[s.key] == e && e in b && s.entry == EntryOf(b[e], store) && s.key != []
    ensures Noted(all + [s], b, store, names, seen + [e])
  {
    assert Look(NOTED, 0);
    assert (all + [s])[..|all|] == all;
    MeaningMore(b, live, store, names, hashOf, subhashOf, seen, e, s.key);
    KeysDifferMore(all, s);
  }

  lemma MeaningMore(b: BodyHeap, live: set<Ptr>, store: Store, names: Names, hashOf: Bytes -> nat,
                    subhashOf: Bytes -> nat, seen: seq<Ptr>, e: Ptr, key: Bytes)
    requires e !in seen && Keyed(b, live, store, names, hashOf, subhashOf) && key in names && names[key] == e && e in b
    ensures key !in MeaningOf(b, store, names, seen)
    ensures MeaningOf(b, store, names, seen + [e]) == MeaningOf(b, store, names, seen)[key := EntryOf(b[e], store)]
  {
    forall k | k in names && names[k] == e
      ensures k == key
    {
      KeyedOf(b, live, store, names, hashOf, subhashOf, k);
      KeyedOf(b, live, store, names, hashOf, subhashOf, key);
    }
  }

  lemma KeysDifferMore(all: seq<Stored>, s: Stored)
    requires KeysDiffer(all) && s.key !in ContentOf(all) && s.key != []
    ensures KeysDiffer(all + [s])
  {
    ContentKeys(all, s.key);
  }

  /** An ELEMENT without a key adds nothing. */
  lemma NotedOver(all: seq<Stored>, b: BodyHeap, live: set<Ptr>, store: Store, slots: Slots, loose: set<Ptr>,
                  names: Names, hashOf: Bytes -> nat, subhashOf: Bytes -> nat, seen: seq<Ptr>, e: Ptr)
    requires Noted(all, b, store, names, seen) && Sound(live, b, live, store, slots, loose, names, hashOf, subhashOf)
    requires e in b && b[e].key == NULL
    ensures Noted(all, b, store, names, seen + [e])
  {
    forall k | k in names
      ensures names[k] != e
    {
      KeyedOf(b, live, store, names, hashOf, subhashOf, k);
      OwnsField(b, live, store, slots, loose, names[k], KEY);
    }
    assert Look(NOTED, 0);
    assert MeaningOf(b, store, names, seen + [e]) == MeaningOf(b, store, names, seen);
  }

  /** The list has the ELEMENTs of all areas, each once. */
  ghost predicate Lists(elements: seq<Ptr>, b: BodyHeap)
  {
    forall u: nat {:trigger Look(LISTED, u)} :: Look(LISTED, u) ==>
      Distinct(elements) && forall e :: e in elements <==> e in b
  }

  lemma ListedAt(elements: seq<Ptr>, b: BodyHeap, i: nat)
    requires Lists(elements, b) && i < |elements|
    ensures elements[i] in b && elements[i] !in elements[..i] && elements[..i + 1] == elements[..i] + [elements[i]]
  {
    assert Look(LISTED, 0);
  }

  lemma AllNoted(all: seq<Stored>, b: BodyHeap, store: Store, names: Names, seen: seq<Ptr>)
    requires Noted(all, b, store, names, seen) && Lists(seen, b)
    ensures KeysDiffer(all) && ContentOf(all) == Meaning(b, store, names)
  {
    assert Look(LISTED, 0) && Look(NOTED, 0);
    assert MeaningOf(b, store, names, seen) == Meaning(b, store, names);
  }

  // ---------------------------------------------------------------- the walk

  /** One byte string of a live ELEMENT, empty when it has none. */
  method ReadField(shm: Shm, e: Ptr, p: Ptr, t: PageType) returns (bytes: Bytes)
    requires shm.Valid() && e in shm.index.loc && e in shm.index.bodies && p == FieldOf(shm.index.bodies[e], t)
    ensures bytes == Text(shm.pages.store, p)
  {
    OwnsField(shm.index.bodies, shm.index.loc.Keys, shm.pages.store, shm.slots, shm.loose, e, t);
    bytes := [];
    if p != NULL {
      bytes := shm.pages.LoadData(p);
    }
  }

  /** All that a live ELEMENT holds. */
  method ReadStored(shm: Shm, e: Ptr) returns (s: Stored)
    requires shm.Valid() && e in shm.index.loc && e in shm.index.bodies
    ensures s.key in shm.names && shm.names[s.key] == e && s.key != []
    ensures s.entry == EntryOf(shm.index.bodies[e], shm.pages.store)
  {
    var body := shm.index.bodies[e];
    KeyedAt(shm.index.bodies, shm.index.loc.Keys, shm.pages.store, shm.names, shm.hashOf, shm.subhashOf, e);
    var key := ReadField(shm, e, body.key, KEY);
    var value := ReadField(shm, e, body.value, VALUE);
    var subkeys := ReadField(shm, e, body.subkeys, SUBKEYS);
    var attrs := ReadField(shm, e, body.attrs, ATTRS);
    s := Stored(key, Entry(value, subkeys, attrs));
  }

  /**
   Writes every ELEMENT with a key into the file.  The walk over the ELEMENTs moves their places, as every lookup
   does, but not what they hold.
   */
  method Save(shm: Shm, elements: seq<Ptr>) returns (file: Bytes, ghost all: seq<Stored>)
    requires shm.Valid() && Lists(elements, shm.index.bodies)
    modifies shm.index`links, shm.index`ck, shm.index`assign, shm.index`trees, shm.index`loc
    ensures shm.Valid() && shm.Abs() == old(shm.Abs())
    ensures file == FileOf(SaveAll(all)) && KeysDiffer(all) && ContentOf(all) == shm.Abs()
  {
    file, all := [], [];
    NotedNone(shm.index.bodies, shm.pages.store, shm.names);
    var i := 0;
    while i < |elements|
      invariant 0 <= i <= |elements| && shm.Valid()
      invariant Meaning(shm.index.bodies, shm.pages.store, shm.names) ==
        old(Meaning(shm.index.bodies, shm.pages.store, shm.names))
      invariant file == FileOf(SaveAll(all))
      invariant Noted(all, shm.index.bodies, shm.pages.store, shm.names, elements[..i])
    {
      ListedAt(elements, shm.index.bodies, i);
      file, all := SaveElement(shm, elements[i], file, all, elements[..i]);
      i := i + 1;
    }
    assert elements[..i] == elements;
    AllNoted(all, shm.index.bodies, shm.pages.store, shm.names, elements);
  }

  lemma SavedMore(all: seq<Stored>, s: Stored)
    ensures SaveAll(all + [s]) == SaveAll(all) + SaveOne(s)
  {
    SaveAppend(all + [s]);
    assert (all + [s])[..|all|] == all;
  }

  /** Writes one ELEMENT, if it has a key. */
  method SaveElement(shm: Shm, e: Ptr, file: Bytes, ghost all: seq<Stored>, ghost seen: seq<Ptr>)
    returns (file': Bytes, ghost all': seq<Stored>)
    requires shm.Valid() && e in shm.index.bodies && e !in seen && file == FileOf(SaveAll(all))
    requires Noted(all, shm.index.bodies, shm.pages.store, shm.names, seen)
    modifies shm.index`links, shm.index`ck, shm.index`assign, shm.index`trees, shm.index`loc
    ensures
      && shm.Valid()
      && Meaning(shm.index.bodies, shm.pages.store, shm.names) ==
           old(Meaning(shm.index.bodies, shm.pages.store, shm.names))
    ensures file' == FileOf(SaveAll(all'))
    ensures Noted(all', shm.index.bodies, shm.pages.store, shm.names, seen + [e])
  {
    file', all' := file, all;
    if shm.index.bodies[e].key != NULL {
      ElementStore.KeyedIsLive(shm.index.bodies, shm.index.links, shm.index.loc, shm.index.free,
        shm.index.pfreeElements, shm.areas.used, e);
      AreaCompress.LocateElement(shm, e);
      var s := ReadStored(shm, e);
      file' := SaveKey(s, file, SaveAll(all));
      all' := all + [s];
      SavedMore(all, s);
      NotedMore(all, shm.index.bodies, shm.index.loc.Keys, shm.pages.store, shm.names, shm.hashOf, shm.subhashOf, seen,
        e, s);
    } else {
      NotedOver(all, shm.index.bodies, shm.index.loc.Keys, shm.pages.store, shm.slots, shm.loose, shm.names, shm.hashOf,
        shm.subhashOf, seen, e);
    }
  }

  // ---------------------------------------------------------------- saving and loading

  /** The buffer of one command for the key has a size_t for a length. */
  predicate LengthsFit(key: Bytes, entry: Entry)
  {
    SCOM_SIZE + |key| + |entry.value| + |entry.subkeys| + |entry.attrs| + SIZE_T < Limit(SIZE_T)
  }

  predicate AllFit(m: Content)
  {
    forall k | k in m :: LengthsFit(k, m[k])
  }

  lemma {:induction false} ChunksPuttable(key: Bytes, value: Bytes, offset: nat)
    requires key != [] && SCOM_SIZE + |key| + |value| + SIZE_T < Limit(SIZE_T)
    ensures AllPuttable(Chunks(key, value, offset))
    decreases |value| - offset
  {
    if offset < |value| {
      var n := if |value| - offset < MAX_VALLENGTH_FOR_SERIALIZE then |value| - offset else MAX_VALLENGTH_FOR_SERIALIZE;
      ChunksPuttable(key, value, offset + n);
    }
  }

  lemma OnePuttable(s: Stored)
    requires s.key != [] && LengthsFit(s.key, s.entry)
    ensures AllPuttable(SaveOne(s))
  {
    ChunksPuttable(s.key, s.entry.value, 0);
  }

  lemma {:induction false} SavedPuttable(all: seq<Stored>)
    requires KeysDiffer(all) && forall i | 0 <= i < |all| :: LengthsFit(all[i].key, all[i].entry)
    ensures AllPuttable(SaveAll(all))
  {
    if all != [] {
      OnePuttable(all[0]);
      SavedPuttable(all[1..]);
    }
  }

  /** The list has what the map has. */
  lemma {:induction false} ContentAt(all: seq<Stored>, i: nat)
    requires KeysDiffer(all) && i < |all|
    ensures all[i].key in ContentOf(all) && ContentOf(all)[all[i].key] == all[i].entry
  {
    var n := |all| - 1;
    if i < n {
      ContentAt(all[..n], i);
    }
  }

  /**
   Loading the archive of a store into an empty one, when there is room, ends well and gives what the first store
   held.
   */
  lemma SavedRestored(m: Content, all: seq<Stored>, file: Bytes, ending: Ending, m': Content)
    requires file == FileOf(SaveAll(all)) && KeysDiffer(all) && ContentOf(all) == m && AllFit(m)
    requires LoadFollows(file, map[], false, ending, m')
    ensures ending == Applied && m' == m
  {
    forall i | 0 <= i < |all|
      ensures LengthsFit(all[i].key, all[i].entry)
    {
      ContentAt(all, i);
    }
    SavedPuttable(all);
    SavedThenLoaded(all);
    LoadEnded(file, map[], false, ending, m');
  }

  /** A file of commands about some keys is, all along, about these. */
  lemma {:induction false} FileAbout(pre: Bytes, cs: seq<Command>, keys: set<Bytes>)
    requires AllPuttable(cs) && forall i | 0 <= i < |cs| :: AboutKeys(Carried(cs[i]), keys)
    ensures KeysAlong(pre + FileOf(cs), |pre|, keys)
    decreases |cs|
  {
    if cs != [] {
      var pre', post := pre + Encoded(cs[0]), FileOf(cs[1..]);
      assert pre + FileOf(cs) == pre' + post;
      CommandRead(pre, cs[0], post);
      FileAbout(pre', cs[1..], keys);
      AlongFrom(pre' + post, |pre|, |pre'|, keys);
    }
  }

  lemma AlongFrom(file: Bytes, offset: nat, next: nat, keys: set<Bytes>)
    requires offset + SCOM_SIZE <= |file| && next == offset + TotalLength(ScomAt(file, offset))
    requires KeysAlong(file, next, keys)
    requires AllReadable(file, offset, ScomAt(file, offset)) ==>
      AboutKeys(CommandAt(file, offset, ScomAt(file, offset)), keys)
    ensures KeysAlong(file, offset, keys)
  {
  }

  lemma {:induction false} ChunksAbout(key: Bytes, value: Bytes, offset: nat, keys: set<Bytes>)
    requires key in keys
    ensures forall c | c in Chunks(key, value, offset) :: AboutKeys(Carried(c), keys)
    decreases |value| - offset
  {
    if offset < |value| {
      var n := if |value| - offset < MAX_VALLENGTH_FOR_SERIALIZE then |value| - offset else MAX_VALLENGTH_FOR_SERIALIZE;
      ChunksAbout(key, value, offset + n, keys);
    }
  }

  lemma {:induction false} SavedAbout(all: seq<Stored>, keys: set<Bytes>)
    requires forall s | s in all :: s.key in keys
    ensures forall c | c in SaveAll(all) :: AboutKeys(Carried(c), keys)
  {
    if all != [] {
      ChunksAbout(all[0].key, all[0].entry.value, 0, keys);
      SavedAbout(all[1..], keys);
    }
  }

  /** An archive is about the keys that are saved in it. */
  lemma ArchiveAbout(all: seq<Stored>, m: Content)
    requires KeysDiffer(all) && ContentOf(all) == m && AllFit(m)
    ensures KeysAlong(FileOf(SaveAll(all)), 0, m.Keys)
  {
    forall i | 0 <= i < |all|
      ensures all[i].key in m.Keys && LengthsFit(all[i].key, all[i].entry)
    {
      ContentAt(all, i);
    }
    SavedPuttable(all);
    SavedAbout(all, m.Keys);
    FileAbout([], SaveAll(all), m.Keys);
    assert [] + FileOf(SaveAll(all)) == FileOf(SaveAll(all));
  }

  /** Saves a store whose keys and values are not too long; the archive is about its keys. */
  method SaveAbout(shm: Shm, elements: seq<Ptr>, ghost m: Content) returns (file: Bytes, ghost all: seq<Stored>)
    requires shm.Valid() && Lists(elements, shm.index.bodies) && m == shm.Abs() && AllFit(m)
    modifies shm.index`links, shm.index`ck, shm.index`assign, shm.index`trees, shm.index`loc
    ensures shm.Valid() && shm.Abs() == m && KeysAlong(file, 0, m.Keys)
    ensures file == FileOf(SaveAll(all)) && KeysDiffer(all) && ContentOf(all) == m
  {
    file, all := Save(shm, elements);
    ArchiveAbout(all, m);
  }

  /** Loads the archive of another store into an empty one. */
  method LoadSaved(shm: Shm, file: Bytes, ghost all: seq<Stored>, ghost m: Content) returns (ending: Ending)
    requires shm.Valid() && Meaning(shm.index.bodies, shm.pages.store, shm.names) == map[] && AllFit(m)
    requires file == FileOf(SaveAll(all)) && KeysDiffer(all) && ContentOf(all) == m && KeysAlong(file, 0, m.Keys)
    requires KeysApart(m.Keys, shm.index.assign, shm.index.maskBits, shm.index.collisionBits, shm.hashOf, shm.subhashOf)
    modifies shm, shm.index, shm.pages, shm.areas, shm.areas.table
    ensures ending == NoRoom ||
      (ending == Applied && shm.Valid() && Meaning(shm.index.bodies, shm.pages.store, shm.names) == m)
    ensures ending == NoRoom ==> MAX_K2HAREA_COUNT <= shm.areas.count + 1
  {
    ending := Load(shm, file, false, m.Keys);
    if ending != NoRoom {
      SavedRestored(m, all, file, ending, Meaning(shm.index.bodies, shm.pages.store, shm.names));
    }
  }

  /** A store saved into an archive, and the archive loaded into an empty store: both then hold the same. */
  method SaveThenLoad(from: Shm, elements: seq<Ptr>, to: Shm) returns (ending: Ending)
    requires from.Valid() && to.Valid() && from.index != to.index && Lists(elements, from.index.bodies)
    requires to.Abs() == map[] && AllFit(from.Abs())
    requires KeysApart(from.Abs().Keys, to.index.assign, to.index.maskBits, to.index.collisionBits, to.hashOf,
      to.subhashOf)
    modifies from.index`links, from.index`ck, from.index`assign, from.index`trees, from.index`loc
    modifies to, to.index, to.pages, to.areas, to.areas.table
    ensures ending == NoRoom || (ending == Applied && to.Valid() && to.Abs() == old(from.Abs()))
    ensures ending == NoRoom ==> MAX_K2HAREA_COUNT <= to.areas.count + 1
  {
    ghost var m := from.Abs();
    var file;
    ghost var all;
    file, all := SaveAbout(from, elements, m);
    assert
      && unchanged(to) && unchanged(to.index) && unchanged(to.pages) && unchanged(to.areas)
      && unchanged(to.areas.table);
    ending := LoadSaved(to, file, all, m);
  }
}
