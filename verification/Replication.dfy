/**
 Taking over the elements of another server (K2HShm::SetElementByBinArray): which of two records of a
 key is kept, and exactly when the order in which records arrive does not matter.
 */
module Replication {
  import opened Layout
  import opened AreaLayout
  import opened TreeMoves
  import opened Forest
  import opened Records
  import opened Timestamps
  import opened K2HShm

  /** What the attributes tell about time, at the time of the merge. */
  datatype Clock = Clock(isExpired: Bytes -> bool, mtimeOf: Bytes -> Option<Time>)

  /** The raw data of one element. */
  datatype Record = Record(key: Bytes, value: Bytes, subkeys: Bytes, attrs: Bytes)

  function EntryOfRecord(r: Record): Entry
  {
    Entry(r.value, r.subkeys, r.attrs)
  }

  function MTime(clock: Clock, attrs: Bytes): Option<Time>
  {
    if attrs == [] then None else clock.mtimeOf(attrs)
  }

  /**
   Whether an existing entry is kept against a record: it is not expired, and its mtime is not before the time limit,
   or not before the record's.
   */
  predicate Keeps(clock: Clock, entry: Entry, r: Record, pts: Time)
  {
    && entry.attrs != [] && !clock.isExpired(entry.attrs) && MTime(clock, entry.attrs).Some?
    && var mtime := MTime(clock, entry.attrs).value;
    !Before(mtime, pts) || MTime(clock, r.attrs).None? || !Before(mtime, MTime(clock, r.attrs).value)
  }

  /** A record without any data stands for a key without any. */
  function Merged(clock: Clock, m: Content, r: Record, pts: Time): Content
  {
    if r.key in m && Keeps(clock, m[r.key], r, pts) then m
    else if r.value == [] && r.subkeys == [] && r.attrs == [] then m - {r.key}
    else m[r.key := EntryOfRecord(r)]
  }

  /**
   Puts a record in, unless the key has one that is to be kept.  When there is no room for the new
   element the old one stays.
   */
  method SetElementByBinArray(shm: Shm, clock: Clock, r: Record, pts: Time) returns (ok: bool)
    requires
      && shm.Valid()
      && Twinless(Meaning(shm.index.bodies, shm.pages.store, shm.names), r.key, shm.hashOf, shm.subhashOf)
      && FitsIn(Meaning(shm.index.bodies, shm.pages.store, shm.names), shm.index.assign, shm.index.maskBits,
           shm.index.collisionBits, r.key, shm.hashOf, shm.subhashOf)
    modifies shm`slots, shm`loose, shm`names, shm.pages, shm.areas, shm.areas.table
    modifies shm.index`links, shm.index`bodies, shm.index`ck, shm.index`assign, shm.index`trees, shm.index`loc
    modifies shm.index`pfreeElements, shm.index`freeElementCount, shm.index`free, shm.index`held
    ensures shm.Valid() && shm.loose == old(shm.loose)
    ensures Finer(old(shm.index.assign), shm.index.maskBits, shm.index.assign, shm.index.maskBits,
        shm.index.collisionBits)
    ensures r.key == [] ==> !ok
    ensures Meaning(shm.index.bodies, shm.pages.store, shm.names) ==
      if ok then Merged(clock, old(Meaning(shm.index.bodies, shm.pages.store, shm.names)), r, pts)
      else old(Meaning(shm.index.bodies, shm.pages.store, shm.names))
    ensures r.key != [] && !ok ==> shm.areas.count == MAX_K2HAREA_COUNT
  {
    if r.key == [] {
      FinerSame(shm.index.assign, shm.index.maskBits, shm.index.collisionBits);
      return false;
    }
    ghost var m := Meaning(shm.index.bodies, shm.pages.store, shm.names);
    var cp, e := shm.LookupFitting(r.key);
    ok := PutUnlessKept(shm, clock, r, pts, cp, e, m);
  }

  /** Puts a record in once the ELEMENT of its key is found. */
  method PutUnlessKept(shm: Shm, clock: Clock, r: Record, pts: Time, cp: CKPtr, e: Ptr, ghost m: Content)
    returns (ok: bool)
    requires shm.Valid() && m == Meaning(shm.index.bodies, shm.pages.store, shm.names) && r.key != []
    requires FoundFitting(m, shm.names, r.key, cp, e, shm.index.assign, shm.index.maskBits, shm.index.collisionBits,
        shm.index.ck, shm.hashOf, shm.subhashOf)
    modifies shm`slots, shm`loose, shm`names, shm.pages, shm.areas, shm.areas.table
    modifies shm.index`links, shm.index`bodies, shm.index`ck, shm.index`trees, shm.index`loc
    modifies shm.index`pfreeElements, shm.index`freeElementCount, shm.index`free, shm.index`held
    ensures shm.Valid() && shm.loose == old(shm.loose)
    ensures Meaning(shm.index.bodies, shm.pages.store, shm.names) == if ok then Merged(clock, m, r, pts) else m
    ensures !ok ==> shm.areas.count == MAX_K2HAREA_COUNT
  {
    shm.NamesAre();
    assert Look(LOCATED, 0);
    if e != NULL {
      var kept := IsKept(shm, clock, e, r, pts);
      if kept {
        return true;
      }
    }
    ok := shm.Overwrite(r.key, cp, e, r.value, r.subkeys, r.attrs);
  }

  /** Whether the ELEMENT of the key is to be kept. */
  method IsKept(shm: Shm, clock: Clock, e: Ptr, r: Record, pts: Time) returns (kept: bool)
    requires shm.Valid() && r.key in shm.names && e == shm.names[r.key]
    ensures r.key in shm.Abs() && kept == Keeps(clock, shm.Abs()[r.key], r, pts)
  {
    var bytes := shm.LoadAttrs(e, r.key);
    if bytes == [] || clock.isExpired(bytes) {
      return false;
    }
    var mtime := clock.mtimeOf(bytes);
    if mtime.None? {
      return false;
    }
    if !Before(mtime.value, pts) {
      return true;
    }
    var newMTime := MTime(clock, r.attrs);
    if newMTime.Some? && Before(mtime.value, newMTime.value) {
      return false;
    }
    return true;
  }

  /** Puts records in one after the other, up to the first for which there is no room. */
  method MergeRecords(shm: Shm, clock: Clock, rs: seq<Record>, pts: Time, ghost keys: set<Bytes>) returns (n: nat)
    requires shm.Valid() && shm.Admits(keys) && forall r | r in rs :: r.key != [] && r.key in keys
    modifies shm`slots, shm`loose, shm`names, shm.index, shm.pages, shm.areas, shm.areas.table
    ensures shm.Valid() && shm.loose == old(shm.loose) && n <= |rs|
    ensures shm.Abs() == MergedAll(clock, old(shm.Abs()), rs[..n], pts)
    ensures n < |rs| ==> shm.areas.count == MAX_K2HAREA_COUNT
  {
    ghost var m := shm.Abs();
    n := 0;
    while n < |rs|
      invariant shm.Valid() && shm.loose == old(shm.loose) && n <= |rs|
      invariant shm.Abs() == MergedAll(clock, m, rs[..n], pts) && shm.Admits(keys)
    {
      assert rs[n] in rs && rs[..n + 1][..n] == rs[..n];
      ApartFits(shm.Abs(), keys, shm.index.assign, shm.index.maskBits, shm.index.collisionBits, rs[n].key, shm.hashOf,
        shm.subhashOf);
      ghost var ka, bits := shm.index.assign, shm.index.maskBits;
      var ok := SetElementByBinArray(shm, clock, rs[n], pts);
      ApartLater(keys, ka, bits, shm.index.assign, shm.index.maskBits, shm.index.collisionBits, shm.hashOf,
        shm.subhashOf);
      if !ok {
        return;
      }
      n := n + 1;
    }
  }

  // ---------------------------------------------------------------- the last writer wins

  function MergedAll(clock: Clock, m: Content, rs: seq<Record>, pts: Time): Content
  {
    if rs == [] then m else Merged(clock, MergedAll(clock, m, rs[..|rs| - 1], pts), rs[|rs| - 1], pts)
  }

  lemma {:induction false} MergedFirst(clock: Clock, m: Content, r: Record, rs: seq<Record>, pts: Time)
    ensures MergedAll(clock, m, [r] + rs, pts) == MergedAll(clock, Merged(clock, m, r, pts), rs, pts)
  {
    var all := [r] + rs;
    if rs == [] {
      assert all[..0] == [];
    } else {
      assert all[..|all| - 1] == [r] + rs[..|rs| - 1];
      MergedFirst(clock, m, r, rs[..|rs| - 1], pts);
    }
  }

  /** The record has a key and an mtime before the time limit, and is not expired. */
  predicate Dated(clock: Clock, r: Record, pts: Time)
  {
    && r.key != [] && r.attrs != [] && !clock.isExpired(r.attrs) && MTime(clock, r.attrs).Some?
    && Before(MTime(clock, r.attrs).value, pts)
  }

  ghost predicate AllDated(clock: Clock, s: set<Record>, pts: Time)
  {
    forall r | r in s :: Dated(clock, r, pts)
  }

  lemma BeforeTotal(a: Time, b: Time)
    ensures Before(a, b) || Before(b, a) || a == b
    ensures !(Before(a, b) && Before(b, a))
  {
  }

  function RecordSet(rs: seq<Record>): set<Record>
  {
    set r | r in rs
  }

  function KeysOf(s: set<Record>): set<Bytes>
  {
    set r | r in s :: r.key
  }

  /** The entry holds out against a record: it is not expired, and its mtime is not before the record's. */
  predicate HoldsOut(clock: Clock, entry: Entry, r: Record)
  {
    && entry.attrs != [] && !clock.isExpired(entry.attrs) && MTime(clock, entry.attrs).Some?
    && (MTime(clock, r.attrs).Some? ==> !Before(MTime(clock, entry.attrs).value, MTime(clock, r.attrs).value))
  }

  /** Against a dated record the time limit makes no difference. */
  lemma KeepsDated(clock: Clock, entry: Entry, r: Record, pts: Time)
    requires Dated(clock, r, pts)
    ensures Keeps(clock, entry, r, pts) <==> HoldsOut(clock, entry, r)
  {
  }

  /** What is stored under the key is not older than any record of the key. */
  ghost predicate HeldStays(clock: Clock, m: Content, s: set<Record>, k: Bytes)
  {
    k in m && forall r | r in s && r.key == k :: HoldsOut(clock, m[k], r)
  }

  /** No record of s with its key is newer. */
  ghost predicate Newest(clock: Clock, s: set<Record>, r: Record)
  {
    r in s && forall r2 | r2 in s && r2.key == r.key :: HoldsOut(clock, EntryOfRecord(r), r2)
  }

  /** Under a key of s is what was there, if that is not older, and a newest record otherwise. */
  ghost predicate WonAt(clock: Clock, m: Content, m': Content, s: set<Record>, k: Bytes)
  {
    && k in m'
    && if HeldStays(clock, m, s, k) then m'[k] == m[k]
       else exists r :: Newest(clock, s, r) && r.key == k && m'[k] == EntryOfRecord(r)
  }

  ghost predicate LastWriterWins(clock: Clock, m: Content, m': Content, s: set<Record>)
  {
    && (forall k | k in KeysOf(s) :: WonAt(clock, m, m', s, k))
    && (forall k | k !in KeysOf(s) :: (k in m' <==> k in m) && (k in m ==> m'[k] == m[k]))
  }

  /**
   Merging records one by one into any content, in whatever order they come, leaves under each of their keys
   a newest of them, or what was there before if that is not older, and does not touch other keys.
   */
  lemma {:induction false} MergedWon(clock: Clock, m: Content, rs: seq<Record>, pts: Time)
    requires AllDated(clock, RecordSet(rs), pts)
    ensures LastWriterWins(clock, m, MergedAll(clock, m, rs, pts), RecordSet(rs))
  {
    if rs != [] {
      var n := |rs| - 1;
      assert RecordSet(rs) == RecordSet(rs[..n]) + {rs[n]};
      MergedWon(clock, m, rs[..n], pts);
      MergeOne(clock, m, MergedAll(clock, m, rs[..n], pts), RecordSet(rs[..n]), rs[n], pts);
    }
  }

  lemma MergeOne(clock: Clock, m: Content, m1: Content, s: set<Record>, r: Record, pts: Time)
    requires LastWriterWins(clock, m, m1, s) && AllDated(clock, s + {r}, pts)
    ensures LastWriterWins(clock, m, Merged(clock, m1, r, pts), s + {r})
  {
    var s', m' := s + {r}, Merged(clock, m1, r, pts);
    assert r in s' && KeysOf(s') == KeysOf(s) + {r.key};
    forall k | k in KeysOf(s')
      ensures WonAt(clock, m, m', s', k)
    {
      if k != r.key {
        WonStill(clock, m, m1, m', s, r, k);
      } else if k in KeysOf(s) {
        WonAgain(clock, m, m1, s, r, pts);
      } else {
        WonFirst(clock, m, m1, s, r, pts);
      }
    }
  }

  /** A record of another key makes no difference. */
  lemma WonStill(clock: Clock, m: Content, m1: Content, m': Content, s: set<Record>, r: Record, k: Bytes)
    requires WonAt(clock, m, m1, s, k) && k != r.key && k in m' && m'[k] == m1[k]
    ensures WonAt(clock, m, m', s + {r}, k)
  {
    if !HeldStays(clock, m, s, k) {
      var r1 :| Newest(clock, s, r1) && r1.key == k && m1[k] == EntryOfRecord(r1);
      assert Newest(clock, s + {r}, r1);
    }
  }

  /** The first record of a key. */
  lemma WonFirst(clock: Clock, m: Content, m1: Content, s: set<Record>, r: Record, pts: Time)
    requires
      && r.key !in KeysOf(s) && Dated(clock, r, pts) && (r.key in m1 <==> r.key in m)
      && (r.key in m ==> m1[r.key] == m[r.key])
    ensures WonAt(clock, m, Merged(clock, m1, r, pts), s + {r}, r.key)
  {
    assert forall r2 | r2 in s :: r2.key in KeysOf(s);
    BeforeTotal(MTime(clock, r.attrs).value, MTime(clock, r.attrs).value);
    assert Newest(clock, s + {r}, r);
    if r.key in m {
      KeepsDated(clock, m[r.key], r, pts);
    }
  }

  /** A further record of a key. */
  lemma WonAgain(clock: Clock, m: Content, m1: Content, s: set<Record>, r: Record, pts: Time)
    requires WonAt(clock, m, m1, s, r.key) && r.key in KeysOf(s) && AllDated(clock, s + {r}, pts)
    ensures WonAt(clock, m, Merged(clock, m1, r, pts), s + {r}, r.key)
  {
    var k, s' := r.key, s + {r};
    assert r in s';
    KeepsDated(clock, m1[k], r, pts);
    if HeldStays(clock, m, s, k) {
      if !HoldsOut(clock, m[k], r) {
        NewestNow(clock, m[k], s, r, pts);
      }
    } else {
      var r1 :| Newest(clock, s, r1) && r1.key == k && m1[k] == EntryOfRecord(r1);
      if HoldsOut(clock, m1[k], r) {
        assert Newest(clock, s', r1);
      } else {
        NewestNow(clock, m1[k], s, r, pts);
      }
    }
  }

  /** A record that replaces an entry which holds out against all others is newer than they are. */
  lemma NewestNow(clock: Clock, entry: Entry, s: set<Record>, r: Record, pts: Time)
    requires AllDated(clock, s + {r}, pts) && !HoldsOut(clock, entry, r) && r.key in KeysOf(s)
    requires forall r2 | r2 in s && r2.key == r.key :: HoldsOut(clock, entry, r2)
    ensures Newest(clock, s + {r}, r)
  {
    assert r in s + {r};
    var some :| some in s && some.key == r.key;
    forall r2 | r2 in s + {r} && r2.key == r.key
      ensures HoldsOut(clock, EntryOfRecord(r), r2)
    {
      BeforeTotal(MTime(clock, r.attrs).value, MTime(clock, r2.attrs).value);
      if r2 != r {
        assert HoldsOut(clock, entry, r2);
      }
    }
  }

  // ---------------------------------------------------------------- in numbers

  /** All times that attributes carry are normal. */
  ghost predicate TimesNormal(clock: Clock)
  {
    forall attrs :: clock.mtimeOf(attrs).Some? ==> Normal(clock.mtimeOf(attrs).value)
  }

  /** The attributes are there, not expired, and carry an mtime. */
  predicate Timed(clock: Clock, attrs: Bytes)
  {
    attrs != [] && !clock.isExpired(attrs) && clock.mtimeOf(attrs).Some?
  }

  /** The mtime in nanoseconds. */
  function TimeOf(clock: Clock, attrs: Bytes): int
    requires clock.mtimeOf(attrs).Some?
  {
    Nanos(clock.mtimeOf(attrs).value)
  }

  lemma ComparedTimes(clock: Clock, a: Bytes, b: Bytes)
    requires TimesNormal(clock) && clock.mtimeOf(a).Some? && clock.mtimeOf(b).Some?
    ensures Before(clock.mtimeOf(a).value, clock.mtimeOf(b).value) <==> TimeOf(clock, a) < TimeOf(clock, b)
  {
    BeforeIsLess(clock.mtimeOf(a).value, clock.mtimeOf(b).value);
  }

  /**
   What one record does.  An entry that is there stays only if it carries a time: then if that is not before the
   time limit, if the record has no time, and if the time of the record is not greater.
   */
  lemma MergedOne(clock: Clock, m: Content, r: Record, pts: Time)
    requires TimesNormal(clock) && Normal(pts)
    ensures
      var stays :=
        && r.key in m && Timed(clock, m[r.key].attrs)
        && var held := TimeOf(clock, m[r.key].attrs);
           Nanos(pts) <= held || r.attrs == [] || clock.mtimeOf(r.attrs).None? || TimeOf(clock, r.attrs) <= held;
      Merged(clock, m, r, pts) ==
        if stays then m
        else if r.value == [] && r.subkeys == [] && r.attrs == [] then m - {r.key}
        else m[r.key := Entry(r.value, r.subkeys, r.attrs)]
  {
    if r.key in m && Timed(clock, m[r.key].attrs) {
      var held := m[r.key].attrs;
      BeforeIsLess(clock.mtimeOf(held).value, pts);
      if clock.mtimeOf(r.attrs).Some? {
        ComparedTimes(clock, held, r.attrs);
      }
    }
  }

  /** The entry carries a time, and no record of the key a greater one. */
  ghost predicate Latest(clock: Clock, entry: Entry, s: set<Record>, k: Bytes)
  {
    Timed(clock, entry.attrs) &&
    forall r | r in s && r.key == k && clock.mtimeOf(r.attrs).Some? ::
      TimeOf(clock, r.attrs) <= TimeOf(clock, entry.attrs)
  }

  lemma LatestIs(clock: Clock, entry: Entry, s: set<Record>, k: Bytes, pts: Time)
    requires TimesNormal(clock) && AllDated(clock, s, pts) && k in KeysOf(s)
    ensures Latest(clock, entry, s, k) <==> forall r | r in s && r.key == k :: HoldsOut(clock, entry, r)
  {
    var some :| some in s && some.key == k;
    forall r | r in s && r.key == k && Timed(clock, entry.attrs)
      ensures TimeOf(clock, r.attrs) <= TimeOf(clock, entry.attrs) <==> HoldsOut(clock, entry, r)
    {
      ComparedTimes(clock, entry.attrs, r.attrs);
    }
    assert Timed(clock, entry.attrs) || !HoldsOut(clock, entry, some);
  }

  /**
   Merging records that all carry a time before the limit, into any content and in whatever order they come: under
   each of their keys is the record with the greatest time, unless what was held carries a time that is not less;
   other keys are not touched.
   */
  lemma MergedNewest(clock: Clock, m: Content, rs: seq<Record>, pts: Time)
    requires TimesNormal(clock) && Normal(pts)
    requires forall r | r in rs :: r.key != [] && Timed(clock, r.attrs) && TimeOf(clock, r.attrs) < Nanos(pts)
    ensures
      var m' := MergedAll(clock, m, rs, pts);
      forall k: Bytes ::
        if !exists r :: r in rs && r.key == k then (k in m' <==> k in m) && (k in m ==> m'[k] == m[k])
        else if k in m && Latest(clock, m[k], RecordSet(rs), k) then k in m' && m'[k] == m[k]
        else
          && k in m' && Latest(clock, m'[k], RecordSet(rs), k)
          && exists r :: r in rs && r.key == k && m'[k] == Entry(r.value, r.subkeys, r.attrs)
  {
    var s, m' := RecordSet(rs), MergedAll(clock, m, rs, pts);
    forall r | r in s
      ensures Dated(clock, r, pts)
    {
      BeforeIsLess(clock.mtimeOf(r.attrs).value, pts);
    }
    MergedWon(clock, m, rs, pts);
    forall k: Bytes | k in KeysOf(s)
      ensures k in m'
      ensures
        if k in m && Latest(clock, m[k], s, k) then m'[k] == m[k]
        else
          && Latest(clock, m'[k], s, k)
          && exists r :: r in rs && r.key == k && m'[k] == Entry(r.value, r.subkeys, r.attrs)
    {
      assert WonAt(clock, m, m', s, k);
      if k in m {
        LatestIs(clock, m[k], s, k, pts);
      }
      if !HeldStays(clock, m, s, k) {
        var r :| Newest(clock, s, r) && r.key == k && m'[k] == EntryOfRecord(r);
        LatestIs(clock, EntryOfRecord(r), s, k, pts);
      }
    }
  }

  // ---------------------------------------------------------------- when the order does not matter

  /** All sequences of the records, however often each comes in them, leave the same content. */
  ghost predicate OrderFree(clock: Clock, m: Content, s: set<Record>, pts: Time)
  {
    forall rs1, rs2 | RecordSet(rs1) == s && RecordSet(rs2) == s ::
      MergedAll(clock, m, rs1, pts) == MergedAll(clock, m, rs2, pts)
  }

  /** What is stored is not older than the records of the key, or all newest ones of them carry the same entry. */
  ghost predicate Decided(clock: Clock, m: Content, s: set<Record>, k: Bytes)
  {
    || HeldStays(clock, m, s, k)
    || forall r1, r2 | Newest(clock, s, r1) && Newest(clock, s, r2) && r1.key == k && r2.key == k ::
         EntryOfRecord(r1) == EntryOfRecord(r2)
  }

  /** Merging dated records into any content leaves the same in every order if and only if every key is decided. */
  lemma OrderFreeIff(clock: Clock, m: Content, s: set<Record>, pts: Time)
    requires AllDated(clock, s, pts)
    ensures OrderFree(clock, m, s, pts) <==> forall k | k in KeysOf(s) :: Decided(clock, m, s, k)
  {
    if forall k | k in KeysOf(s) :: Decided(clock, m, s, k) {
      forall rs1, rs2 | RecordSet(rs1) == s && RecordSet(rs2) == s
        ensures MergedAll(clock, m, rs1, pts) == MergedAll(clock, m, rs2, pts)
      {
        OrderDoesNotMatter(clock, m, rs1, rs2, pts);
      }
    } else {
      var k :| k in KeysOf(s) && !Decided(clock, m, s, k);
      var rs1, rs2 := OrderMatters(clock, m, s, k, pts);
      assert !OrderFree(clock, m, s, pts);
    }
  }

  /** When every key is decided, two sequences of the same records leave the same. */
  lemma OrderDoesNotMatter(clock: Clock, m: Content, rs1: seq<Record>, rs2: seq<Record>, pts: Time)
    requires RecordSet(rs1) == RecordSet(rs2) && AllDated(clock, RecordSet(rs1), pts)
    requires forall k | k in KeysOf(RecordSet(rs1)) :: Decided(clock, m, RecordSet(rs1), k)
    ensures MergedAll(clock, m, rs1, pts) == MergedAll(clock, m, rs2, pts)
  {
    MergedWon(clock, m, rs1, pts);
    MergedWon(clock, m, rs2, pts);
    var s, m1, m2 := RecordSet(rs1), MergedAll(clock, m, rs1, pts), MergedAll(clock, m, rs2, pts);
    forall k | k in m1 || k in m2
      ensures k in m1 && k in m2 && m1[k] == m2[k]
    {
      if k in KeysOf(s) {
        assert WonAt(clock, m, m1, s, k) && WonAt(clock, m, m2, s, k) && Decided(clock, m, s, k);
      }
    }
  }

  /** The records of a set, one after the other. */
  lemma {:induction false} Listed(s: set<Record>) returns (rs: seq<Record>)
    ensures RecordSet(rs) == s
    decreases |s|
  {
    rs := [];
    if s != {} {
      var r :| r in s;
      var more := Listed(s - {r});
      rs := [r] + more;
      assert forall r1 :: r1 in rs <==> r1 == r || r1 in RecordSet(more);
    }
  }

  /** For a key that is not decided two sequences of the records leave different entries. */
  lemma OrderMatters(clock: Clock, m: Content, s: set<Record>, k: Bytes, pts: Time)
    returns (rs1: seq<Record>, rs2: seq<Record>)
    requires AllDated(clock, s, pts) && k in KeysOf(s) && !Decided(clock, m, s, k)
    ensures RecordSet(rs1) == s && RecordSet(rs2) == s && MergedAll(clock, m, rs1, pts) != MergedAll(clock, m, rs2, pts)
  {
    var r1, r2 :|
      && Newest(clock, s, r1) && Newest(clock, s, r2) && r1.key == k && r2.key == k
      && EntryOfRecord(r1) != EntryOfRecord(r2);
    var rs := Listed(s);
    rs1, rs2 := [r1] + rs, [r2] + rs;
    FirstWins(clock, m, s, r1, rs, pts);
    FirstWins(clock, m, s, r2, rs, pts);
  }

  /** A newest record that comes first stays, unless what is stored holds out against all records of its key. */
  lemma FirstWins(clock: Clock, m: Content, s: set<Record>, r: Record, rs: seq<Record>, pts: Time)
    requires AllDated(clock, s, pts) && RecordSet(rs) == s && Newest(clock, s, r) && !HeldStays(clock, m, s, r.key)
    ensures RecordSet([r] + rs) == s
    ensures
      var m' := MergedAll(clock, m, [r] + rs, pts);
      r.key in m' && m'[r.key] == EntryOfRecord(r)
  {
    assert forall r1 :: r1 in [r] + rs <==> r1 == r || r1 in RecordSet(rs);
    MergedFirst(clock, m, r, rs, pts);
    if r.key in m {
      KeepsDated(clock, m[r.key], r, pts);
      var r2 :| r2 in s && r2.key == r.key && !HoldsOut(clock, m[r.key], r2);
      assert HoldsOut(clock, EntryOfRecord(r), r2);
    }
    var m1 := Merged(clock, m, r, pts);
    assert HeldStays(clock, m1, s, r.key) && r.key in KeysOf(s);
    MergedWon(clock, m1, rs, pts);
    assert WonAt(clock, m1, MergedAll(clock, m1, rs, pts), s, r.key);
  }

  /** Of two records of a key the order matters exactly when they tie, differ, and what is stored is older. */
  lemma TieMatters(clock: Clock, m: Content, r1: Record, r2: Record, pts: Time)
    requires Dated(clock, r1, pts) && Dated(clock, r2, pts) && r1.key == r2.key
    ensures
      MergedAll(clock, m, [r1, r2], pts) == MergedAll(clock, m, [r2, r1], pts) <==>
      || MTime(clock, r1.attrs) != MTime(clock, r2.attrs) || EntryOfRecord(r1) == EntryOfRecord(r2)
      || (r1.key in m && HoldsOut(clock, m[r1.key], r1))
  {
    BeforeTotal(MTime(clock, r1.attrs).value, MTime(clock, r2.attrs).value);
    TwoMerged(clock, m, r1, r2, pts);
    TwoMerged(clock, m, r2, r1, pts);
    if r1.key in m {
      KeepsDated(clock, m[r1.key], r1, pts);
      KeepsDated(clock, m[r1.key], r2, pts);
    }
    KeepsDated(clock, EntryOfRecord(r1), r2, pts);
    KeepsDated(clock, EntryOfRecord(r2), r1, pts);
  }

  lemma TwoMerged(clock: Clock, m: Content, r1: Record, r2: Record, pts: Time)
    ensures MergedAll(clock, m, [r1, r2], pts) == Merged(clock, Merged(clock, m, r1, pts), r2, pts)
  {
    assert [r1, r2][..1] == [r1] && [r1][..0] == [];
    assert MergedAll(clock, m, [r1], pts) == Merged(clock, m, r1, pts);
  }
}
