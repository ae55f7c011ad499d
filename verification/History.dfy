/**
 Versions of a key: with history on, K2HShm::Set archives what was stored under the key under a
 history key, and the attributes of each version name the one before it.
 */
module History {
  import opened Layout

  // ---------------------------------------------------------------- history keys

  /** A C string: no byte of it is zero. */
  predicate CString(s: Bytes)
  {
    0 !in s
  }

  /** base key, zero, unique id, zero. */
  function HistoryKey(baseKey: Bytes, uniqid: Bytes): Bytes
  {
    baseKey + [0] + uniqid + [0]
  }

  /** The history key of a version, none without a key or an id. */
  method MakeHistoryKey(baseKey: Bytes, uniqid: Bytes) returns (ok: bool, hisKey: Bytes)
    requires CString(uniqid)
    ensures ok <==> baseKey != [] && uniqid != []
    ensures ok ==> hisKey == HistoryKey(baseKey, uniqid)
  {
    if baseKey == [] || uniqid == [] {
      return false, [];
    }
    return true, baseKey + [0] + uniqid + [0];
  }

  /** The zero before the last one parts the key from the id. */
  method ParseHistoryKey(hisKey: Bytes) returns (ok: bool, baseKey: Bytes, uniqid: Bytes)
    ensures ok ==> baseKey != [] && CString(uniqid) && hisKey == HistoryKey(baseKey, uniqid)
    ensures !ok ==> forall b, u | b != [] && CString(u) :: hisKey != HistoryKey(b, u)
  {
    ok, baseKey, uniqid := false, [], [];
    if |hisKey| == 0 || hisKey[|hisKey| - 1] != 0 {
      assert forall b, u :: HistoryKey(b, u)[|HistoryKey(b, u)| - 1] == 0;
      return;
    }
    var pos := |hisKey| - 2;
    while 0 < pos && hisKey[pos] != 0
      invariant -1 <= pos <= |hisKey| - 2
      invariant forall i | pos < i < |hisKey| - 1 :: hisKey[i] != 0
    {
      pos := pos - 1;
    }
    if pos <= 0 {
      forall b, u | b != [] && CString(u)
        ensures hisKey != HistoryKey(b, u)
      {
        var k := HistoryKey(b, u);
        assert k[|b|] == 0 && 0 < |b| < |k| - 1;
      }
      return;
    }
    ok, baseKey, uniqid := true, hisKey[..pos], hisKey[pos + 1..|hisKey| - 1];
    assert hisKey == baseKey + [0] + uniqid + [0];
  }

  /** A history key belongs to one key and one id only, whatever zeros the key contains. */
  lemma HistoryKeyUnique(b1: Bytes, u1: Bytes, b2: Bytes, u2: Bytes)
    requires CString(u1) && CString(u2) && HistoryKey(b1, u1) == HistoryKey(b2, u2)
    ensures b1 == b2 && u1 == u2
  {
    var k1, k2 := HistoryKey(b1, u1), HistoryKey(b2, u2);
    assert k1[|b1|] == 0 && k2[|b2|] == 0;
    assert forall i | |b1| < i < |k1| - 1 :: k1[i] == u1[i - |b1| - 1];
    assert forall i | |b2| < i < |k2| - 1 :: k2[i] == u2[i - |b2| - 1];
    assert |b1| == |b2|;
    assert b1 == k1[..|b1|] && b2 == k2[..|b2|];
    assert u1 == k1[|b1| + 1..|k1| - 1] && u2 == k2[|b2| + 1..|k2| - 1];
  }

  // ---------------------------------------------------------------- attributes of a version

  /** Names of attributes, as C strings with their closing zero: uniqid, parentuniqid, hismark, mtime, expire. */
  const UNIQID: Bytes := [117, 110, 105, 113, 105, 100, 0]
  const PUNIQID: Bytes := [112, 97, 114, 101, 110, 116, 117, 110, 105, 113, 105, 100, 0]
  const HISMARK: Bytes := [104, 105, 115, 109, 97, 114, 107, 0]
  const MTIME: Bytes := [109, 116, 105, 109, 101, 0]
  const EXPIRE: Bytes := [101, 120, 112, 105, 114, 101, 0]

  /** How values are encrypted when they are; the attribute for it is aes256md5 or aes256_cbc_pad.pbkdf2.sha256. */
  datatype EncType = Pbkdf1 | Pbkdf2

  function EncAttr(encType: EncType): (r: Bytes)
    ensures r != UNIQID && r != PUNIQID && r != HISMARK
  {
    match encType
    case Pbkdf1 => [97, 101, 115, 50, 53, 54, 109, 100, 53, 0]
    case Pbkdf2 => [97, 101, 115, 50, 53, 54, 95, 99, 98, 99, 95, 112, 97, 100, 46, 112, 98, 107, 100, 102, 50, 46, 115,
      104, 97, 50, 53, 54, 0]
  }

  type AttrMap = map<Bytes, Bytes>

  /** What is stored under a key. */
  datatype Version = Version(value: Bytes, subkeys: set<Bytes>, attrs: AttrMap)

  type Versions = map<Bytes, Version>

  /** An id as an attribute: with its closing zero. */
  function Ended(uniqid: Bytes): Bytes
  {
    uniqid + [0]
  }

  /** The C string an attribute starts with. */
  function Text(bytes: Bytes): (s: Bytes)
    ensures CString(s)
  {
    if bytes == [] || bytes[0] == 0 then [] else [bytes[0]] + Text(bytes[1..])
  }

  lemma {:induction false} TextEnded(uniqid: Bytes)
    requires CString(uniqid)
    ensures Text(Ended(uniqid)) == uniqid
  {
    if uniqid != [] {
      TextEnded(uniqid[1..]);
      assert Ended(uniqid)[1..] == Ended(uniqid[1..]);
    }
  }

  predicate Archived(v: Version)
  {
    HISMARK in v.attrs && v.attrs[HISMARK] == [1]
  }

  /**
   K2hAttrBuiltin::UpdateAttr with history on and the other features off: their attributes go, and there is an
   id where there was none.
   */
  function UpdateAttr(attrs: AttrMap, encType: EncType, newUid: Bytes): AttrMap
  {
    var plain := attrs - {MTIME} - {EXPIRE} - {EncAttr(encType)};
    if UNIQID in plain then plain else plain[UNIQID := Ended(newUid)]
  }

  /** K2hAttrBuiltin::DirectSetUniqId: a new id, and the old one as its parent. */
  function DirectSetUniqId(attrs: AttrMap, oldUid: Bytes, newUid: Bytes): AttrMap
  {
    var parent := if oldUid != [] then oldUid else if UNIQID in attrs then Text(attrs[UNIQID]) else [];
    var attrs1 := attrs[UNIQID := Ended(newUid)];
    if parent == [] then attrs1 else attrs1[PUNIQID := Ended(parent)]
  }

  // ---------------------------------------------------------------- versions of a key

  /**
   The versions of `base` from the one under `at` on, newest first: each names the id of the next as its
   parent, the last one none; all but the one under the key itself are marked.
   */
  ghost predicate Lineage(c: Versions, base: Bytes, at: Bytes, values: seq<Bytes>)
    decreases |values|
  {
    && values != [] && at in c && c[at].value == values[0] && (at == base || Archived(c[at]))
    && if |values| == 1 then PUNIQID !in c[at].attrs
       else
         && PUNIQID in c[at].attrs
         && var parent := Text(c[at].attrs[PUNIQID]);
         parent != [] && Lineage(c, base, HistoryKey(base, parent), values[1..])
  }

  lemma {:induction false} LineageFrame(c: Versions, c': Versions, base: Bytes, at: Bytes, values: seq<Bytes>)
    requires Lineage(c, base, at, values)
    requires forall k | k in c && (Archived(c[k]) || k == at) :: k in c' && c'[k] == c[k]
    ensures Lineage(c', base, at, values)
    decreases |values|
  {
    if |values| > 1 {
      var next := HistoryKey(base, Text(c[at].attrs[PUNIQID]));
      assert next != base;
      LineageFrame(c, c', base, next, values[1..]);
    }
  }

  /** The id of a version, none when it has no id. */
  function IdOf(v: Version): Bytes
  {
    if UNIQID in v.attrs then Text(v.attrs[UNIQID]) else []
  }

  /** The key is not an archived version, nor what a stored version will be archived under. */
  ghost predicate Settable(c: Versions, key: Bytes)
  {
    && key != [] && (key in c ==> !Archived(c[key]))
    && forall k | k in c :: key != HistoryKey(k, IdOf(c[k]))
  }

  /** An id that no stored version has, and whose history keys are all free. */
  ghost predicate FreshId(c: Versions, uid: Bytes)
  {
    && uid != [] && CString(uid)
    && (forall k | k in c :: IdOf(c[k]) != uid)
    && (forall b :: HistoryKey(b, uid) !in c)
  }

  /**
   The keys with their values: every key that is not an archived version has its lineage, and the history key its id
   asks for is free.
   */
  ghost predicate Kept(c: Versions, given: map<Bytes, seq<Bytes>>)
  {
    && (forall k | k in c && !Archived(c[k]) :: k in given)
    && (forall k | k in given :: KeptAt(c, k, given[k]))
  }

  ghost predicate KeptAt(c: Versions, k: Bytes, values: seq<Bytes>)
  {
    && k in c && k != [] && !Archived(c[k]) && Lineage(c, k, k, values)
    && (UNIQID in c[k].attrs ==> IdOf(c[k]) != [] && HistoryKey(k, IdOf(c[k])) !in c)
  }

  /** Stored without any attribute of the history. */
  predicate WithoutHistory(v: Version)
  {
    UNIQID !in v.attrs && PUNIQID !in v.attrs && HISMARK !in v.attrs
  }

  /** History is switched on over what was stored before: every key has its one value. */
  lemma HistoryStarts(c: Versions)
    requires forall k | k in c :: k != [] && WithoutHistory(c[k])
    ensures Kept(c, map k | k in c :: [c[k].value])
  {
    forall k | k in c
      ensures KeptAt(c, k, [c[k].value])
    {
    }
  }

  /** The id a version is archived under. */
  function ArchiveId(v: Version, newUid: Bytes): Bytes
  {
    if UNIQID in v.attrs then Text(v.attrs[UNIQID]) else newUid
  }

  function Marked(v: Version, newUid: Bytes): Version
  {
    var attrs := if UNIQID in v.attrs then v.attrs else DirectSetUniqId(v.attrs, [], newUid);
    v.(attrs := attrs[HISMARK := [1]])
  }

  /** A version that follows another one and keeps its subkeys and its other attributes. */
  function Following(v: Version, encType: EncType, value: Bytes, uid0: Bytes, uid1: Bytes, uid2: Bytes): Version
  {
    v.(value := value, attrs := DirectSetUniqId(UpdateAttr(v.attrs, encType, uid1), ArchiveId(v, uid0), uid2))
  }

  /** What a following version has: each attribute either is one of the two ids or was there before. */
  lemma FollowingAttrs(v: Version, encType: EncType, value: Bytes, uid0: Bytes, uid1: Bytes, uid2: Bytes)
    requires ArchiveId(v, uid0) != []
    ensures
      var v' := Following(v, encType, value, uid0, uid1, uid2);
      && v'.value == value && v'.subkeys == v.subkeys
      && v'.attrs.Keys == v.attrs.Keys - {MTIME, EXPIRE, EncAttr(encType)} + {UNIQID, PUNIQID}
      && v'.attrs[UNIQID] == Ended(uid2) && v'.attrs[PUNIQID] == Ended(ArchiveId(v, uid0))
      && forall name | name in v'.attrs && name != UNIQID && name != PUNIQID :: v'.attrs[name] == v.attrs[name]
  {
    var plain := v.attrs - {MTIME} - {EXPIRE} - {EncAttr(encType)};
    assert plain.Keys == v.attrs.Keys - {MTIME, EXPIRE, EncAttr(encType)};
    assert UpdateAttr(v.attrs, encType, uid1).Keys == plain.Keys + {UNIQID};
  }

  /** What an archived version has: everything it had, its mark, and an id. */
  lemma MarkedAttrs(v: Version, uid0: Bytes)
    ensures
      var v' := Marked(v, uid0);
      && v'.value == v.value && v'.subkeys == v.subkeys
      && v'.attrs.Keys == v.attrs.Keys + {UNIQID, HISMARK} && v'.attrs[HISMARK] == [1]
      && v'.attrs[UNIQID] == (if UNIQID in v.attrs then v.attrs[UNIQID] else Ended(uid0))
      && forall name | name in v.attrs && name != HISMARK :: v'.attrs[name] == v.attrs[name]
  {
  }

  /** A version of a key that was not there. */
  function First(encType: EncType, value: Bytes, uid1: Bytes): Version
  {
    Version(value, {}, UpdateAttr(map[], encType, uid1))
  }

  /** What was stored under a key is archived. */
  function Archive(c: Versions, key: Bytes, uid0: Bytes): Versions
    requires key in c
  {
    (c - {key})[HistoryKey(key, ArchiveId(c[key], uid0)) := Marked(c[key], uid0)]
  }

  /** What setting a key makes of everything stored. */
  function Superseded(c: Versions, key: Bytes, encType: EncType, value: Bytes, uid0: Bytes, uid1: Bytes,
                      uid2: Bytes): Versions
  {
    if key in c then Archive(c, key, uid0)[key := Following(c[key], encType, value, uid0, uid1, uid2)]
    else c[key := First(encType, value, uid1)]
  }

  /** The lineages of other keys are not touched. */
  lemma OthersKept(c: Versions, c': Versions, given: map<Bytes, seq<Bytes>>, key: Bytes, k: Bytes)
    requires Kept(c, given) && k in given && k != key && Settable(c, key)
    requires forall k1 | k1 in c && k1 != key :: k1 in c' && c'[k1] == c[k1]
    requires forall k1 | k1 in c' && k1 !in c :: k1 == key || exists u :: CString(u) && k1 == HistoryKey(key, u)
    ensures KeptAt(c', k, given[k])
  {
    assert KeptAt(c, k, given[k]);
    LineageFrame(c, c', k, k, given[k]);
    var next := HistoryKey(k, IdOf(c[k]));
    assert UNIQID in c[k].attrs ==> next !in c && next != key;
    if UNIQID in c[k].attrs && next in c' {
      var u :| CString(u) && next == HistoryKey(key, u);
      HistoryKeyUnique(k, IdOf(c[k]), key, u);
      assert false;
    }
  }

  lemma GivenStored(c: Versions, given: map<Bytes, seq<Bytes>>, k: Bytes)
    requires Kept(c, given) && k in given
    ensures k in c
  {
    assert KeptAt(c, k, given[k]);
  }

  /** Besides the key only its archived version is new. */
  lemma SupersededOthers(c: Versions, key: Bytes, encType: EncType, value: Bytes, uid0: Bytes, uid1: Bytes, uid2: Bytes)
    requires key in c ==> HistoryKey(key, ArchiveId(c[key], uid0)) !in c && CString(uid0)
    ensures
      var c' := Superseded(c, key, encType, value, uid0, uid1, uid2);
      && (forall k | k in c && k != key :: k in c' && c'[k] == c[k])
      && (forall k | k in c' && k !in c :: k == key || exists u :: CString(u) && k == HistoryKey(key, u))
      && (forall k | k in c' && !Archived(c'[k]) :: k == key || (k in c && !Archived(c[k])))
  {
    if key in c {
      assert CString(ArchiveId(c[key], uid0));
      assert Archived(Marked(c[key], uid0));
    }
  }

  /** Setting a key puts its value in front of those it was given before; no other key is touched. */
  lemma VersionAdded(c: Versions, given: map<Bytes, seq<Bytes>>, key: Bytes, encType: EncType, value: Bytes,
                     uid0: Bytes, uid1: Bytes, uid2: Bytes)
    requires Kept(c, given) && Settable(c, key)
    requires FreshId(c, uid0) && FreshId(c, uid1) && FreshId(c, uid2) && uid0 != uid2
    ensures
      var c' := Superseded(c, key, encType, value, uid0, uid1, uid2);
      && Kept(c', given[key := [value] + if key in given then given[key] else []])
      && forall k | k in c && k != key :: k in c' && c'[k] == c[k]
  {
    var c', now :=
      Superseded(c, key, encType, value, uid0, uid1, uid2), [value] + if key in given then given[key] else [];
    assert KeptAt(c', key, now) && (key in c ==> HistoryKey(key, ArchiveId(c[key], uid0)) !in c) by {
      KeyKept(c, given, key, encType, value, uid0, uid1, uid2);
    }
    SupersededOthers(c, key, encType, value, uid0, uid1, uid2);
    KeptOn(c, c', given, key, now);
  }

  lemma KeyKept(c: Versions, given: map<Bytes, seq<Bytes>>, key: Bytes, encType: EncType, value: Bytes, uid0: Bytes,
                uid1: Bytes, uid2: Bytes)
    requires Kept(c, given) && Settable(c, key)
    requires FreshId(c, uid0) && FreshId(c, uid1) && FreshId(c, uid2) && uid0 != uid2
    ensures KeptAt(Superseded(c, key, encType, value, uid0, uid1, uid2), key,
        [value] + if key in given then given[key] else [])
    ensures key in c ==> HistoryKey(key, ArchiveId(c[key], uid0)) !in c
  {
    if key in c {
      assert KeptAt(c, key, given[key]);
      NewestKept(c, given, key, encType, value, uid0, uid1, uid2);
    } else {
      FirstKept(c, given, key, encType, value, uid1);
      assert [value] + [] == [value];
    }
  }

  /** With a lineage of the key, and nothing else new but archived versions of it, all lineages are there. */
  lemma KeptOn(c: Versions, c': Versions, given: map<Bytes, seq<Bytes>>, key: Bytes, now: seq<Bytes>)
    requires Kept(c, given) && Settable(c, key) && KeptAt(c', key, now)
    requires forall k | k in c && k != key :: k in c' && c'[k] == c[k]
    requires forall k | k in c' && k !in c :: k == key || exists u :: CString(u) && k == HistoryKey(key, u)
    requires forall k | k in c' && !Archived(c'[k]) :: k == key || (k in c && !Archived(c[k]))
    ensures Kept(c', given[key := now])
  {
    forall k | k in given && k != key
      ensures KeptAt(c', k, given[k])
    {
      OthersKept(c, c', given, key, k);
    }
  }

  /** The first version of a key. */
  lemma FirstKept(c: Versions, given: map<Bytes, seq<Bytes>>, key: Bytes, encType: EncType, value: Bytes, uid1: Bytes)
    requires Kept(c, given) && key !in c && Settable(c, key) && FreshId(c, uid1)
    ensures key !in given && KeptAt(c[key := First(encType, value, uid1)], key, [value])
  {
    if key in given {
      GivenStored(c, given, key);
      assert false;
    }
    TextEnded(uid1);
  }

  /** The archived version leads on where the version led. */
  lemma ArchivedLineage(c: Versions, c': Versions, key: Bytes, hisKey: Bytes, values: seq<Bytes>, uid0: Bytes)
    requires Lineage(c, key, key, values) && hisKey !in c && hisKey in c' && c'[hisKey] == Marked(c[key], uid0)
    requires !Archived(c[key]) && forall k | k in c && k != key :: k in c' && c'[k] == c[k]
    ensures Lineage(c', key, hisKey, values)
  {
    if |values| > 1 {
      var next := HistoryKey(key, Text(c[key].attrs[PUNIQID]));
      assert next != key;
      LineageFrame(c, c', key, next, values[1..]);
    }
  }

  /** The new version leads to the archived one. */
  lemma NewestKept(c: Versions, given: map<Bytes, seq<Bytes>>, key: Bytes, encType: EncType, value: Bytes, uid0: Bytes,
                   uid1: Bytes, uid2: Bytes)
    requires
      && key in c && key in given && KeptAt(c, key, given[key]) && FreshId(c, uid0) && FreshId(c, uid2) && uid0 != uid2
    ensures KeptAt(Superseded(c, key, encType, value, uid0, uid1, uid2), key, [value] + given[key])
  {
    var parent := ArchiveId(c[key], uid0);
    var hisKey := HistoryKey(key, parent);
    var c' := Superseded(c, key, encType, value, uid0, uid1, uid2);
    TextEnded(parent);
    TextEnded(uid2);
    assert hisKey !in c && hisKey != key;
    assert Lineage(c', key, hisKey, given[key]) by {
      ArchivedLineage(c, c', key, hisKey, given[key], uid0);
    }
    assert ([value] + given[key])[1..] == given[key];
    if HistoryKey(key, uid2) == hisKey {
      HistoryKeyUnique(key, uid2, key, parent);
    }
  }

  // ---------------------------------------------------------------- reading the versions of a key

  /** The values met from `at` on, each version leading to the one its parent id names, at most n of them. */
  function Followed(c: Versions, base: Bytes, at: Bytes, n: nat): seq<Bytes>
    decreases n
  {
    if n == 0 || at !in c then []
    else [c[at].value] + if PUNIQID in c[at].attrs then Followed(c, base, HistoryKey(base, Text(c[at].attrs[PUNIQID])),
      n - 1) else []
  }

  lemma {:induction false} LineageFollowed(c: Versions, base: Bytes, at: Bytes, values: seq<Bytes>, n: nat)
    requires Lineage(c, base, at, values) && |values| <= n
    ensures Followed(c, base, at, n) == values
    decreases |values|
  {
    if |values| > 1 {
      LineageFollowed(c, base, HistoryKey(base, Text(c[at].attrs[PUNIQID])), values[1..], n - 1);
    }
  }

  /**
   Following the parents from a key meets every value it was given, newest first, and then nothing more, however far
   one goes.
   */
  lemma AllVersionsFollowed(c: Versions, given: map<Bytes, seq<Bytes>>, key: Bytes, n: nat)
    requires Kept(c, given) && key in given && |given[key]| <= n
    ensures Followed(c, key, key, n) == given[key]
  {
    assert KeptAt(c, key, given[key]);
    LineageFollowed(c, key, key, given[key], n);
  }
}
